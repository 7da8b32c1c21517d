/** Machine words as natural numbers with individual bits. */
module Bits {

  function Pow2(k: nat): (p: nat)
    ensures p > 0
  {
    if k == 0 then 1 else 2 * Pow2(k - 1)
  }

  predicate Bit(w: nat, k: nat) {
    if k == 0 then w % 2 == 1 else Bit(w / 2, k - 1)
  }

  /** `w | (1 << k)` */
  function SetBit(w: nat, k: nat): nat {
    if Bit(w, k) then w else w + Pow2(k)
  }

  /** `w & !(1 << k)` */
  function ClearBit(w: nat, k: nat): nat {
    if Bit(w, k) then
      BitWeight(w, k);
      w - Pow2(k)
    else w
  }

  /** A set bit contributes its power of two. */
  lemma {:induction false} BitWeight(w: nat, k: nat)
    requires Bit(w, k)
    ensures w >= Pow2(k)
  {
    if k > 0 { BitWeight(w / 2, k - 1); }
  }

  lemma {:induction false} AddBit(w: nat, k: nat, j: nat)
    requires !Bit(w, k)
    ensures Bit(w + Pow2(k), j) <==> j == k || Bit(w, j)
  {
    if k > 0 {
      assert (w + Pow2(k)) / 2 == w / 2 + Pow2(k - 1);
      if j > 0 { AddBit(w / 2, k - 1, j - 1); }
    } else if j > 0 {
      assert (w + 1) / 2 == w / 2;
    }
  }

  lemma {:induction false} SubBit(w: nat, k: nat, j: nat)
    requires Bit(w, k)
    ensures w >= Pow2(k)
    ensures Bit(w - Pow2(k), j) <==> j != k && Bit(w, j)
  {
    BitWeight(w, k);
    LostBit(w, k);
    AddBit(w - Pow2(k), k, j);
  }

  /** Taking a set bit's weight away clears it. */
  lemma {:induction false} LostBit(w: nat, k: nat)
    requires Bit(w, k)
    ensures w >= Pow2(k) && !Bit(w - Pow2(k), k)
  {
    BitWeight(w, k);
    if k > 0 {
      LostBit(w / 2, k - 1);
      HalfLess(w, Pow2(k - 1));
    }
  }

  lemma HalfLess(w: nat, p: nat)
    requires w >= 2 * p
    ensures w / 2 >= p && (w - 2 * p) / 2 == w / 2 - p
  {
  }

  /** Setting and clearing touch exactly one bit. */
  lemma SetClearBit(w: nat, k: nat, j: nat)
    ensures Bit(SetBit(w, k), j) <==> j == k || Bit(w, j)
    ensures Bit(ClearBit(w, k), j) <==> j != k && Bit(w, j)
  {
    if Bit(w, k) { SubBit(w, k, j); } else { AddBit(w, k, j); }
  }

  /** Setting a bit below the width keeps a word within its width. */
  lemma {:induction false} SetBitBound(w: nat, k: nat, n: nat)
    requires w < Pow2(n) && k < n
    ensures SetBit(w, k) < Pow2(n)
  {
    if !Bit(w, k) && k > 0 {
      SetBitBound(w / 2, k - 1, n - 1);
    }
  }

  /** Number of consecutive one bits from the bottom (`trailing_ones`). */
  function TrailingOnes(w: nat): (r: nat)
    ensures !Bit(w, r)
    ensures forall j: nat | j < r :: Bit(w, j)
  {
    if w % 2 == 0 then 0
    else
      var r := TrailingOnes(w / 2);
      assert forall j: nat | 0 < j < r + 1 :: Bit(w / 2, j - 1) && Bit(w, j);
      r + 1
  }

  /** A word of `n` bits has a clear bit below `n` unless it is all ones. */
  lemma {:induction false} TrailingOnesBound(w: nat, n: nat)
    requires w < Pow2(n) - 1
    ensures TrailingOnes(w) < n
  {
    if w % 2 == 1 { TrailingOnesBound(w / 2, n - 1); }
  }

  /** All ones means every bit is set. */
  lemma {:induction false} AllOnes(n: nat, j: nat)
    requires j < n
    ensures Bit(Pow2(n) - 1, j)
  {
    assert (Pow2(n) - 1) / 2 == Pow2(n - 1) - 1;
    if j > 0 { AllOnes(n - 1, j - 1); }
  }

  lemma {:induction false} ZeroBits(j: nat)
    ensures !Bit(0, j)
  {
    if j > 0 { ZeroBits(j - 1); }
  }

  lemma WordWidth()
    ensures Pow2(64) == 0x1_0000_0000_0000_0000
  {
    assert Pow2(8) == 256;
    assert Pow2(16) == 65536 by { assert Pow2(12) == 4096; }
    assert Pow2(24) == 0x100_0000 by { assert Pow2(20) == 0x10_0000; }
    assert Pow2(32) == 0x1_0000_0000 by { assert Pow2(28) == 0x1000_0000; }
    assert Pow2(40) == 0x100_0000_0000 by { assert Pow2(36) == 0x10_0000_0000; }
    assert Pow2(48) == 0x1_0000_0000_0000 by { assert Pow2(44) == 0x1000_0000_0000; }
    assert Pow2(56) == 0x100_0000_0000_0000 by { assert Pow2(52) == 0x10_0000_0000_0000; }
    assert Pow2(60) == 0x1000_0000_0000_0000;
  }
}
