/** Bytes, little-endian numbers and in-place slices of byte sequences.
    Every on-disk and in-memory structure below is laid out with these. */
module Bytes {
  import opened Numbers


  type byte = x: int | 0 <= x < 256

  function Zeros(n: nat): seq<byte> {
    seq(n, _ => 0)
  }

  /** The number a little-endian byte sequence stands for. */
  function FromLE(s: seq<byte>): nat {
    if s == [] then 0 else s[0] + 256 * FromLE(s[1..])
  }

  /** The `n` low bytes of `x`, least significant first. */
  function ToLE(x: nat, n: nat): (s: seq<byte>)
    ensures |s| == n
  {
    if n == 0 then [] else [x % 256] + ToLE(x / 256, n - 1)
  }

  function Pow256(n: nat): (p: nat)
    ensures p > 0
  {
    if n == 0 then 1 else 256 * Pow256(n - 1)
  }

  lemma WordSizes()
    ensures Pow256(4) == U32_LIMIT
    ensures Pow256(8) == U64_LIMIT
  {
    assert Pow256(4) == 256 * Pow256(3) && Pow256(3) == 256 * Pow256(2);
    assert Pow256(6) == 256 * Pow256(5) && Pow256(5) == 256 * Pow256(4);
    assert Pow256(8) == 256 * Pow256(7) && Pow256(7) == 256 * Pow256(6);
  }

  /** Decoding undoes encoding for every number that fits. */
  lemma {:induction false} LERoundTrip(x: nat, n: nat)
    requires x < Pow256(n)
    ensures FromLE(ToLE(x, n)) == x
  {
    if n > 0 {
      var t := ToLE(x, n);
      assert t[1..] == ToLE(x / 256, n - 1);
      LERoundTrip(x / 256, n - 1);
    }
  }

  /** Byte `k` is the `k`-th digit to the base 256, lowest first. */
  lemma {:induction false} LEDigit(x: nat, n: nat, k: nat)
    requires k < n
    ensures ToLE(x, n)[k] == x / Pow256(k) % 256
  {
    if k > 0 {
      LEDigit(x / 256, n - 1, k - 1);
      DivTwice(x, Pow256(k - 1));
    }
  }

  lemma DivTwice(x: nat, d: nat)
    requires d > 0
    ensures x / 256 / d == x / (256 * d)
  {
    var q, r := x / 256 / d, x / 256 % d;
    assert x / 256 == q * d + r;
    var rest := 256 * r + x % 256;
    assert x == (256 * d) * q + rest && rest < 256 * d;
    QuotientIs(x, 256 * d, q, rest);
  }

  lemma QuotientIs(x: nat, d: nat, q: nat, r: nat)
    requires d > 0 && x == d * q + r && r < d
    ensures x / d == q
  {
    var q', r' := x / d, x % d;
    assert d * q + r == d * q' + r';
    if q < q' { Multiples(d, q + 1, q'); }
    if q' < q { Multiples(d, q' + 1, q); }
  }

  lemma Multiples(d: nat, a: nat, b: nat)
    requires a <= b
    ensures d * a <= d * b
  {
  }

  lemma {:induction false} LEBound(s: seq<byte>)
    ensures FromLE(s) < Pow256(|s|)
  {
    if s != [] { LEBound(s[1..]); }
  }

  /** All-zero bytes stand for zero. */
  lemma {:induction false} LEZeros(n: nat)
    ensures FromLE(Zeros(n)) == 0
  {
    if n > 0 {
      assert Zeros(n)[1..] == Zeros(n - 1);
      LEZeros(n - 1);
    }
  }

  /** Overwrite the bytes of `b` from `off` with `t`. */
  function Splice(b: seq<byte>, off: nat, t: seq<byte>): (r: seq<byte>)
    requires off + |t| <= |b|
    ensures |r| == |b|
  {
    b[..off] + t + b[off + |t|..]
  }

  /** A splice is read back whole and leaves every disjoint slice alone. */
  lemma SpliceSlice(b: seq<byte>, off: nat, t: seq<byte>, lo: nat, hi: nat)
    requires off + |t| <= |b|
    requires lo <= hi <= |b|
    ensures Splice(b, off, t)[off..off + |t|] == t
    ensures hi <= off || off + |t| <= lo ==> Splice(b, off, t)[lo..hi] == b[lo..hi]
  {
    var r := Splice(b, off, t);
    assert forall i | 0 <= i < |b| ::
        r[i] == if off <= i < off + |t| then t[i - off] else b[i];
    assert r[off..off + |t|] == t;
    if hi <= off || off + |t| <= lo {
      assert r[lo..hi] == b[lo..hi];
    }
  }

  function U32At(b: seq<byte>, off: nat): (v: nat)
    requires off + 4 <= |b|
    ensures v < U32_LIMIT
  {
    LEBound(b[off..off + 4]);
    WordSizes();
    FromLE(b[off..off + 4])
  }

  function PutU32(b: seq<byte>, off: nat, v: nat): (r: seq<byte>)
    requires off + 4 <= |b|
    ensures |r| == |b|
  {
    Splice(b, off, ToLE(v, 4))
  }

  /** A stored 32-bit word is read back; a word elsewhere is unchanged. */
  lemma PutU32At(b: seq<byte>, off: nat, v: nat, other: nat)
    requires off + 4 <= |b| && other + 4 <= |b|
    requires v < U32_LIMIT
    ensures U32At(PutU32(b, off, v), off) == v
    ensures other + 4 <= off || off + 4 <= other ==> U32At(PutU32(b, off, v), other) == U32At(b, other)
  {
    WordSizes();
    LERoundTrip(v, 4);
    SpliceSlice(b, off, ToLE(v, 4), other, other + 4);
  }

  function U64At(b: seq<byte>, off: nat): (v: nat)
    requires off + 8 <= |b|
    ensures v < U64_LIMIT
  {
    LEBound(b[off..off + 8]);
    WordSizes();
    FromLE(b[off..off + 8])
  }

  function PutU64(b: seq<byte>, off: nat, v: nat): (r: seq<byte>)
    requires off + 8 <= |b|
    ensures |r| == |b|
  {
    Splice(b, off, ToLE(v, 8))
  }

  /** A stored 64-bit word is read back; a word elsewhere is unchanged. */
  lemma PutU64At(b: seq<byte>, off: nat, v: nat, other: nat)
    requires off + 8 <= |b| && other + 8 <= |b|
    requires v < U64_LIMIT
    ensures U64At(PutU64(b, off, v), off) == v
    ensures other + 8 <= off || off + 8 <= other ==> U64At(PutU64(b, off, v), other) == U64At(b, other)
  {
    WordSizes();
    LERoundTrip(v, 8);
    SpliceSlice(b, off, ToLE(v, 8), other, other + 8);
  }
}
