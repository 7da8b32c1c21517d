/** Sv39 addresses and page-table entries (os/src/mm/address.rs, os/src/mm/page_table.rs;
    section 4.4 of the RISC-V Instruction Set Manual, Volume II, v1.12). */
module Sv39 {
  import Bits
  import opened Bytes
  import opened Numbers

  const PAGE_SIZE: nat := 4096
  const PPN_LIMIT: nat := 0x1000_0000_0000      // 44 bits
  const VPN_LIMIT: nat := 0x800_0000            // 27 bits
  const VA_LIMIT: nat := 0x80_0000_0000         // 39 bits
  const USER_VA_LIMIT: nat := 0x40_0000_0000    // 2^38
  const ENTRIES: nat := 512

  type Frame = f: seq<byte> | |f| == PAGE_SIZE witness Zeros(PAGE_SIZE)

  /** Is flag bit `k` of an entry set: V, R, W, X, U are bits 0 to 4. */
  predicate Flag(bits: nat, weight: nat)
    requires weight > 0
  {
    bits / weight % 2 == 1
  }

  predicate IsValid(bits: nat) { Flag(bits, 1) }
  predicate IsReadable(bits: nat) { Flag(bits, 2) }
  predicate IsWritable(bits: nat) { Flag(bits, 4) }
  predicate IsUser(bits: nat) { Flag(bits, 16) }

  /** `ppn << 10 | flags` */
  function PteNew(ppn: nat, flags: nat): (bits: nat) {
    ppn * 1024 + flags
  }

  function PtePpn(bits: nat): (ppn: nat)
    ensures ppn < PPN_LIMIT
  {
    bits / 1024 % PPN_LIMIT
  }

  function PteFlags(bits: nat): nat {
    bits % 256
  }

  /** Packing loses nothing: frame number and flags are read back. */
  lemma PteRoundTrip(ppn: nat, flags: nat)
    requires ppn < PPN_LIMIT && flags < 256
    ensures PtePpn(PteNew(ppn, flags)) == ppn && PteFlags(PteNew(ppn, flags)) == flags
    ensures PteNew(ppn, flags) == 1024 * ppn + flags < 0x1_0000_0000_0000_0000
    ensures IsValid(PteNew(ppn, flags)) == IsValid(flags)
    ensures IsReadable(PteNew(ppn, flags)) == IsReadable(flags)
    ensures IsWritable(PteNew(ppn, flags)) == IsWritable(flags)
    ensures IsUser(PteNew(ppn, flags)) == IsUser(flags)
  {
    hide Flag;
    PackedV(ppn, flags);
    PackedR(ppn, flags);
    PackedW(ppn, flags);
    PackedU(ppn, flags);
    PackedPpn(ppn, flags);
  }

  lemma PackedPpn(ppn: nat, flags: nat)
    requires ppn < PPN_LIMIT && flags < 256
    ensures PtePpn(PteNew(ppn, flags)) == ppn && PteFlags(PteNew(ppn, flags)) == flags
    ensures PteNew(ppn, flags) == 1024 * ppn + flags < U64_LIMIT
  {
    QuotientIs(PteNew(ppn, flags), 1024, ppn, flags);
    PackedFlags(4 * ppn, flags);
  }

  lemma PackedFlags(n: nat, flags: nat)
    requires flags < 256
    ensures (256 * n + flags) % 256 == flags
  {
  }

  lemma PackedV(ppn: nat, flags: nat)
    ensures Flag(PteNew(ppn, flags), 1) == Flag(flags, 1)
  {
    assert ppn * 1024 == 2 * (ppn * 512);
  }

  lemma PackedR(ppn: nat, flags: nat)
    ensures Flag(PteNew(ppn, flags), 2) == Flag(flags, 2)
  {
    assert PteNew(ppn, flags) / 2 == 2 * (ppn * 256) + flags / 2;
  }

  lemma PackedW(ppn: nat, flags: nat)
    ensures Flag(PteNew(ppn, flags), 4) == Flag(flags, 4)
  {
    assert PteNew(ppn, flags) / 4 == 2 * (ppn * 128) + flags / 4;
  }

  lemma PackedU(ppn: nat, flags: nat)
    ensures Flag(PteNew(ppn, flags), 16) == Flag(flags, 16)
  {
    assert PteNew(ppn, flags) / 16 == 2 * (ppn * 32) + flags / 16;
  }

  /** `flags | V` */
  function WithV(flags: nat): (r: nat) {
    if Flag(flags, 1) then flags else flags + 1
  }

  lemma WithVFlags(flags: nat)
    requires flags < 256
    ensures WithV(flags) < 256 && IsValid(WithV(flags))
    ensures IsReadable(WithV(flags)) == IsReadable(flags)
    ensures IsWritable(WithV(flags)) == IsWritable(flags)
    ensures IsUser(WithV(flags)) == IsUser(flags)
  {
  }

  /** The flags are single bits: V is bit 0, R bit 1, W bit 2 and U bit 4. */
  lemma FlagBits(bits: nat)
    ensures IsValid(bits) <==> Bits.Bit(bits, 0)
    ensures IsReadable(bits) <==> Bits.Bit(bits, 1)
    ensures IsWritable(bits) <==> Bits.Bit(bits, 2)
    ensures IsUser(bits) <==> Bits.Bit(bits, 4)
  {
    hide Bits.Bit, Flag;
    FlagV(bits);
    FlagR(bits);
    FlagW(bits);
    FlagU(bits);
  }

  lemma FlagV(bits: nat)
    ensures Flag(bits, 1) == Bits.Bit(bits, 0)
  {
  }

  lemma FlagR(bits: nat)
    ensures Flag(bits, 2) == Bits.Bit(bits, 1)
  {
    assert Bits.Bit(bits, 1) == Bits.Bit(bits / 2, 0);
  }

  lemma FlagW(bits: nat)
    ensures Flag(bits, 4) == Bits.Bit(bits, 2)
  {
    hide Bits.Bit;
    NextBit(bits, 1);
    NextBit(bits / 2, 0);
    LowBit(bits / 2 / 2);
    assert bits / 2 / 2 == bits / 4;
  }

  lemma FlagU(bits: nat)
    ensures Flag(bits, 16) == Bits.Bit(bits, 4)
  {
    hide Bits.Bit;
    NextBit(bits, 3);
    NextBit(bits / 2, 2);
    assert bits / 2 / 2 == bits / 4;
    FlagW(bits / 4);
    assert bits / 4 / 4 == bits / 16;
  }

  lemma LowBit(w: nat)
    ensures Bits.Bit(w, 0) <==> w % 2 == 1
  {
  }

  lemma NextBit(w: nat, k: nat)
    ensures Bits.Bit(w, k + 1) == Bits.Bit(w / 2, k)
  {
  }

  /** Packed with a frame number and made valid, an entry still shows its permissions. */
  lemma EntryBits(ppn: nat, perm: nat)
    requires ppn < PPN_LIMIT && perm < 256
    ensures var bits := PteNew(ppn, WithV(perm));
      && PtePpn(bits) == ppn && IsValid(bits)
      && (IsReadable(bits) <==> Bits.Bit(perm, 1)) && (IsWritable(bits) <==> Bits.Bit(perm, 2))
      && (IsUser(bits) <==> Bits.Bit(perm, 4))
  {
    hide Flag, WithV;
    WithVFlags(perm);
    PteRoundTrip(ppn, WithV(perm));
    FlagBits(perm);
  }

  /** Table index at each level, root first. */
  function Index(vpn: nat, level: nat): (i: nat)
    ensures i < ENTRIES
  {
    if level == 0 then vpn / 262144 % 512 else if level == 1 then vpn / 512 % 512 else vpn % 512
  }

  /** `VirtPageNum::indexes`: peel nine bits at a time, last level first. */
  method Indexes(vpn: nat) returns (idx: seq<nat>)
    ensures idx == [Index(vpn, 0), Index(vpn, 1), Index(vpn, 2)]
    ensures idx[0] < 512 && idx[1] < 512 && idx[2] < 512
    ensures vpn < 0x800_0000 ==> 262144 * idx[0] + 512 * idx[1] + idx[2] == vpn
  {
    if vpn < VPN_LIMIT { IndexCompose(vpn); }
    idx := [0, 0, 0];
    var rest := vpn;
    var i := 3;
    while i > 0
      invariant 0 <= i <= 3 && |idx| == 3
      invariant rest == if i == 3 then vpn else if i == 2 then vpn / 512 else if i == 1 then vpn / 262144
                        else vpn / 134217728
      invariant forall j | i <= j < 3 :: idx[j] == Index(vpn, j)
    {
      i := i - 1;
      idx := idx[i := rest % 512];
      rest := rest / 512;
    }
  }

  /** Page numbers of 27 bits are told apart by their indexes. */
  lemma IndexInjective(v: nat, w: nat)
    requires v < VPN_LIMIT && w < VPN_LIMIT
    requires Index(v, 0) == Index(w, 0) && Index(v, 1) == Index(w, 1) && Index(v, 2) == Index(w, 2)
    ensures v == w
  {
    hide Index;
    IndexCompose(v);
    IndexCompose(w);
  }

  lemma IndexCompose(v: nat)
    requires v < VPN_LIMIT
    ensures v == 262144 * Index(v, 0) + 512 * Index(v, 1) + Index(v, 2)
  {
  }

  /** `VirtAddr::from(usize)` keeps the low 39 bits. */
  function VaOf(a: nat): nat { a % VA_LIMIT }

  /** `usize::from(VirtAddr)` sign-extends from bit 38. */
  function UsizeOf(va: nat): nat {
    if va >= USER_VA_LIMIT then va + (U64_LIMIT - VA_LIMIT) else va
  }

  // ---------------------------------------------------------------------------
  // Entries in memory
  // ---------------------------------------------------------------------------

  /** Entry `i` of the table in frame `ppn`. */
  function Entry(mem: seq<Frame>, ppn: nat, i: nat): (bits: nat)
    requires ppn < |mem| && i < ENTRIES
    ensures bits < U64_LIMIT
  {
    U64At(mem[ppn], 8 * i)
  }

  function PutEntry(mem: seq<Frame>, ppn: nat, i: nat, bits: nat): (mem': seq<Frame>)
    requires ppn < |mem| && i < ENTRIES
    ensures |mem'| == |mem|
    ensures forall p | 0 <= p < |mem| && p != ppn :: mem'[p] == mem[p]
  {
    mem[ppn := PutU64(mem[ppn], 8 * i, bits)]
  }

  lemma PutEntryAt(mem: seq<Frame>, ppn: nat, i: nat, bits: nat, q: nat, j: nat)
    requires ppn < |mem| && i < ENTRIES && bits < U64_LIMIT && q < |mem| && j < ENTRIES
    ensures Entry(PutEntry(mem, ppn, i, bits), q, j) == if q == ppn && j == i then bits else Entry(mem, q, j)
  {
    PutU64At(mem[ppn], 8 * i, bits, 8 * j);
  }

  /** A zeroed frame is a table without valid entries. */
  lemma ZeroTable(mem: seq<Frame>, ppn: nat, i: nat)
    requires ppn < |mem| && mem[ppn] == Zeros(PAGE_SIZE) && i < ENTRIES
    ensures Entry(mem, ppn, i) == 0
  {
    assert mem[ppn][8 * i..8 * i + 8] == Zeros(8);
    LEZeros(8);
  }
}
