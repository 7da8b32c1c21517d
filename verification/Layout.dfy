/** On-disk layout of one inode (easy-fs/src/layout.rs): sizes, the index tree and the
    file contents it stands for.

    The blocks of a file, data and index blocks alike, are numbered by SLOT in the
    order in which growth first needs them: 28 direct blocks, the indirect1 block, its
    128 data blocks, the indirect2 block, then for every second-level index block that
    block followed by its 128 data blocks. A file of `n` data blocks uses exactly the
    slots below TotalBlocks(n), so the tree is a flat sequence of block ids and growth
    is appending to it. */
module Layout {
  import opened Bytes
  import opened BlockCache
  import opened Numbers

  const INODE_DIRECT_COUNT: nat := 28
  const INODE_INDIRECT1_COUNT: nat := 128
  const INDIRECT1_BOUND: nat := 156
  const INDIRECT2_BOUND: nat := 16540
  const MAX_SIZE: nat := INDIRECT2_BOUND * BLOCK_SZ

  datatype InodeData = InodeData(size: nat, direct: seq<nat>, indirect1: nat, indirect2: nat, isDir: bool)

  /** `DiskInode::initialize` */
  function FreshInode(isDir: bool): InodeData {
    InodeData(0, seq(INODE_DIRECT_COUNT, _ => 0), 0, 0, isDir)
  }

  /** Number of data blocks a file of `size` bytes takes. */
  function DataBlocks(size: nat): nat {
    (size + BLOCK_SZ - 1) / BLOCK_SZ
  }

  /** Number of blocks, index blocks included, that `n` data blocks take. */
  function TotalBlocks(n: nat): nat {
    n + (if n > INODE_DIRECT_COUNT then 1 else 0)
      + (if n > INDIRECT1_BOUND
         then 1 + (n - INDIRECT1_BOUND + INODE_INDIRECT1_COUNT - 1) / INODE_INDIRECT1_COUNT
         else 0)
  }

  /** Slots whose block id stands in the inode itself. */
  predicate RootSlot(s: nat) {
    s <= 28 || s == 157
  }

  /** Slot of the index block that stores the block id of slot `s`. */
  function Parent(s: nat): (p: nat)
    requires !RootSlot(s)
    ensures p < s
  {
    if s < 157 then 28
    else
      var u := (s - 158) % 129;
      if u == 0 then 157 else s - u
  }

  /** Position of slot `s` within its index block. */
  function Pos(s: nat): nat
    requires !RootSlot(s)
  {
    if s < 157 then s - 29
    else
      var u := (s - 158) % 129;
      if u == 0 then (s - 158) / 129 else u - 1
  }

  /** Slots that hold index blocks. */
  predicate IndexSlot(s: nat) {
    s == 28 || s == 157 || (s >= 158 && (s - 158) % 129 == 0)
  }

  /** Slot of the `i`-th data block. */
  function DataSlot(i: nat): nat {
    if i < INODE_DIRECT_COUNT then i
    else if i < INDIRECT1_BOUND then i + 1
    else var m := i - INDIRECT1_BOUND; 158 + 129 * (m / 128) + 1 + m % 128
  }

  /** The `i`-th 32-bit word of a block; 0 outside the disk. */
  function IndexEntry(view: seq<Block>, id: nat, i: nat): nat {
    if id < |view| && i < INODE_INDIRECT1_COUNT then U32At(view[id], 4 * i) else 0
  }

  /** Block id in slot `s`, read through the index tree. */
  function SlotBlock(d: InodeData, view: seq<Block>, s: nat): nat
    requires |d.direct| == INODE_DIRECT_COUNT
    decreases s
  {
    if s < 28 then d.direct[s]
    else if s == 28 then d.indirect1
    else if s == 157 then d.indirect2
    else IndexEntry(view, SlotBlock(d, view, Parent(s)), Pos(s))
  }

  /** All blocks of a file, in slot order. */
  function Owned(d: InodeData, view: seq<Block>): (o: seq<nat>)
    requires |d.direct| == INODE_DIRECT_COUNT
    ensures |o| == TotalBlocks(DataBlocks(d.size))
  {
    seq(TotalBlocks(DataBlocks(d.size)), s requires 0 <= s => SlotBlock(d, view, s))
  }

  /** The first `t` slots of the tree hold the first `t` blocks of `o`. */
  ghost predicate Filled(d: InodeData, view: seq<Block>, o: seq<nat>, t: nat) {
    && |d.direct| == INODE_DIRECT_COUNT
    && t <= |o|
    && forall s | 0 <= s < t :: SlotBlock(d, view, s) == o[s]
  }

  ghost predicate Distinct(o: seq<nat>) {
    forall i, j | 0 <= i < j < |o| :: o[i] != o[j]
  }

  /** Usable block ids: on the disk, distinct, and none locked by the caller. */
  ghost predicate Usable(o: seq<nat>, disk: nat, held: set<nat>) {
    && Distinct(o)
    && disk <= U32_LIMIT
    && forall s | 0 <= s < |o| :: o[s] < disk && o[s] !in held
  }

  // ---------------------------------------------------------------------------
  // Slot arithmetic
  // ---------------------------------------------------------------------------

  /** Two slots never share an index entry. */
  lemma EntryInjective(s: nat, t: nat)
    requires !RootSlot(s) && !RootSlot(t)
    requires Parent(s) == Parent(t) && Pos(s) == Pos(t)
    ensures s == t
  {
  }

  lemma ParentIsIndex(s: nat)
    requires !RootSlot(s)
    ensures IndexSlot(Parent(s))
  {
    if s >= 158 {
      var u := (s - 158) % 129;
      if u != 0 { assert (s - u - 158) % 129 == 0; }
    }
  }

  lemma PosBound(s: nat)
    requires !RootSlot(s) && s < TotalBlocks(INDIRECT2_BOUND)
    ensures Pos(s) < INODE_INDIRECT1_COUNT
  {
  }

  /** Data blocks take the non-index slots, one each, within the slots of the file. */
  lemma DataSlotFacts(i: nat, n: nat)
    requires i < n <= INDIRECT2_BOUND
    ensures DataSlot(i) < TotalBlocks(n)
    ensures !IndexSlot(DataSlot(i))
  {
    if i >= INDIRECT1_BOUND {
      var m := i - INDIRECT1_BOUND;
      assert (DataSlot(i) - 158) % 129 == 1 + m % 128;
    }
  }

  lemma DataSlotInjective(i: nat, j: nat)
    requires DataSlot(i) == DataSlot(j)
    ensures i == j
  {
    if i >= INDIRECT1_BOUND && j >= INDIRECT1_BOUND {
      var m, k := i - INDIRECT1_BOUND, j - INDIRECT1_BOUND;
      SamePlace(m / 128, m % 128, k / 128, k % 128);
    }
  }

  lemma SamePlace(a: nat, u: nat, b: nat, w: nat)
    requires u < 128 && w < 128 && 129 * a + u == 129 * b + w
    ensures a == b && u == w
  {
  }

  lemma TotalBlocksMonotone(m: nat, n: nat)
    requires m <= n
    ensures TotalBlocks(m) <= TotalBlocks(n)
  {
  }

  /** `get_block_id`, level by level. */
  lemma DataSlotBlock(d: InodeData, view: seq<Block>, i: nat)
    requires |d.direct| == INODE_DIRECT_COUNT && i < INDIRECT2_BOUND
    ensures i < 28 ==> SlotBlock(d, view, DataSlot(i)) == d.direct[i]
    ensures 28 <= i < 156 ==> SlotBlock(d, view, DataSlot(i)) == IndexEntry(view, d.indirect1, i - 28)
    ensures 156 <= i ==>
              var m := i - 156;
              && SlotBlock(d, view, 158 + 129 * (m / 128)) == IndexEntry(view, d.indirect2, m / 128)
              && SlotBlock(d, view, DataSlot(i))
                 == IndexEntry(view, IndexEntry(view, d.indirect2, m / 128), m % 128)
  {
    hide IndexEntry;
    if i < 156 {
      assert i >= 28 ==> Parent(i + 1) == 28 && Pos(i + 1) == i - 28;
    } else {
      hide SlotBlock, Parent, Pos;
      var m := i - 156;
      DeepBlock(d, view, m / 128, m % 128);
    }
  }

  lemma DeepBlock(d: InodeData, view: seq<Block>, k: nat, u: nat)
    requires |d.direct| == INODE_DIRECT_COUNT && u < 128
    ensures var p := 158 + 129 * k;
      && SlotBlock(d, view, p) == IndexEntry(view, d.indirect2, k)
      && SlotBlock(d, view, p + 1 + u) == IndexEntry(view, IndexEntry(view, d.indirect2, k), u)
  {
    hide Parent, Pos, IndexEntry;
    DeepSlot(k, 0);
    DeepSlot(k, 1 + u);
  }

  /** Slots below the double index: `k`-th index block, place `u` from its start. */
  lemma DeepSlot(k: nat, u: nat)
    requires u < 129
    ensures var s := 158 + 129 * k + u;
      if u == 0 then Parent(s) == 157 && Pos(s) == k else Parent(s) == 158 + 129 * k && Pos(s) == u - 1
  {
    assert (129 * k + u) % 129 == u && (129 * k + u) / 129 == k;
  }

  // ---------------------------------------------------------------------------
  // The tree under updates
  // ---------------------------------------------------------------------------

  /** Disks that agree on every index block of a file agree on all its slots. */
  lemma {:induction false} TreeFrame(d: InodeData, view: seq<Block>, view': seq<Block>, o: seq<nat>, t: nat, s: nat)
    requires Filled(d, view, o, t) && s < t && |view| == |view'|
    requires forall p | 0 <= p < t && IndexSlot(p) && o[p] < |view| :: view[o[p]] == view'[o[p]]
    ensures SlotBlock(d, view', s) == o[s]
  {
    if !RootSlot(s) {
      TreeFrame(d, view, view', o, t, Parent(s));
      ParentIsIndex(s);
    }
  }

  /** Storing the next block id at its place in the tree fills one more slot. */
  lemma WriteSlot(d: InodeData, view: seq<Block>, o: seq<nat>, t: nat)
    requires Filled(d, view, o, t) && t < |o| && !RootSlot(t)
    requires Usable(o, |view|, {}) && t < TotalBlocks(INDIRECT2_BOUND)
    ensures var p := o[Parent(t)];
            && Pos(t) < INODE_INDIRECT1_COUNT
            && Filled(d, view[p := PutU32(view[p], 4 * Pos(t), o[t])], o, t + 1)
  {
    var p := o[Parent(t)];
    PosBound(t);
    var view' := view[p := PutU32(view[p], 4 * Pos(t), o[t])];
    forall s | 0 <= s < t + 1 ensures SlotBlock(d, view', s) == o[s] {
      WriteSlotAt(d, view, o, t, s);
    }
  }

  lemma {:induction false} WriteSlotAt(d: InodeData, view: seq<Block>, o: seq<nat>, t: nat, s: nat)
    requires Filled(d, view, o, t) && s <= t < |o| && !RootSlot(t)
    requires Usable(o, |view|, {}) && Pos(t) < INODE_INDIRECT1_COUNT
    ensures SlotBlock(d, view[o[Parent(t)] := PutU32(view[o[Parent(t)]], 4 * Pos(t), o[t])], s) == o[s]
  {
    if !RootSlot(s) {
      WriteSlotAt(d, view, o, t, Parent(s));
      if s < t && Parent(s) == Parent(t) && Pos(s) == Pos(t) { EntryInjective(s, t); }
      PutU32At(view[o[Parent(t)]], 4 * Pos(t), o[t], if Pos(s) < 128 then 4 * Pos(s) else 0);
    }
  }

  // ---------------------------------------------------------------------------
  // File contents
  // ---------------------------------------------------------------------------

  /** Block that holds byte `k` of the file. */
  function BlockOf(d: InodeData, view: seq<Block>, k: nat): nat
    requires |d.direct| == INODE_DIRECT_COUNT
  {
    SlotBlock(d, view, DataSlot(k / BLOCK_SZ))
  }

  function ByteAt(d: InodeData, view: seq<Block>, k: nat): byte
    requires |d.direct| == INODE_DIRECT_COUNT
  {
    var id := BlockOf(d, view, k);
    if id < |view| then view[id][k % BLOCK_SZ] else 0
  }

  /** The byte sequence a file stands for. */
  function Contents(d: InodeData, view: seq<Block>): (s: seq<byte>)
    requires |d.direct| == INODE_DIRECT_COUNT
    ensures |s| == d.size
  {
    seq(d.size, k requires 0 <= k => ByteAt(d, view, k))
  }

  /** Byte `k` of a file: found in the block its direct, indirect or double-indirect index names, at
      its place in that block. */
  lemma ByteOfFile(d: InodeData, view: seq<Block>, k: nat)
    requires |d.direct| == INODE_DIRECT_COUNT && k < d.size && k / 512 < INDIRECT2_BOUND
    ensures var i := k / 512;
      var id := if i < 28 then d.direct[i]
                else if i < 156 then IndexEntry(view, d.indirect1, i - 28)
                else IndexEntry(view, IndexEntry(view, d.indirect2, (i - 156) / 128), (i - 156) % 128);
      Contents(d, view)[k] == if id < |view| then view[id][k % 512] else 0
  {
    hide IndexEntry, SlotBlock, DataSlot;
    DataSlotBlock(d, view, k / 512);
  }

  /** An index block is 128 little-endian words of 32 bits. */
  lemma EntryOfIndex(view: seq<Block>, id: nat, i: nat)
    requires id < |view| && i < 128
    ensures IndexEntry(view, id, i) == FromLE(view[id][4 * i..4 * i + 4])
  {
  }

  /** Unused block ids are zero. */
  predicate Tidy(d: InodeData) {
    && |d.direct| == INODE_DIRECT_COUNT
    && (forall i | DataBlocks(d.size) <= i < INODE_DIRECT_COUNT :: d.direct[i] == 0)
    && (DataBlocks(d.size) <= INODE_DIRECT_COUNT ==> d.indirect1 == 0)
    && (DataBlocks(d.size) <= INDIRECT1_BOUND ==> d.indirect2 == 0)
  }

  /** Bytes of the last block past the end of the file are zero. */
  ghost predicate ZeroTail(d: InodeData, view: seq<Block>)
    requires |d.direct| == INODE_DIRECT_COUNT
  {
    forall k | d.size <= k < BLOCK_SZ * DataBlocks(d.size) :: ByteAt(d, view, k) == 0
  }

  /** A well-formed file that owns exactly the blocks `o`. */
  ghost predicate FileOk(d: InodeData, view: seq<Block>, o: seq<nat>) {
    && Tidy(d)
    && d.size <= MAX_SIZE
    && Owned(d, view) == o
    && Usable(o, |view|, {})
    && ZeroTail(d, view)
  }

  /** A file depends on nothing but its inode and the blocks it owns. */
  lemma FileFrame(d: InodeData, view: seq<Block>, view': seq<Block>, o: seq<nat>)
    requires FileOk(d, view, o) && |view| == |view'|
    requires forall s | 0 <= s < |o| :: view[o[s]] == view'[o[s]]
    ensures FileOk(d, view', o)
    ensures Contents(d, view') == Contents(d, view)
  {
    forall s | 0 <= s < |o| ensures SlotBlock(d, view', s) == o[s] == SlotBlock(d, view, s) {
      assert Owned(d, view)[s] == SlotBlock(d, view, s);
      TreeFrame(d, view, view', o, |o|, s);
    }
    assert Owned(d, view') == o;
    forall k | 0 <= k < BLOCK_SZ * DataBlocks(d.size) ensures ByteAt(d, view', k) == ByteAt(d, view, k) {
      DataSlotFacts(k / BLOCK_SZ, DataBlocks(d.size));
    }
  }
}
