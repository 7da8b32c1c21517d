/** The operations of one disk inode (easy-fs/src/layout.rs). The caller holds the block
    the inode lives in; index and data blocks are reached through the cache. */
module DiskInodes {
  import opened Bytes
  import opened BlockCache
  import opened Layout
  import opened Numbers

  ghost function IndexBlocks(o: seq<nat>): set<nat> {
    set s | 0 <= s < |o| && IndexSlot(s) :: o[s]
  }

  /** Block contents may differ only at index blocks of the file. */
  ghost predicate OnlyIndexChanged(view: seq<Block>, view': seq<Block>, o: seq<nat>) {
    && |view'| == |view|
    && forall b | 0 <= b < |view| && b !in IndexBlocks(o) :: view'[b] == view[b]
  }

  /** Slots in use when `a` second-level index blocks are full and the next holds `b` entries. */
  ghost function SlotsAt(a: nat, b: nat): nat {
    158 + 129 * a + (if b == 0 then 0 else b + 1)
  }

  /** Where the two block ids of one round of the indirect2 loop are stored. */
  lemma SlotsStep(a: nat, b: nat)
    requires b < 128
    ensures var p := 158 + 129 * a;
            && !RootSlot(p) && Parent(p) == 157 && Pos(p) == a
            && !RootSlot(p + 1 + b) && Parent(p + 1 + b) == p && Pos(p + 1 + b) == b
            && SlotsAt(a, b + 1) == p + 2 + b
  {
    assert (129 * a) % 129 == 0 && (129 * a) / 129 == a;
    assert (129 * a + 1 + b) % 129 == 1 + b;
  }

  /** The slot count, split where the double-indirect part starts. */
  lemma SlotsTotal(n: nat)
    ensures n <= INODE_DIRECT_COUNT ==> TotalBlocks(n) == n
    ensures INODE_DIRECT_COUNT < n <= INDIRECT1_BOUND ==> TotalBlocks(n) == n + 1
    ensures INDIRECT1_BOUND < n ==>
              var m := n - INDIRECT1_BOUND; TotalBlocks(n) == SlotsAt(m / 128, m % 128) >= 158
  {
  }

  /** Room for the handles an inode operation takes: at most two beside the caller's. */
  ghost predicate Room(c: BlockCacheManager)
    reads c
  {
    c.Valid() && |c.held| + 2 <= BLOCK_CACHE_SIZE
  }

  class DiskInode {
    var size: nat
    var direct: seq<nat>
    var indirect1: nat
    var indirect2: nat
    var isDir: bool

    constructor (d: InodeData)
      ensures Val() == d
    {
      size, direct, indirect1, indirect2, isDir := d.size, d.direct, d.indirect1, d.indirect2, d.isDir;
    }

    function Val(): InodeData
      reads this
    {
      InodeData(size, direct, indirect1, indirect2, isDir)
    }

    /** Block id of the `inner`-th data block. */
    method GetBlockId(inner: nat, c: BlockCacheManager, ghost o: seq<nat>) returns (id: nat)
      requires Room(c) && inner < DataBlocks(size) <= INDIRECT2_BOUND
      requires Filled(Val(), c.view, o, |o|) && |o| == TotalBlocks(DataBlocks(size))
      requires Usable(o, |c.view|, c.held)
      modifies c
      ensures Room(c) && c.view == old(c.view) && c.held == old(c.held)
      ensures DataSlot(inner) < |o| && id == o[DataSlot(inner)]
      ensures old(c.device) == old(c.view) ==> c.device == c.view
    {
      hide BlockCacheManager.Valid;
      DataSlotFacts(inner, DataBlocks(size));
      DataSlotBlock(Val(), c.view, inner);
      if inner < INODE_DIRECT_COUNT {
        id := direct[inner];
      } else if inner < INDIRECT1_BOUND {
        assert o[28] == SlotBlock(Val(), c.view, 28);
        var b := c.Fetch(indirect1);
        id := U32At(b, 4 * (inner - INODE_DIRECT_COUNT));
      } else {
        var last := inner - INDIRECT1_BOUND;
        assert o[157] == SlotBlock(Val(), c.view, 157);
        assert o[158 + 129 * (last / 128)] == SlotBlock(Val(), c.view, 158 + 129 * (last / 128));
        var b2 := c.Fetch(indirect2);
        var sub := U32At(b2, 4 * (last / INODE_INDIRECT1_COUNT));
        var b1 := c.Fetch(sub);
        id := U32At(b1, 4 * (last % INODE_INDIRECT1_COUNT));
      }
    }

    // -------------------------------------------------------------------------
    // Growth. `rest` is the iterator over the supplied blocks, `o` the slots the
    // grown file will have and `t` the number of slots filled so far.
    // -------------------------------------------------------------------------

    /** Store the next block id at its place in a held index block. */
    method PutEntry(id: nat, pos: nat, v: nat, c: BlockCacheManager, ghost o: seq<nat>, ghost t: nat)
      requires c.Valid() && id in c.held
      requires Filled(Val(), c.view, o, t) && t < |o| <= TotalBlocks(INDIRECT2_BOUND) && !RootSlot(t)
      requires Usable(o, |c.view|, {})
      requires id == o[Parent(t)] && pos == Pos(t) && v == o[t]
      modifies c`queue, c`view
      ensures c.Valid() && OnlyIndexChanged(old(c.view), c.view, o)
      ensures Filled(Val(), c.view, o, t + 1)
    {
      hide BlockCacheManager.Valid;
      WriteSlot(Val(), c.view, o, t);
      ParentIsIndex(t);
      assert id in IndexBlocks(o);
      var b := c.Read(id);
      c.Modify(id, PutU32(b, 4 * pos, v));
    }

    method FillDirect(cur0: nat, total: nat, rest0: seq<nat>, ghost view: seq<Block>, ghost o: seq<nat>, ghost t0: nat)
      returns (cur: nat, rest: seq<nat>, ghost t: nat)
      requires Filled(Val(), view, o, t0) && o[t0..] == rest0
      requires cur0 < INODE_DIRECT_COUNT ==> t0 == cur0 && Min(total, INODE_DIRECT_COUNT) <= |o|
      modifies this`direct
      ensures cur == if cur0 < Min(total, INODE_DIRECT_COUNT) then Min(total, INODE_DIRECT_COUNT) else cur0
      ensures t == t0 + cur - cur0 <= |o| && o[t..] == rest
      ensures Filled(Val(), view, o, t)
      ensures forall i | 0 <= i < INODE_DIRECT_COUNT && !(cur0 <= i < cur) :: direct[i] == old(direct)[i]
    {
      cur, rest, t := cur0, rest0, t0;
      while cur < Min(total, INODE_DIRECT_COUNT)
        invariant cur0 <= cur && (cur0 < cur ==> cur <= Min(total, INODE_DIRECT_COUNT))
        invariant t == t0 + cur - cur0 <= |o| && o[t..] == rest
        invariant Filled(Val(), view, o, t)
        invariant forall i | 0 <= i < INODE_DIRECT_COUNT && !(cur0 <= i < cur) :: direct[i] == old(direct)[i]
      {
        direct := direct[cur := rest[0]];
        rest, t, cur := rest[1..], t + 1, cur + 1;
      }
    }

    method FillIndirect1(cur0: nat, total: nat, rest0: seq<nat>, c: BlockCacheManager, ghost o: seq<nat>, ghost t0: nat)
      returns (cur: nat, rest: seq<nat>, ghost t: nat)
      requires Room(c) && Filled(Val(), c.view, o, t0) && o[t0..] == rest0
      requires Usable(o, |c.view|, c.held) && |o| <= TotalBlocks(INDIRECT2_BOUND)
      requires t0 >= 29 && total > 0
      requires cur0 < INODE_INDIRECT1_COUNT ==> t0 == 29 + cur0 && 29 + Min(total, INODE_INDIRECT1_COUNT) <= |o|
      modifies c
      ensures Room(c) && c.held == old(c.held) && OnlyIndexChanged(old(c.view), c.view, o)
      ensures cur == if cur0 < Min(total, INODE_INDIRECT1_COUNT) then Min(total, INODE_INDIRECT1_COUNT) else cur0
      ensures t == t0 + cur - cur0 <= |o| && o[t..] == rest
      ensures Filled(Val(), c.view, o, t)
    {
      hide BlockCacheManager.Valid;
      cur, rest, t := cur0, rest0, t0;
      assert o[28] == SlotBlock(Val(), c.view, 28) == indirect1;
      c.Lock(indirect1);
      while cur < Min(total, INODE_INDIRECT1_COUNT)
        invariant cur0 <= cur && (cur0 < cur ==> cur <= Min(total, INODE_INDIRECT1_COUNT))
        invariant t == t0 + cur - cur0 <= |o| && o[t..] == rest
        invariant c.Valid() && c.held == old(c.held) + {indirect1} && OnlyIndexChanged(old(c.view), c.view, o)
        invariant Filled(Val(), c.view, o, t)
      {
        PutEntry(indirect1, cur, rest[0], c, o, t);
        rest, t, cur := rest[1..], t + 1, cur + 1;
      }
      c.Release(indirect1);
      assert c.held == old(c.held);
    }

    /** One round of the indirect2 loop: a new second-level index block when the current
        one is full, then one data block. The indirect2 block is held. */
    method FillOne(a: nat, b: nat, rest0: seq<nat>, c: BlockCacheManager, ghost o: seq<nat>)
      returns (rest: seq<nat>)
      requires c.Valid() && indirect2 in c.held && |c.held| < BLOCK_CACHE_SIZE
      requires a < 128 && b < 128 && SlotsAt(a, b + 1) <= |o| <= TotalBlocks(INDIRECT2_BOUND)
      requires Filled(Val(), c.view, o, SlotsAt(a, b)) && o[SlotsAt(a, b)..] == rest0
      requires Usable(o, |c.view|, c.held - {indirect2})
      modifies c
      ensures c.Valid() && c.held == old(c.held) && OnlyIndexChanged(old(c.view), c.view, o)
      ensures o[SlotsAt(a, b + 1)..] == rest
      ensures Filled(Val(), c.view, o, SlotsAt(a, b + 1))
    {
      hide BlockCacheManager.Valid;
      SlotsStep(a, b);
      rest := rest0;
      ghost var p := 158 + 129 * a;
      assert o[157] == SlotBlock(Val(), c.view, 157) == indirect2;
      if b == 0 {
        PutEntry(indirect2, a, rest[0], c, o, p);
        rest := rest[1..];
      }
      assert SlotBlock(Val(), c.view, p) == o[p];
      var b2 := c.Read(indirect2);
      var sub := U32At(b2, 4 * a);
      c.Lock(sub);
      PutEntry(sub, b, rest[0], c, o, p + 1 + b);
      c.Release(sub);
      rest := rest[1..];
      assert c.held == old(c.held);
    }

    method FillIndirect2(cur: nat, total: nat, rest0: seq<nat>, c: BlockCacheManager, ghost o: seq<nat>)
      returns (rest: seq<nat>)
      requires Room(c) && cur <= total <= 128 * 128
      requires Usable(o, |c.view|, c.held) && |o| == SlotsAt(total / 128, total % 128)
      requires SlotsAt(cur / 128, cur % 128) <= |o| && o[SlotsAt(cur / 128, cur % 128)..] == rest0
      requires Filled(Val(), c.view, o, SlotsAt(cur / 128, cur % 128))
      modifies c
      ensures Room(c) && c.held == old(c.held) && OnlyIndexChanged(old(c.view), c.view, o)
      ensures rest == [] && Filled(Val(), c.view, o, |o|)
    {
      hide BlockCacheManager.Valid;
      rest := rest0;
      var a0, b0 := cur / INODE_INDIRECT1_COUNT, cur % INODE_INDIRECT1_COUNT;
      var a1, b1 := total / INODE_INDIRECT1_COUNT, total % INODE_INDIRECT1_COUNT;
      assert o[157] == SlotBlock(Val(), c.view, 157) == indirect2;
      c.Lock(indirect2);
      while a0 < a1 || (a0 == a1 && b0 < b1)
        invariant 0 <= b0 < 128 && 0 <= a0 && 128 * a0 + b0 <= 128 * a1 + b1
        invariant c.Valid() && c.held == old(c.held) + {indirect2} && OnlyIndexChanged(old(c.view), c.view, o)
        invariant SlotsAt(a0, b0) <= |o| && o[SlotsAt(a0, b0)..] == rest
        invariant Filled(Val(), c.view, o, SlotsAt(a0, b0))
        decreases 128 * a1 + b1 - (128 * a0 + b0)
      {
        rest := FillOne(a0, b0, rest, c, o);
        b0 := b0 + 1;
        if b0 == INODE_INDIRECT1_COUNT {
          b0, a0 := 0, a0 + 1;
        }
      }
      c.Release(indirect2);
      assert c.held == old(c.held);
    }

    static lemma ChangedTwice(view0: seq<Block>, view1: seq<Block>, view2: seq<Block>, o: seq<nat>)
      requires OnlyIndexChanged(view0, view1, o) && OnlyIndexChanged(view1, view2, o)
      ensures OnlyIndexChanged(view0, view2, o)
    {
    }

    /** Growth past the direct blocks: `cur0` of `total0` data blocks are in place. */
    method FillIndirect(cur0: nat, total0: nat, rest0: seq<nat>, c: BlockCacheManager, ghost o: seq<nat>, ghost t0: nat)
      requires Room(c) && INODE_DIRECT_COUNT <= cur0 <= total0 <= INDIRECT2_BOUND && INODE_DIRECT_COUNT < total0
      requires t0 == TotalBlocks(cur0) <= |o| == TotalBlocks(total0) && o[t0..] == rest0
      requires Filled(Val(), c.view, o, t0) && Usable(o, |c.view|, c.held)
      modifies c, this`indirect1, this`indirect2
      ensures Room(c) && c.held == old(c.held) && OnlyIndexChanged(old(c.view), c.view, o)
      ensures Filled(Val(), c.view, o, |o|)
      ensures total0 <= INDIRECT1_BOUND ==> indirect2 == old(indirect2)
    {
      hide BlockCacheManager.Valid;
      hide SlotBlock, Usable, IndexBlocks, TotalBlocks, OnlyIndexChanged;
      SlotsTotal(cur0);
      SlotsTotal(total0);
      TotalBlocksMonotone(total0, INDIRECT2_BOUND);
      var cur, total, rest := cur0, total0, rest0;
      ghost var t := t0;
      if cur == INODE_DIRECT_COUNT {
        SetRoot(Val(), c.view, o, t);
        indirect1 := rest[0];
        rest, t := rest[1..], t + 1;
      }
      cur, total := cur - INODE_DIRECT_COUNT, total - INODE_DIRECT_COUNT;
      cur, rest, t := FillIndirect1(cur, total, rest, c, o, t);
      if total <= INODE_INDIRECT1_COUNT {
        return;
      }
      ghost var mid := c.view;
      SameLength(old(c.view), mid, o);
      SlotsTotal(cur + INODE_DIRECT_COUNT);
      FillDouble(cur, total, rest, c, o, t);
      ChangedTwice(old(c.view), mid, c.view, o);
    }

    /** Growth past the indirect1 block: `cur0` of `total0` blocks beyond the direct ones are in place. */
    method FillDouble(cur0: nat, total0: nat, rest0: seq<nat>, c: BlockCacheManager, ghost o: seq<nat>, ghost t0: nat)
      requires Room(c) && INODE_INDIRECT1_COUNT <= cur0 <= total0 && INODE_INDIRECT1_COUNT < total0
      requires total0 + INODE_DIRECT_COUNT <= INDIRECT2_BOUND
      requires t0 == TotalBlocks(cur0 + INODE_DIRECT_COUNT) <= |o| == TotalBlocks(total0 + INODE_DIRECT_COUNT)
      requires o[t0..] == rest0 && Filled(Val(), c.view, o, t0) && Usable(o, |c.view|, c.held)
      modifies c, this`indirect2
      ensures Room(c) && c.held == old(c.held) && OnlyIndexChanged(old(c.view), c.view, o)
      ensures Filled(Val(), c.view, o, |o|)
    {
      hide BlockCacheManager.Valid;
      hide SlotBlock, Usable, IndexBlocks, TotalBlocks, OnlyIndexChanged;
      SlotsTotal(cur0 + INODE_DIRECT_COUNT);
      SlotsTotal(total0 + INODE_DIRECT_COUNT);
      var rest := rest0;
      ghost var t := t0;
      if cur0 == INODE_INDIRECT1_COUNT {
        SetRoot(Val(), c.view, o, t);
        indirect2 := rest[0];
        rest, t := rest[1..], t + 1;
      }
      rest := FillIndirect2(cur0 - INODE_INDIRECT1_COUNT, total0 - INODE_INDIRECT1_COUNT, rest, c, o);
    }

    static lemma SameLength(view: seq<Block>, view': seq<Block>, o: seq<nat>)
      requires OnlyIndexChanged(view, view', o)
      ensures |view'| == |view|
    {
    }

    /** Grow to `newSize` with the supplied blocks. Every supplied block is used, in order,
        in the next free slots; no earlier slot changes. */
    method IncreaseSize(newSize: nat, newBlocks: seq<nat>, c: BlockCacheManager, ghost o: seq<nat>)
      requires Room(c) && Tidy(Val()) && size <= newSize <= MAX_SIZE
      requires o == Owned(Val(), c.view) + newBlocks
      requires |newBlocks| == TotalBlocks(DataBlocks(newSize)) - TotalBlocks(DataBlocks(size))
      requires Usable(o, |c.view|, c.held)
      modifies this, c
      ensures Room(c) && c.held == old(c.held) && OnlyIndexChanged(old(c.view), c.view, o)
      ensures size == newSize && isDir == old(isDir) && Tidy(Val())
      ensures Owned(Val(), c.view) == o
    {
      hide BlockCacheManager.Valid;
      hide SlotBlock, Usable, IndexBlocks, TotalBlocks;
      SlotsTotal(DataBlocks(size));
      SlotsTotal(DataBlocks(newSize));
      var cur := DataBlocks(size);
      size := newSize;
      var total := DataBlocks(size);
      var rest := newBlocks;
      ghost var t := TotalBlocks(cur);
      GrowthStart(old(Val()), Val(), c.view, o);
      cur, rest, t := FillDirect(cur, total, rest, c.view, o, t);
      if total > INODE_DIRECT_COUNT {
        SlotsTotal(cur);
        FillIndirect(cur, total, rest, c, o, t);
      }
      FilledIsOwned(Val(), c.view, o);
    }

    static lemma {:induction false} SizeIrrelevant(d: InodeData, d': InodeData, view: seq<Block>, s: nat)
      requires |d.direct| == INODE_DIRECT_COUNT && d' == d.(size := d'.size)
      ensures SlotBlock(d', view, s) == SlotBlock(d, view, s)
    {
      if !RootSlot(s) { SizeIrrelevant(d, d', view, Parent(s)); }
    }

    static lemma GrowthStart(d: InodeData, d': InodeData, view: seq<Block>, o: seq<nat>)
      requires |d.direct| == INODE_DIRECT_COUNT && d' == d.(size := d'.size)
      requires |Owned(d, view)| <= |o| && Owned(d, view) == o[..|Owned(d, view)|]
      ensures Filled(d', view, o, |Owned(d, view)|)
    {
      forall s | 0 <= s < |Owned(d, view)| ensures SlotBlock(d', view, s) == o[s] {
        SizeIrrelevant(d, d', view, s);
        assert Owned(d, view)[s] == o[s];
      }
    }

    /** Storing an index block's id in the inode fills its slot. */
    static lemma SetRoot(d: InodeData, view: seq<Block>, o: seq<nat>, t: nat)
      requires Filled(d, view, o, t) && t < |o| && (t == 28 || t == 157)
      ensures Filled(if t == 28 then d.(indirect1 := o[t]) else d.(indirect2 := o[t]), view, o, t + 1)
    {
      var d' := if t == 28 then d.(indirect1 := o[t]) else d.(indirect2 := o[t]);
      forall s | 0 <= s < t ensures SlotBlock(d', view, s) == o[s] {
        if s > 28 {
          assert Parent(s) == 28;
          assert SlotBlock(d, view, 28) == SlotBlock(d', view, 28);
        }
      }
    }

    static lemma FilledIsOwned(d: InodeData, view: seq<Block>, o: seq<nat>)
      requires Filled(d, view, o, |o|) && |o| == TotalBlocks(DataBlocks(d.size))
      ensures Owned(d, view) == o
    {
    }

    // -------------------------------------------------------------------------
    // Clearing. `d` is the inode before the call, `o` its blocks in slot order.
    // -------------------------------------------------------------------------

    /** The first `count` entries of the index block in slot `p`, in slot order. */
    static method Entries(id: nat, count: nat, c: BlockCacheManager, ghost d: InodeData, ghost o: seq<nat>,
                          ghost p: nat)
      returns (v: seq<nat>)
      requires Room(c) || (c.Valid() && |c.held| < BLOCK_CACHE_SIZE)
      requires id < |c.view| && id !in c.held
      requires Filled(d, c.view, o, |o|) && |o| <= TotalBlocks(INDIRECT2_BOUND)
      requires IndexSlot(p) && p != 157 && count <= INODE_INDIRECT1_COUNT && p + 1 + count <= |o|
      requires o[p] == id
      modifies c
      ensures c.Valid() && c.view == old(c.view) && c.held == old(c.held)
      ensures v == o[p + 1..p + 1 + count]
    {
      hide BlockCacheManager.Valid;
      v := [];
      c.Lock(id);
      var b := c.Read(id);
      var i := 0;
      while i < count
        invariant i <= count && v == o[p + 1..p + 1 + i]
        modifies {}
      {
        EntrySlot(p, i);
        assert SlotBlock(d, c.view, p) == o[p] && SlotBlock(d, c.view, p + 1 + i) == o[p + 1 + i];
        v := v + [U32At(b, 4 * i)];
        i := i + 1;
      }
      c.Release(id);
      assert c.held == old(c.held);
    }

    static lemma EntrySlot(p: nat, i: nat)
      requires IndexSlot(p) && p != 157 && i < INODE_INDIRECT1_COUNT
      ensures !RootSlot(p + 1 + i) && Parent(p + 1 + i) == p && Pos(p + 1 + i) == i
    {
      if p >= 158 { assert (p + 1 + i - 158) % 129 == 1 + i; }
    }

    /** The `a`-th second-level index block and its first `count` entries. The indirect2
        block, with contents `b2`, is held. */
    method SubEntries(a: nat, count: nat, b2: Block, c: BlockCacheManager, ghost d: InodeData, ghost o: seq<nat>)
      returns (v: seq<nat>)
      requires c.Valid() && |c.held| < BLOCK_CACHE_SIZE
      requires Filled(d, c.view, o, |o|) && |o| <= TotalBlocks(INDIRECT2_BOUND)
      requires count <= INODE_INDIRECT1_COUNT && 158 + 129 * a + 1 + count <= |o|
      requires Usable(o, |c.view|, c.held - {indirect2})
      requires d.indirect2 == indirect2 == o[157] && b2 == c.view[indirect2]
      modifies c
      ensures c.Valid() && c.view == old(c.view) && c.held == old(c.held)
      ensures v == o[158 + 129 * a..158 + 129 * a + 1 + count]
    {
      hide BlockCacheManager.Valid;
      ghost var p := 158 + 129 * a;
      SlotsStep(a, 0);
      PosBound(p);
      assert SlotBlock(d, c.view, p) == o[p];
      var sub := U32At(b2, 4 * a);
      var es := Entries(sub, count, c, d, o, p);
      v := [sub] + es;
    }

    static lemma Adjacent(o: seq<nat>, i: nat, j: nat, k: nat)
      requires i <= j <= k <= |o|
      ensures o[i..j] + o[j..k] == o[i..k]
    {
    }

    /** The blocks below the indirect2 block: full second-level index blocks, then the last. */
    method ClearIndirect2(count: nat, c: BlockCacheManager, ghost d: InodeData, ghost o: seq<nat>)
      returns (v: seq<nat>)
      requires Room(c) && 0 < count <= 128 * 128
      requires Filled(d, c.view, o, |o|) && |o| == SlotsAt(count / 128, count % 128) <= TotalBlocks(INDIRECT2_BOUND)
      requires Usable(o, |c.view|, c.held) && indirect2 == d.indirect2
      modifies c
      ensures Room(c) && c.view == old(c.view) && c.held == old(c.held)
      ensures v == o[158..]
    {
      hide BlockCacheManager.Valid;
      var a1, b1 := count / INODE_INDIRECT1_COUNT, count % INODE_INDIRECT1_COUNT;
      assert o[157] == SlotBlock(d, c.view, 157) == indirect2;
      v := [];
      c.Lock(indirect2);
      var b2 := c.Read(indirect2);
      var a := 0;
      while a < a1
        invariant a <= a1 && v == o[158..158 + 129 * a]
        invariant c.Valid() && c.view == old(c.view) && c.held == old(c.held) + {indirect2}
      {
        var es := SubEntries(a, INODE_INDIRECT1_COUNT, b2, c, d, o);
        Adjacent(o, 158, 158 + 129 * a, 158 + 129 * (a + 1));
        v := v + es;
        a := a + 1;
      }
      if b1 > 0 {
        var es := SubEntries(a1, b1, b2, c, d, o);
        Adjacent(o, 158, 158 + 129 * a1, |o|);
        v := v + es;
      }
      c.Release(indirect2);
      assert c.held == old(c.held);
    }

    method ClearDirect(blocks: nat, ghost o: seq<nat>, ghost view: seq<Block>) returns (v: seq<nat>)
      requires Tidy(Val()) && blocks == DataBlocks(size) && o == Owned(Val(), view)
      modifies this`direct
      ensures v == o[..Min(blocks, INODE_DIRECT_COUNT)]
      ensures direct == seq(INODE_DIRECT_COUNT, _ => 0)
    {
      SlotsTotal(blocks);
      hide TotalBlocks;
      v := [];
      var i := 0;
      while i < Min(blocks, INODE_DIRECT_COUNT)
        invariant i <= Min(blocks, INODE_DIRECT_COUNT) <= |o| && v == o[..i]
        invariant |direct| == INODE_DIRECT_COUNT
        invariant forall j | 0 <= j < INODE_DIRECT_COUNT :: direct[j] == if j < i then 0 else old(direct)[j]
      {
        assert o[i] == old(direct)[i];
        v := v + [direct[i]];
        direct := direct[i := 0];
        i := i + 1;
      }
    }

    /** The part of a file past its direct blocks. */
    method ClearIndirect(blocks0: nat, c: BlockCacheManager, ghost d: InodeData, ghost o: seq<nat>)
      returns (v: seq<nat>)
      requires Room(c) && INODE_DIRECT_COUNT < blocks0 == DataBlocks(d.size) <= INDIRECT2_BOUND && Tidy(d)
      requires indirect1 == d.indirect1 && indirect2 == d.indirect2
      requires o == Owned(d, c.view) && Usable(o, |c.view|, c.held)
      modifies c, this`indirect1, this`indirect2
      ensures Room(c) && c.view == old(c.view) && c.held == old(c.held)
      ensures v == o[INODE_DIRECT_COUNT..] && indirect1 == 0 && indirect2 == 0
    {
      hide BlockCacheManager.Valid;
      hide SlotBlock, IndexBlocks, TotalBlocks;
      OwnedIsFilled(d, c.view);
      RootSlots(d, c.view);
      SlotsTotal(blocks0);
      TotalBlocksMonotone(blocks0, INDIRECT2_BOUND);
      v := [indirect1];
      var blocks := blocks0 - INODE_DIRECT_COUNT;
      var es := Entries(indirect1, Min(blocks, INODE_INDIRECT1_COUNT), c, d, o, 28);
      v := v + es;
      indirect1 := 0;
      if blocks <= INODE_INDIRECT1_COUNT { return; }
      assert v == o[28..157];
      v := v + [indirect2];
      assert v == o[28..158];
      blocks := blocks - INODE_INDIRECT1_COUNT;
      es := ClearIndirect2(blocks, c, d, o);
      Adjacent(o, 28, 158, |o|);
      v := v + es;
      indirect2 := 0;
    }

    /** Empty the file and return its blocks: all of them, once each, in slot order.
        The inode is left as freshly initialised. */
    method ClearSize(c: BlockCacheManager, ghost o: seq<nat>) returns (v: seq<nat>)
      requires Room(c) && Tidy(Val()) && size <= MAX_SIZE
      requires o == Owned(Val(), c.view) && Usable(o, |c.view|, c.held)
      modifies this, c
      ensures Room(c) && c.view == old(c.view) && c.held == old(c.held)
      ensures v == o
      ensures Val() == FreshInode(old(isDir))
    {
      hide BlockCacheManager.Valid;
      hide SlotBlock, IndexBlocks, TotalBlocks;
      SlotsTotal(DataBlocks(size));
      ghost var d := Val();
      var blocks := DataBlocks(size);
      v := ClearDirect(blocks, o, c.view);
      size := 0;
      if blocks > INODE_DIRECT_COUNT {
        var es := ClearIndirect(blocks, c, d, o);
        Adjacent(o, 0, 28, |o|);
        v := v + es;
      }
    }

    static lemma OwnedIsFilled(d: InodeData, view: seq<Block>)
      requires |d.direct| == INODE_DIRECT_COUNT
      ensures Filled(d, view, Owned(d, view), |Owned(d, view)|)
    {
    }

    static lemma RootSlots(d: InodeData, view: seq<Block>)
      requires |d.direct| == INODE_DIRECT_COUNT
      ensures 28 < |Owned(d, view)| ==> Owned(d, view)[28] == d.indirect1
      ensures 157 < |Owned(d, view)| ==> Owned(d, view)[157] == d.indirect2
    {
    }

    // -------------------------------------------------------------------------
    // Reading and writing bytes
    // -------------------------------------------------------------------------

    /** Copy file bytes from `offset` into `buf`, up to the end of either; the rest of the
        buffer is left alone. */
    method ReadAt(offset: nat, buf: array<byte>, c: BlockCacheManager, ghost o: seq<nat>) returns (n: nat)
      requires Room(c) && FileOk(Val(), c.view, o) && Usable(o, |c.view|, c.held)
      modifies c, buf
      ensures Room(c) && c.view == old(c.view) && c.held == old(c.held)
      ensures n == if offset < size then Min(buf.Length, size - offset) else 0
      ensures old(c.device) == old(c.view) ==> c.device == c.view
      ensures n > 0 ==> buf[..n] == Contents(Val(), c.view)[offset..offset + n]
      ensures buf[n..] == old(buf[n..])
    {
      hide BlockCacheManager.Valid;
      hide SlotBlock, TotalBlocks, IndexBlocks, Usable, FileOk, ByteAt, Contents;
      DirectLength(Val(), c.view, o);
      var start := offset;
      var end := Min(offset + buf.Length, size);
      n := 0;
      if start >= end { return; }
      var startBlock := start / BLOCK_SZ;
      while true
        invariant offset <= start < end && n == start - offset && startBlock == start / BLOCK_SZ
        invariant Room(c) && c.view == old(c.view) && c.held == old(c.held)
        invariant forall i | 0 <= i < n :: buf[i] == ByteAt(Val(), c.view, offset + i)
        invariant forall i | n <= i < buf.Length :: buf[i] == old(buf[i])
        invariant old(c.device) == old(c.view) ==> c.device == c.view
        decreases end - start
      {
        var endCurrent := Min((start / BLOCK_SZ + 1) * BLOCK_SZ, end);
        var len := endCurrent - start;
        ReadChunk(start, len, buf, n, c, o);
        n := n + len;
        if endCurrent == end { break; }
        startBlock := startBlock + 1;
        start := endCurrent;
      }
      ContentsSlice(Val(), c.view, o, offset, buf[..n]);
    }

    /** Copy `len` file bytes from `start`, all in one block, to position `at` of the buffer. */
    method ReadChunk(start: nat, len: nat, buf: array<byte>, at: nat, c: BlockCacheManager, ghost o: seq<nat>)
      requires Room(c) && FileOk(Val(), c.view, o) && Usable(o, |c.view|, c.held)
      requires start / BLOCK_SZ < DataBlocks(size) && start % BLOCK_SZ + len <= BLOCK_SZ && at + len <= buf.Length
      modifies c, buf
      ensures Room(c) && c.view == old(c.view) && c.held == old(c.held)
      ensures forall i | at <= i < at + len :: buf[i] == ByteAt(Val(), c.view, start + i - at)
      ensures forall i | 0 <= i < buf.Length && !(at <= i < at + len) :: buf[i] == old(buf[i])
      ensures old(c.device) == old(c.view) ==> c.device == c.view
    {
      hide BlockCacheManager.Valid, SlotBlock, TotalBlocks, IndexBlocks, Usable, FileOk, ByteAt;
      DirectLength(Val(), c.view, o);
      var b := ReadBlock(start / BLOCK_SZ, c, o);
      var lo := start % BLOCK_SZ;
      forall i | at <= i < at + len {
        buf[i] := b[lo + i - at];
      }
      forall i | at <= i < at + len ensures buf[i] == ByteAt(Val(), c.view, start + i - at) {
        var k := start + i - at;
        WithinBlock(start, i - at);
        assert k / BLOCK_SZ == start / BLOCK_SZ;
      }
    }

    static lemma WithinBlock(start: nat, i: nat)
      requires start % BLOCK_SZ + i < BLOCK_SZ
      ensures (start + i) / BLOCK_SZ == start / BLOCK_SZ && (start + i) % BLOCK_SZ == start % BLOCK_SZ + i
    {
    }

    static lemma DirectLength(d: InodeData, view: seq<Block>, o: seq<nat>)
      requires FileOk(d, view, o)
      ensures |d.direct| == INODE_DIRECT_COUNT
    {
    }

    /** Bytes that agree with the file one by one are a slice of its contents. */
    static lemma ContentsSlice(d: InodeData, view: seq<Block>, o: seq<nat>, offset: nat, bytes: seq<byte>)
      requires FileOk(d, view, o) && |d.direct| == INODE_DIRECT_COUNT && offset + |bytes| <= d.size
      requires forall i | 0 <= i < |bytes| :: bytes[i] == ByteAt(d, view, offset + i)
      ensures bytes == Contents(d, view)[offset..offset + |bytes|]
    {
      hide ByteAt, FileOk;
      var want := Contents(d, view)[offset..offset + |bytes|];
      forall i | 0 <= i < |bytes| ensures want[i] == bytes[i] {
        assert want[i] == Contents(d, view)[offset + i];
      }
    }

    /** Contents of the `inner`-th data block. */
    method ReadBlock(inner: nat, c: BlockCacheManager, ghost o: seq<nat>) returns (b: Block)
      requires Room(c) && FileOk(Val(), c.view, o) && Usable(o, |c.view|, c.held)
      requires inner < DataBlocks(size)
      modifies c
      ensures Room(c) && c.view == old(c.view) && c.held == old(c.held)
      ensures forall k | 0 <= k && k / BLOCK_SZ == inner :: b[k % BLOCK_SZ] == ByteAt(Val(), c.view, k)
      ensures old(c.device) == old(c.view) ==> c.device == c.view
    {
      hide BlockCacheManager.Valid;
      OwnedIsFilled(Val(), c.view);
      var id := GetBlockId(inner, c, o);
      assert id == SlotBlock(Val(), c.view, DataSlot(inner));
      b := c.Fetch(id);
    }

    /** Overwriting part of one data block changes those bytes of the file and nothing else. */
    static lemma WriteBlock(d: InodeData, view: seq<Block>, o: seq<nat>, inner: nat, lo: nat, chunk: seq<byte>)
      requires Tidy(d) && d.size <= MAX_SIZE && Owned(d, view) == o && Usable(o, |view|, {})
      requires inner < DataBlocks(d.size) && lo + |chunk| <= BLOCK_SZ
      ensures DataSlot(inner) < |o|
      ensures var id := o[DataSlot(inner)];
              var view' := view[id := Splice(view[id], lo, chunk)];
              && Owned(d, view') == o
              && forall k | 0 <= k < BLOCK_SZ * DataBlocks(d.size) ::
                   ByteAt(d, view', k) ==
                     if BLOCK_SZ * inner + lo <= k < BLOCK_SZ * inner + lo + |chunk|
                     then chunk[k - BLOCK_SZ * inner - lo] else ByteAt(d, view, k)
    {
      DataSlotFacts(inner, DataBlocks(d.size));
      var id := o[DataSlot(inner)];
      var view' := view[id := Splice(view[id], lo, chunk)];
      OwnedIsFilled(d, view);
      forall s | 0 <= s < |o| ensures SlotBlock(d, view', s) == o[s] {
        TreeFrame(d, view, view', o, |o|, s);
      }
      assert Owned(d, view') == o;
      forall k | 0 <= k < BLOCK_SZ * DataBlocks(d.size)
        ensures ByteAt(d, view', k) ==
                if BLOCK_SZ * inner + lo <= k < BLOCK_SZ * inner + lo + |chunk|
                then chunk[k - BLOCK_SZ * inner - lo] else ByteAt(d, view, k)
      {
        var j := k / BLOCK_SZ;
        DataSlotFacts(j, DataBlocks(d.size));
        if DataSlot(j) == DataSlot(inner) { DataSlotInjective(j, inner); }
        assert SlotBlock(d, view', DataSlot(j)) == o[DataSlot(j)] == SlotBlock(d, view, DataSlot(j));
      }
    }

    /** Overwrite file bytes from `offset` with `data`, up to the end of the file. The block of
        `offset` must be allocated: the loop visits it even when there is nothing to write. */
    method WriteAt(offset: nat, data: seq<byte>, c: BlockCacheManager, ghost o: seq<nat>) returns (n: nat)
      requires Room(c) && Tidy(Val()) && size <= MAX_SIZE && Owned(Val(), c.view) == o
      requires Usable(o, |c.view|, c.held) && offset <= size && offset / BLOCK_SZ < DataBlocks(size)
      modifies c
      ensures Room(c) && c.held == old(c.held) && |c.view| == |old(c.view)|
      ensures n == Min(|data|, size - offset)
      ensures Owned(Val(), c.view) == o
      ensures forall k | 0 <= k < BLOCK_SZ * DataBlocks(size) ::
                ByteAt(Val(), c.view, k) ==
                  if offset <= k < offset + n then data[k - offset] else ByteAt(Val(), old(c.view), k)
      ensures forall b | 0 <= b < |c.view| && b !in o :: c.view[b] == old(c.view)[b]
    {
      hide BlockCacheManager.Valid;
      hide SlotBlock, TotalBlocks, IndexBlocks, ByteAt;
      var start := offset;
      var end := Min(offset + |data|, size);
      var startBlock := start / BLOCK_SZ;
      n := 0;
      while true
        invariant offset <= start <= end && n == start - offset && startBlock == start / BLOCK_SZ < DataBlocks(size)
        invariant Room(c) && c.held == old(c.held) && |c.view| == |old(c.view)|
        invariant Owned(Val(), c.view) == o
        invariant forall k | 0 <= k < BLOCK_SZ * DataBlocks(size) ::
                    ByteAt(Val(), c.view, k) ==
                      if offset <= k < start then data[k - offset] else ByteAt(Val(), old(c.view), k)
        invariant forall b | 0 <= b < |c.view| && b !in o :: c.view[b] == old(c.view)[b]
        decreases end - start
      {
        var endCurrent := Min((start / BLOCK_SZ + 1) * BLOCK_SZ, end);
        var len := endCurrent - start;
        WriteChunk(startBlock, start % BLOCK_SZ, data[n..n + len], c, o);
        n := n + len;
        if endCurrent == end { break; }
        startBlock := startBlock + 1;
        start := endCurrent;
      }
    }

    method WriteChunk(inner: nat, lo: nat, chunk: seq<byte>, c: BlockCacheManager, ghost o: seq<nat>)
      requires Room(c) && Tidy(Val()) && size <= MAX_SIZE && Owned(Val(), c.view) == o
      requires Usable(o, |c.view|, c.held) && inner < DataBlocks(size) && lo + |chunk| <= BLOCK_SZ
      modifies c
      ensures Room(c) && c.held == old(c.held) && |c.view| == |old(c.view)|
      ensures Owned(Val(), c.view) == o
      ensures forall k | 0 <= k < BLOCK_SZ * DataBlocks(size) ::
                ByteAt(Val(), c.view, k) ==
                  if BLOCK_SZ * inner + lo <= k < BLOCK_SZ * inner + lo + |chunk|
                  then chunk[k - BLOCK_SZ * inner - lo] else ByteAt(Val(), old(c.view), k)
      ensures forall b | 0 <= b < |c.view| && b !in o :: c.view[b] == old(c.view)[b]
    {
      hide BlockCacheManager.Valid;
      hide SlotBlock, ByteAt;
      OwnedIsFilled(Val(), c.view);
      WriteBlock(Val(), c.view, o, inner, lo, chunk);
      var id := GetBlockId(inner, c, o);
      var b := c.Fetch(id);
      c.Store(id, Splice(b, lo, chunk));
    }
  }
}
