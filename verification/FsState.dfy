/** The invariant of a whole file system and the ways an operation may change the disk
    under it. `pending` lists blocks whose bitmap bit is set although no file owns them:
    allocated but not yet linked in, or unlinked but not yet freed. */
module FsState {
  import opened Bytes
  import opened BlockCache
  import opened Layout
  import opened Bitmaps
  import opened Numbers
  import opened Options
  import opened Efs
  import opened DiskInodes

  datatype Fs = Fs(geo: Geometry, inodes: seq<InodeData>, owned: seq<seq<nat>>)

  ghost predicate Shape(view: seq<Block>, fs: Fs) {
    && GeoOk(fs.geo)
    && |view| == fs.geo.total
    && |fs.inodes| == |fs.owned| <= Maximum(InodeBitmap(fs.geo))
  }

  ghost predicate Disjoint(a: seq<nat>, b: seq<nat>) {
    forall x | x in a :: x !in b
  }

  /** Some file owns block `b`. */
  ghost predicate Taken(owned: seq<seq<nat>>, b: nat) {
    exists k :: 0 <= k < |owned| && b in owned[k]
  }

  ghost predicate InData(g: Geometry, o: seq<nat>) {
    forall s | 0 <= s < |o| :: DataStart(g) <= o[s] < g.total
  }

  ghost predicate InodesStored(view: seq<Block>, fs: Fs)
    requires Shape(view, fs)
  {
    && DecodeSuper(view[0]) == Some(fs.geo)
    && forall k | 0 <= k < |fs.inodes| :: InodeAt(view, fs.geo, k) == fs.inodes[k]
  }

  ghost predicate InodeBits(view: seq<Block>, fs: Fs)
    requires Shape(view, fs)
  {
    GeoFacts(fs.geo);
    forall j: nat | j < Maximum(InodeBitmap(fs.geo)) :: BitSet(view, InodeBitmap(fs.geo), j) <==> j < |fs.inodes|
  }

  ghost predicate FilesOk(view: seq<Block>, fs: Fs)
    requires Shape(view, fs)
  {
    forall k | 0 <= k < |fs.inodes| :: FileOk(fs.inodes[k], view, fs.owned[k]) && InData(fs.geo, fs.owned[k])
  }

  /** No block is owned twice, or owned and pending. */
  ghost predicate Apart(fs: Fs, pending: seq<nat>) {
    && (forall k, j | 0 <= k < j < |fs.owned| :: Disjoint(fs.owned[k], fs.owned[j]))
    && (forall k | 0 <= k < |fs.owned| :: Disjoint(fs.owned[k], pending))
    && Distinct(pending)
    && InData(fs.geo, pending)
  }

  /** The data bitmap marks exactly the owned and pending blocks. */
  ghost predicate DataBits(view: seq<Block>, fs: Fs, pending: seq<nat>)
    requires Shape(view, fs)
  {
    GeoFacts(fs.geo);
    forall j: nat | j < Maximum(DataBitmap(fs.geo)) ::
      BitSet(view, DataBitmap(fs.geo), j)
      <==> Taken(fs.owned, DataStart(fs.geo) + j) || DataStart(fs.geo) + j in pending
  }

  /** Free data blocks are all zero. */
  ghost predicate FreeZero(view: seq<Block>, fs: Fs, pending: seq<nat>)
    requires Shape(view, fs)
  {
    forall b | DataStart(fs.geo) <= b < fs.geo.total && !Taken(fs.owned, b) && b !in pending ::
      view[b] == Zeros(BLOCK_SZ)
  }

  ghost predicate FsInv(view: seq<Block>, fs: Fs, pending: seq<nat>) {
    && Shape(view, fs)
    && InodesStored(view, fs)
    && InodeBits(view, fs)
    && FilesOk(view, fs)
    && Apart(fs, pending)
    && DataBits(view, fs, pending)
    && FreeZero(view, fs, pending)
  }

  /** An inode stands for the same bytes on both disks. */
  ghost predicate SameContents(d: InodeData, view: seq<Block>, view': seq<Block>) {
    |d.direct| == INODE_DIRECT_COUNT && Contents(d, view') == Contents(d, view)
  }

  // ---------------------------------------------------------------------------
  // Frames
  // ---------------------------------------------------------------------------

  lemma FilesFrame(view: seq<Block>, view': seq<Block>, fs: Fs)
    requires Shape(view, fs) && |view'| == |view| && FilesOk(view, fs)
    requires forall b | DataStart(fs.geo) <= b < |view| && Taken(fs.owned, b) :: view'[b] == view[b]
    ensures FilesOk(view', fs)
    ensures forall k | 0 <= k < |fs.inodes| :: SameContents(fs.inodes[k], view, view')
  {
    hide FileOk, Contents;
    forall k | 0 <= k < |fs.inodes|
      ensures FileOk(fs.inodes[k], view', fs.owned[k])
      ensures SameContents(fs.inodes[k], view, view')
    {
      FileOkShape(fs.inodes[k], view, fs.owned[k]);
      assert forall s | 0 <= s < |fs.owned[k]| :: fs.owned[k][s] in fs.owned[k] && Taken(fs.owned, fs.owned[k][s]);
      FileFrame(fs.inodes[k], view, view', fs.owned[k]);
    }
  }

  lemma FileOkShape(d: InodeData, view: seq<Block>, o: seq<nat>)
    requires FileOk(d, view, o)
    ensures |d.direct| == INODE_DIRECT_COUNT && Usable(o, |view|, {})
  {
  }

  /** Inodes and the inode bitmap depend only on the blocks before the data bitmap. */
  lemma MetaFrame(view: seq<Block>, view': seq<Block>, fs: Fs)
    requires Shape(view, fs) && |view'| == |view| && InodesStored(view, fs) && InodeBits(view, fs)
    requires forall b | 0 <= b < DataBitmap(fs.geo).start :: b < |view| && view'[b] == view[b]
    ensures InodesStored(view', fs) && InodeBits(view', fs)
  {
    hide MakeGeometry, BitSet;
    GeoFacts(fs.geo);
    forall k | 0 <= k < |fs.inodes| ensures InodeAt(view', fs.geo, k) == fs.inodes[k] {
      InodePosIn(fs.geo, k);
    }
    forall j: nat | j < Maximum(InodeBitmap(fs.geo))
      ensures BitSet(view', InodeBitmap(fs.geo), j) == BitSet(view, InodeBitmap(fs.geo), j)
    {
      BitmapFrame(InodeBitmap(fs.geo), view, view', j);
    }
  }

  /** The data bitmap depends only on its own blocks. */
  lemma DataBitsFrame(view: seq<Block>, view': seq<Block>, fs: Fs, pending: seq<nat>)
    requires Shape(view, fs) && |view'| == |view| && DataBits(view, fs, pending)
    requires forall b | DataBitmap(fs.geo).start <= b < DataStart(fs.geo) :: b < |view| && view'[b] == view[b]
    ensures DataBits(view', fs, pending)
  {
    hide MakeGeometry, BitSet;
    GeoFacts(fs.geo);
    forall j: nat | j < Maximum(DataBitmap(fs.geo))
      ensures BitSet(view', DataBitmap(fs.geo), j) == BitSet(view, DataBitmap(fs.geo), j)
    {
      BitmapFrame(DataBitmap(fs.geo), view, view', j);
    }
  }

  // ---------------------------------------------------------------------------
  // Allocation and release of one data block
  // ---------------------------------------------------------------------------

  ghost function TotalOwned(owned: seq<seq<nat>>): nat {
    if owned == [] then 0 else TotalOwned(owned[..|owned| - 1]) + |owned[|owned| - 1]|
  }

  ghost function Elems(o: seq<nat>): set<nat> {
    set x | x in o
  }

  lemma {:induction false} ElemsCount(o: seq<nat>)
    ensures |Elems(o)| <= |o|
  {
    if o != [] {
      var n := |o| - 1;
      ElemsCount(o[..n]);
      assert Elems(o) == Elems(o[..n]) + {o[n]};
    }
  }

  ghost function AllOwned(owned: seq<seq<nat>>): set<nat> {
    if owned == [] then {} else AllOwned(owned[..|owned| - 1]) + Elems(owned[|owned| - 1])
  }

  lemma {:induction false} AllOwnedCount(owned: seq<seq<nat>>)
    ensures |AllOwned(owned)| <= TotalOwned(owned)
  {
    if owned != [] {
      AllOwnedCount(owned[..|owned| - 1]);
      ElemsCount(owned[|owned| - 1]);
    }
  }

  lemma {:induction false} TakenIsOwned(owned: seq<seq<nat>>, b: nat)
    requires Taken(owned, b)
    ensures b in AllOwned(owned)
  {
    var n := |owned| - 1;
    var k :| 0 <= k < |owned| && b in owned[k];
    if k < n {
      assert owned[..n][k] == owned[k];
      TakenIsOwned(owned[..n], b);
    }
  }

  ghost function Range(lo: nat, n: nat): (r: set<nat>)
    ensures |r| == n
    ensures forall b :: b in r <==> lo <= b < lo + n
  {
    if n == 0 then {} else Range(lo, n - 1) + {lo + n - 1}
  }

  /** Fewer blocks in use than the data area has: some data block is neither owned nor pending. */
  lemma SomeFree(fs: Fs, pending: seq<nat>) returns (b: nat)
    requires TotalOwned(fs.owned) + |pending| < fs.geo.dataAreaBlocks
    ensures DataStart(fs.geo) <= b < DataStart(fs.geo) + fs.geo.dataAreaBlocks
    ensures !Taken(fs.owned, b) && b !in pending
  {
    var lo, n := DataStart(fs.geo), fs.geo.dataAreaBlocks;
    var all := Range(lo, n);
    var used := AllOwned(fs.owned) + Elems(pending);
    AllOwnedCount(fs.owned);
    ElemsCount(pending);
    assert |all * used| <= |used| by { assert used == all * used + (used - all); }
    assert |all| == |all * used| + |all - used| by { assert all == all * used + (all - used); }
    assert all - used != {};
    b :| b in all - used;
    if Taken(fs.owned, b) { TakenIsOwned(fs.owned, b); }
  }

  /** While a data block is free, the lowest clear bit is the bit of a free data block. */
  lemma LowestIsFree(view: seq<Block>, fs: Fs, pending: seq<nat>, bit: nat)
    requires Shape(view, fs) && DataBits(view, fs, pending)
    requires TotalOwned(fs.owned) + |pending| < fs.geo.dataAreaBlocks
    requires InDisk(DataBitmap(fs.geo), view) && LowestClear(view, DataBitmap(fs.geo), bit)
    ensures bit < fs.geo.dataAreaBlocks
    ensures !Taken(fs.owned, DataStart(fs.geo) + bit) && DataStart(fs.geo) + bit !in pending
  {
    hide MakeGeometry, BitSet;
    GeoFacts(fs.geo);
    var free := SomeFree(fs, pending);
    assert !BitSet(view, DataBitmap(fs.geo), free - DataStart(fs.geo));
  }

  lemma {:induction false} ElemsExact(o: seq<nat>)
    requires Distinct(o)
    ensures |Elems(o)| == |o|
  {
    if o != [] {
      var n := |o| - 1;
      ElemsExact(o[..n]);
      assert Elems(o) == Elems(o[..n]) + {o[n]};
      assert o[n] !in o[..n];
    }
  }

  lemma {:induction false} OwnedIsTaken(owned: seq<seq<nat>>, b: nat) returns (k: nat)
    requires b in AllOwned(owned)
    ensures k < |owned| && b in owned[k] && Taken(owned, b)
  {
    var n := |owned| - 1;
    if b in owned[n] {
      k := n;
    } else {
      k := OwnedIsTaken(owned[..n], b);
    }
  }

  ghost predicate AllApart(owned: seq<seq<nat>>) {
    && (forall k | 0 <= k < |owned| :: Distinct(owned[k]))
    && (forall k, j | 0 <= k < j < |owned| :: Disjoint(owned[k], owned[j]))
  }

  lemma {:induction false} OwnedExact(owned: seq<seq<nat>>)
    requires AllApart(owned)
    ensures |AllOwned(owned)| == TotalOwned(owned)
  {
    hide Distinct, Taken, Elems;
    if owned != [] {
      var n := |owned| - 1;
      var front := owned[..n];
      assert AllApart(front);
      OwnedExact(front);
      ElemsExact(owned[n]);
      OthersApart(owned);
    }
  }

  lemma OthersApart(owned: seq<seq<nat>>)
    requires AllApart(owned) && owned != []
    ensures AllOwned(owned[..|owned| - 1]) * Elems(owned[|owned| - 1]) == {}
  {
    hide Distinct, Taken, AllOwned;
    var n := |owned| - 1;
    forall b | b in AllOwned(owned[..n]) ensures b !in owned[n] {
      var k := OwnedIsTaken(owned[..n], b);
      assert Disjoint(owned[k], owned[n]);
    }
  }

  /** Blocks in use, counted: they are all different and inside the data area. */
  lemma UsedCount(view: seq<Block>, fs: Fs, pending: seq<nat>)
    requires FsInv(view, fs, pending)
    ensures var used := AllOwned(fs.owned) + Elems(pending);
            && |used| == TotalOwned(fs.owned) + |pending|
            && (forall b | b in used :: DataStart(fs.geo) <= b < fs.geo.total)
            && (forall b | b in used :: Taken(fs.owned, b) || b in pending)
  {
    hide MakeGeometry, BitSet, FileOk, InodesStored, InodeBits, DataBits, FreeZero, AllOwned, Taken, DataStart;
    forall k | 0 <= k < |fs.owned| ensures Distinct(fs.owned[k]) { FileOkShape(fs.inodes[k], view, fs.owned[k]); }
    OwnedExact(fs.owned);
    ElemsExact(pending);
    forall b | b in AllOwned(fs.owned)
      ensures b !in pending && DataStart(fs.geo) <= b < fs.geo.total && Taken(fs.owned, b)
    {
      var k := OwnedIsTaken(fs.owned, b);
      assert Disjoint(fs.owned[k], pending) && InData(fs.geo, fs.owned[k]);
    }
    assert AllOwned(fs.owned) * Elems(pending) == {};
  }

  /** The lowest clear bit names a block of the disk exactly while a data block is free; when none
      is and the bitmap has spare bits, it names a block past the end. */
  lemma LowestExact(view: seq<Block>, fs: Fs, pending: seq<nat>, bit: nat)
    requires FsInv(view, fs, pending)
    requires InDisk(DataBitmap(fs.geo), view) && LowestClear(view, DataBitmap(fs.geo), bit)
    ensures DataStart(fs.geo) + bit < fs.geo.total <==> TotalOwned(fs.owned) + |pending| < fs.geo.dataAreaBlocks
  {
    hide MakeGeometry, BitSet, FileOk, InodesStored, InodeBits, FilesOk, FreeZero, Taken;
    GeoFacts(fs.geo);
    var b, n := DataStart(fs.geo) + bit, fs.geo.dataAreaBlocks;
    if TotalOwned(fs.owned) + |pending| < n {
      LowestIsFree(view, fs, pending, bit);
    } else if b < fs.geo.total {
      FreeLeft(view, fs, pending, b);
    }
  }

  /** A clear bit inside the data area means a block to spare. */
  lemma FreeLeft(view: seq<Block>, fs: Fs, pending: seq<nat>, b: nat)
    requires FsInv(view, fs, pending) && DataStart(fs.geo) <= b < fs.geo.total
    requires InDisk(DataBitmap(fs.geo), view) && !BitSet(view, DataBitmap(fs.geo), b - DataStart(fs.geo))
    ensures TotalOwned(fs.owned) + |pending| < fs.geo.dataAreaBlocks
  {
    hide MakeGeometry, BitSet, FileOk, InodesStored, InodeBits, FilesOk, FreeZero, LowestClear;
    GeoFacts(fs.geo);
    UsedCount(view, fs, pending);
    var used := AllOwned(fs.owned) + Elems(pending);
    assert b !in used;
    FitsIn(used, Range(DataStart(fs.geo), fs.geo.dataAreaBlocks) - {b});
  }

  lemma {:induction false} FitsIn(a: set<nat>, b: set<nat>)
    requires a <= b
    ensures |a| <= |b|
  {
    assert b == a + (b - a);
  }

  /** Marking the lowest clear bit adds one zeroed pending block. */
  lemma AllocStep(view: seq<Block>, view': seq<Block>, fs: Fs, pending: seq<nat>, bit: nat)
    requires FsInv(view, fs, pending)
    requires TotalOwned(fs.owned) + |pending| < fs.geo.dataAreaBlocks
    requires InDisk(DataBitmap(fs.geo), view) && LowestClear(view, DataBitmap(fs.geo), bit)
    requires BitChanged(DataBitmap(fs.geo), view, view', bit, true)
    ensures bit < fs.geo.dataAreaBlocks
    ensures FsInv(view', fs, pending + [DataStart(fs.geo) + bit])
    ensures DataStart(fs.geo) + bit < |view'| && view'[DataStart(fs.geo) + bit] == Zeros(BLOCK_SZ)
    ensures forall k | 0 <= k < |fs.inodes| :: SameContents(fs.inodes[k], view, view')
  {
    hide MakeGeometry, BitSet, FileOk, Contents;
    GeoFacts(fs.geo);
    LowestIsFree(view, fs, pending, bit);
    var b := DataStart(fs.geo) + bit;
    MetaFrame(view, view', fs);
    FilesFrame(view, view', fs);
    AllocApart(fs, pending, b);
    AllocBits(view, view', fs, pending, bit);
  }

  lemma AllocApart(fs: Fs, pending: seq<nat>, b: nat)
    requires Apart(fs, pending) && !Taken(fs.owned, b) && b !in pending && DataStart(fs.geo) <= b < fs.geo.total
    ensures Apart(fs, pending + [b])
  {
    forall k | 0 <= k < |fs.owned| ensures Disjoint(fs.owned[k], pending + [b]) {
      assert b !in fs.owned[k];
      assert Disjoint(fs.owned[k], pending);
    }
  }

  lemma AllocBits(view: seq<Block>, view': seq<Block>, fs: Fs, pending: seq<nat>, bit: nat)
    requires Shape(view, fs) && DataBits(view, fs, pending) && FreeZero(view, fs, pending)
    requires InDisk(DataBitmap(fs.geo), view) && BitChanged(DataBitmap(fs.geo), view, view', bit, true)
    ensures Shape(view', fs)
    ensures DataBits(view', fs, pending + [DataStart(fs.geo) + bit])
    ensures FreeZero(view', fs, pending + [DataStart(fs.geo) + bit])
  {
    hide MakeGeometry, BitSet;
    GeoFacts(fs.geo);
    var b := DataStart(fs.geo) + bit;
    assert forall x :: x in pending + [b] <==> x in pending || x == b;
  }

  /** Zeroing the first pending block and clearing its bit makes it free. */
  lemma DeallocStep(view: seq<Block>, view': seq<Block>, fs: Fs, pending: seq<nat>)
    requires pending != [] && FsInv(view, fs, pending)
    requires InDisk(DataBitmap(fs.geo), view)
    requires BitChanged(DataBitmap(fs.geo), view[pending[0] := Zeros(BLOCK_SZ)], view',
                        pending[0] - DataStart(fs.geo), false)
    ensures FsInv(view', fs, pending[1..])
    ensures forall k | 0 <= k < |fs.inodes| :: SameContents(fs.inodes[k], view, view')
  {
    hide MakeGeometry, BitSet, FileOk, Contents;
    GeoFacts(fs.geo);
    var lo := DataStart(fs.geo);
    var b := pending[0];
    var mid := view[b := Zeros(BLOCK_SZ)];
    var pending' := pending[1..];
    assert forall x :: x in pending <==> x == b || x in pending';
    assert b !in pending';
    assert !Taken(fs.owned, b);
    MetaFrame(view, view', fs);
    FilesFrame(view, view', fs);
    DataBitsFrame(view, mid, fs, pending);
    assert DataBits(view', fs, pending');
    assert FreeZero(view', fs, pending');
  }

  // ---------------------------------------------------------------------------
  // Change of one file
  // ---------------------------------------------------------------------------

  lemma ApartPair(fs: Fs, pending: seq<nat>, k: nat, j: nat)
    requires Apart(fs, pending) && k < |fs.owned| && j < |fs.owned| && k != j
    ensures Disjoint(fs.owned[k], fs.owned[j]) && Disjoint(fs.owned[j], fs.owned[k])
  {
    var a, b := if k < j then k else j, if k < j then j else k;
    assert Disjoint(fs.owned[a], fs.owned[b]);
  }

  /** Replace inode `k` by `d` and its blocks by `o`. */
  function WithFile(fs: Fs, k: nat, d: InodeData, o: seq<nat>): Fs
    requires k < |fs.inodes| && k < |fs.owned|
  {
    fs.(inodes := fs.inodes[k := d], owned := fs.owned[k := o])
  }

  ghost predicate SameBlocks(o: seq<nat>, p: seq<nat>, o': seq<nat>, p': seq<nat>) {
    forall b :: b in o || b in p <==> b in o' || b in p'
  }

  lemma TakenWithFile(fs: Fs, pending: seq<nat>, k: nat, d: InodeData, o': seq<nat>, pending': seq<nat>, b: nat)
    requires k < |fs.inodes| && k < |fs.owned|
    requires SameBlocks(fs.owned[k], pending, o', pending')
    ensures Taken(fs.owned, b) || b in pending <==> Taken(WithFile(fs, k, d, o').owned, b) || b in pending'
  {
    var owned' := WithFile(fs, k, d, o').owned;
    assert owned'[k] == o';
    if Taken(fs.owned, b) {
      var j :| 0 <= j < |fs.owned| && b in fs.owned[j];
      assert j != k ==> owned'[j] == fs.owned[j];
    }
    if Taken(owned', b) {
      var j :| 0 <= j < |owned'| && b in owned'[j];
      assert j != k ==> owned'[j] == fs.owned[j];
    }
  }

  /** Changing file `k` using only its own and the pending blocks keeps the invariant: the
      new blocks of the file and the new pending blocks are the old ones, regrouped. */
  lemma ReplaceFile(view: seq<Block>, view': seq<Block>, fs: Fs, pending: seq<nat>,
                    k: nat, d: InodeData, o': seq<nat>, pending': seq<nat>)
    requires FsInv(view, fs, pending) && k < |fs.inodes|
    requires var fs' := WithFile(fs, k, d, o');
             Shape(view', fs') && InodesStored(view', fs') && InodeBits(view', fs')
    requires forall b | DataBitmap(fs.geo).start <= b < |view| && b !in fs.owned[k] && b !in pending ::
               view'[b] == view[b]
    requires FileOk(d, view', o')
    requires SameBlocks(fs.owned[k], pending, o', pending') && Disjoint(o', pending') && Distinct(pending')
    ensures FsInv(view', WithFile(fs, k, d, o'), pending')
    ensures forall j | 0 <= j < |fs.inodes| && j != k :: SameContents(fs.inodes[j], view, view')
  {
    hide MakeGeometry, BitSet, FileOk, Contents, SlotBlock, EncodeInode, DecodeInode;
    GeoFacts(fs.geo);
    assert InData(fs.geo, o') && InData(fs.geo, pending') by {
      assert forall s | 0 <= s < |o'| :: o'[s] in o' && (o'[s] in fs.owned[k] || o'[s] in pending);
      assert forall s | 0 <= s < |pending'| ::
               pending'[s] in pending' && (pending'[s] in fs.owned[k] || pending'[s] in pending);
    }
    ReplaceOthers(view, view', fs, pending, k, d, o');
    ReplaceApart(fs, pending, k, d, o', pending');
    ReplaceFree(view, view', fs, pending, k, d, o', pending');
  }

  lemma ReplaceMeta(view: seq<Block>, mid: seq<Block>, fs: Fs, pending: seq<nat>, k: nat, d: InodeData,
                    view': seq<Block>, fs': Fs)
    requires FsInv(view, fs, pending) && k < |fs.inodes| && |mid| == |view| && Storable(d)
    requires forall b | 0 <= b < |view| && b !in fs.owned[k] && b !in pending :: mid[b] == view[b]
    requires view' == StoreInode(mid, fs.geo, k, d)
    requires k < |fs'.owned| && fs' == WithFile(fs, k, d, fs'.owned[k])
    ensures Shape(view', fs') && InodesStored(view', fs') && InodeBits(view', fs')
  {
    hide MakeGeometry, BitSet, FileOk, SlotBlock, EncodeInode, DecodeInode;
    GeoFacts(fs.geo);
    InodePosIn(fs.geo, k);
    assert forall b | 0 <= b < DataStart(fs.geo) :: mid[b] == view[b];
    MetaFrame(view, mid, fs);
    forall j | 0 <= j < |fs.inodes| ensures InodeAt(view', fs.geo, j) == fs'.inodes[j] {
      StoreInodeAt(mid, fs.geo, k, d, j);
    }
    forall j: nat | j < Maximum(InodeBitmap(fs.geo))
      ensures BitSet(view', InodeBitmap(fs.geo), j) == BitSet(mid, InodeBitmap(fs.geo), j)
    {
      BitmapFrame(InodeBitmap(fs.geo), mid, view', j);
    }
  }

  lemma ReplaceOthers(view: seq<Block>, view': seq<Block>, fs: Fs, pending: seq<nat>, k: nat, d: InodeData,
                      o': seq<nat>)
    requires FsInv(view, fs, pending) && k < |fs.inodes| && |view'| == |view|
    requires FileOk(d, view', o') && InData(fs.geo, o')
    requires forall b | DataStart(fs.geo) <= b < |view| && b !in fs.owned[k] && b !in pending :: view'[b] == view[b]
    ensures FilesOk(view', WithFile(fs, k, d, o'))
    ensures forall j | 0 <= j < |fs.inodes| && j != k ::
              SameContents(fs.inodes[j], view, view')
  {
    hide MakeGeometry, FileOk, Contents, SlotBlock;
    forall j | 0 <= j < |fs.inodes| && j != k
      ensures FileOk(fs.inodes[j], view', fs.owned[j])
      ensures SameContents(fs.inodes[j], view, view')
    {
      FileOkShape(fs.inodes[j], view, fs.owned[j]);
      ApartPair(fs, pending, k, j);
      assert forall s | 0 <= s < |fs.owned[j]| :: fs.owned[j][s] in fs.owned[j];
      FileFrame(fs.inodes[j], view, view', fs.owned[j]);
    }
  }

  lemma ReplaceApart(fs: Fs, pending: seq<nat>, k: nat, d: InodeData, o': seq<nat>, pending': seq<nat>)
    requires Apart(fs, pending) && k < |fs.inodes| && |fs.owned| == |fs.inodes|
    requires SameBlocks(fs.owned[k], pending, o', pending') && Disjoint(o', pending') && Distinct(pending')
    requires InData(fs.geo, pending')
    ensures Apart(WithFile(fs, k, d, o'), pending')
  {
    var fs' := WithFile(fs, k, d, o');
    forall j | 0 <= j < |fs.owned| && j != k ensures Disjoint(fs.owned[j], o') && Disjoint(fs.owned[j], pending') {
      ApartPair(fs, pending, k, j);
      assert Disjoint(fs.owned[j], pending);
    }
  }

  lemma ReplaceFree(view: seq<Block>, view': seq<Block>, fs: Fs, pending: seq<nat>, k: nat, d: InodeData,
                    o': seq<nat>, pending': seq<nat>)
    requires FsInv(view, fs, pending) && k < |fs.inodes| && |view'| == |view|
    requires SameBlocks(fs.owned[k], pending, o', pending')
    requires forall b | DataBitmap(fs.geo).start <= b < |view| && b !in fs.owned[k] && b !in pending ::
               view'[b] == view[b]
    ensures DataBits(view', WithFile(fs, k, d, o'), pending')
    ensures FreeZero(view', WithFile(fs, k, d, o'), pending')
  {
    hide MakeGeometry, BitSet, FileOk, SlotBlock;
    GeoFacts(fs.geo);
    var fs' := WithFile(fs, k, d, o');
    DataBitsFrame(view, view', fs, pending);
    forall b: nat
      ensures Taken(fs.owned, b) || b in pending <==> Taken(fs'.owned, b) || b in pending'
    {
      TakenWithFile(fs, pending, k, d, o', pending', b);
    }
    assert forall b | b in fs.owned[k] :: Taken(fs.owned, b);
  }

  // ---------------------------------------------------------------------------
  // Growth and creation
  // ---------------------------------------------------------------------------

  lemma DataSlotAfter(j: nat, n: nat)
    requires n <= j
    ensures TotalBlocks(n) <= DataSlot(j)
  {
  }

  /** Growing a file by zeroed blocks appends zero bytes to its contents. */
  lemma GrowContents(d: InodeData, view: seq<Block>, d': InodeData, view': seq<Block>, o: seq<nat>, added: seq<nat>)
    requires FileOk(d, view, o) && |view'| == |view|
    requires Tidy(d') && d.size <= d'.size <= MAX_SIZE
    requires Owned(d', view') == o + added && Usable(o + added, |view|, {})
    requires OnlyIndexChanged(view, view', o + added)
    requires forall j | 0 <= j < |added| :: added[j] < |view| && view[added[j]] == Zeros(BLOCK_SZ)
    ensures FileOk(d', view', o + added)
    ensures Contents(d', view') == Contents(d, view) + Zeros(d'.size - d.size)
  {
    var all := o + added;
    forall k | 0 <= k < BLOCK_SZ * DataBlocks(d'.size)
      ensures ByteAt(d', view', k) == if k < d.size then ByteAt(d, view, k) else 0
    {
      GrownByte(d, view, d', view', o, added, k);
    }
  }

  lemma GrownByte(d: InodeData, view: seq<Block>, d': InodeData, view': seq<Block>, o: seq<nat>, added: seq<nat>,
                  k: nat)
    requires FileOk(d, view, o) && |view'| == |view|
    requires Tidy(d') && d.size <= d'.size <= MAX_SIZE
    requires Owned(d', view') == o + added && Usable(o + added, |view|, {})
    requires OnlyIndexChanged(view, view', o + added)
    requires forall j | 0 <= j < |added| :: added[j] < |view| && view[added[j]] == Zeros(BLOCK_SZ)
    requires k < BLOCK_SZ * DataBlocks(d'.size)
    ensures ByteAt(d', view', k) == if k < d.size then ByteAt(d, view, k) else 0
  {
    hide TotalBlocks, IndexBlocks, SlotBlock;
    var all := o + added;
    var j := k / BLOCK_SZ;
    var s := DataSlot(j);
    DataSlotFacts(j, DataBlocks(d'.size));
    NotIndexBlock(all, s);
    assert Owned(d', view')[s] == SlotBlock(d', view', s) == all[s];
    if j < DataBlocks(d.size) {
      DataSlotFacts(j, DataBlocks(d.size));
      assert Owned(d, view)[s] == SlotBlock(d, view, s) == o[s] == all[s];
      assert view'[all[s]] == view[all[s]];
      assert ByteAt(d', view', k) == ByteAt(d, view, k);
    } else {
      DataSlotAfter(j, DataBlocks(d.size));
      assert all[s] == added[s - |o|];
    }
  }

  lemma NotIndexBlock(o: seq<nat>, s: nat)
    requires Distinct(o) && s < |o| && !IndexSlot(s)
    ensures o[s] !in IndexBlocks(o)
  {
  }

  /** Inodes are never released, so the lowest free inode is the next one. */
  lemma NextInode(view: seq<Block>, fs: Fs, id: nat)
    requires Shape(view, fs) && InodeBits(view, fs)
    requires InDisk(InodeBitmap(fs.geo), view) && LowestClear(view, InodeBitmap(fs.geo), id)
    ensures id == |fs.inodes|
  {
    hide MakeGeometry, BitSet;
    var n := |fs.inodes|;
    assert !BitSet(view, InodeBitmap(fs.geo), id);
    assert n < Maximum(InodeBitmap(fs.geo)) ==> !BitSet(view, InodeBitmap(fs.geo), n);
  }

  /** The disk after a new empty file took the lowest free inode. */
  lemma AddInode(view: seq<Block>, mid: seq<Block>, fs: Fs, id: nat, isDir: bool)
    requires FsInv(view, fs, []) && InDisk(InodeBitmap(fs.geo), view)
    requires LowestClear(view, InodeBitmap(fs.geo), id) && BitChanged(InodeBitmap(fs.geo), view, mid, id, true)
    ensures id == |fs.inodes|
    ensures FsInv(StoreInode(mid, fs.geo, id, FreshInode(isDir)), WithNew(fs, isDir), [])
    ensures forall k | 0 <= k < |fs.inodes| ::
              SameContents(fs.inodes[k], view, StoreInode(mid, fs.geo, id, FreshInode(isDir)))
  {
    hide MakeGeometry, BitSet, FileOk, Contents, SlotBlock, EncodeInode, DecodeInode, DecodeSuper;
    GeoFacts(fs.geo);
    InodePosIn(fs.geo, id);
    NextInode(view, fs, id);
    var view' := StoreInode(mid, fs.geo, id, FreshInode(isDir));
    AddInodeMeta(view, mid, fs, id, isDir);
    assert forall b | DataBitmap(fs.geo).start <= b < |view| :: view'[b] == view[b];
    AddInodeFiles(view, view', fs, isDir);
  }

  lemma AddInodeFiles(view: seq<Block>, view': seq<Block>, fs: Fs, isDir: bool)
    requires FsInv(view, fs, []) && Shape(view', WithNew(fs, isDir))
    requires forall b | DataBitmap(fs.geo).start <= b < |view| :: view'[b] == view[b]
    ensures FilesOk(view', WithNew(fs, isDir)) && Apart(WithNew(fs, isDir), [])
    ensures DataBits(view', WithNew(fs, isDir), []) && FreeZero(view', WithNew(fs, isDir), [])
    ensures forall k | 0 <= k < |fs.inodes| :: SameContents(fs.inodes[k], view, view')
  {
    hide MakeGeometry, BitSet, FileOk, Contents, SlotBlock;
    GeoFacts(fs.geo);
    var fs' := WithNew(fs, isDir);
    FilesFrame(view, view', fs);
    FreshFile(isDir, view');
    forall b: nat ensures Taken(fs'.owned, b) <==> Taken(fs.owned, b) {
      TakenWithNew(fs, isDir, b);
    }
    DataBitsFrame(view, view', fs, []);
  }

  lemma TakenWithNew(fs: Fs, isDir: bool, b: nat)
    ensures Taken(WithNew(fs, isDir).owned, b) <==> Taken(fs.owned, b)
  {
    var owned' := WithNew(fs, isDir).owned;
    if Taken(fs.owned, b) {
      var k :| 0 <= k < |fs.owned| && b in fs.owned[k];
      assert b in owned'[k];
    }
  }

  function WithNew(fs: Fs, isDir: bool): Fs {
    fs.(inodes := fs.inodes + [FreshInode(isDir)], owned := fs.owned + [[]])
  }

  lemma FreshFile(isDir: bool, view: seq<Block>)
    requires |view| <= U32_LIMIT
    ensures FileOk(FreshInode(isDir), view, []) && Storable(FreshInode(isDir))
    ensures Contents(FreshInode(isDir), view) == []
  {
  }

  lemma AddInodeMeta(view: seq<Block>, mid: seq<Block>, fs: Fs, id: nat, isDir: bool)
    requires FsInv(view, fs, []) && InDisk(InodeBitmap(fs.geo), view)
    requires id == |fs.inodes| < Maximum(InodeBitmap(fs.geo))
    requires BitChanged(InodeBitmap(fs.geo), view, mid, id, true)
    ensures var view' := StoreInode(mid, fs.geo, id, FreshInode(isDir));
            Shape(view', WithNew(fs, isDir)) && InodesStored(view', WithNew(fs, isDir))
            && InodeBits(view', WithNew(fs, isDir))
  {
    hide MakeGeometry, BitSet, FileOk, SlotBlock, EncodeInode, DecodeInode;
    GeoFacts(fs.geo);
    InodePosIn(fs.geo, id);
    FreshFile(isDir, mid);
    var view' := StoreInode(mid, fs.geo, id, FreshInode(isDir));
    forall j | 0 <= j < |fs.inodes| + 1 ensures InodeAt(view', fs.geo, j) == WithNew(fs, isDir).inodes[j] {
      StoreInodeAt(mid, fs.geo, id, FreshInode(isDir), j);
      if j < id {
        InodePosIn(fs.geo, j);
        assert InodeAt(mid, fs.geo, j) == InodeAt(view, fs.geo, j);
      }
    }
    forall j: nat | j < Maximum(InodeBitmap(fs.geo))
      ensures BitSet(view', InodeBitmap(fs.geo), j) == BitSet(mid, InodeBitmap(fs.geo), j)
    {
      BitmapFrame(InodeBitmap(fs.geo), mid, view', j);
    }
  }

  // ---------------------------------------------------------------------------
  // Whole steps of one file, inode included
  // ---------------------------------------------------------------------------

  /** A tidy inode whose blocks are on the disk fits its 128 bytes. */
  lemma TidyStorable(d: InodeData, view: seq<Block>, o: seq<nat>)
    requires FileOk(d, view, o)
    ensures Storable(d)
  {
    assert MAX_SIZE < U32_LIMIT;
    forall i | 0 <= i < INODE_DIRECT_COUNT ensures d.direct[i] < U32_LIMIT {
      if i < DataBlocks(d.size) { assert Owned(d, view)[i] == SlotBlock(d, view, i) == o[i]; }
    }
    if DataBlocks(d.size) > 28 { assert Owned(d, view)[28] == SlotBlock(d, view, 28) == o[28]; }
    if DataBlocks(d.size) > 156 { assert Owned(d, view)[157] == SlotBlock(d, view, 157) == o[157]; }
  }

  /** Storing an inode does not disturb files, whose blocks lie in the data area. */
  lemma StoreFrame(mid: seq<Block>, g: Geometry, k: nat, d: InodeData, e: InodeData, o: seq<nat>)
    requires GeoOk(g) && |mid| == g.total && k < Maximum(InodeBitmap(g)) && |d.direct| == INODE_DIRECT_COUNT
    requires FileOk(e, mid, o) && InData(g, o)
    ensures FileOk(e, StoreInode(mid, g, k, d), o) && SameContents(e, mid, StoreInode(mid, g, k, d))
  {
    hide MakeGeometry, FileOk, Contents, EncodeInode;
    GeoFacts(g);
    InodePosIn(g, k);
    FileOkShape(e, mid, o);
    FileFrame(e, mid, StoreInode(mid, g, k, d), o);
  }

  /** A new version of file `k` on disk `mid`, stored, keeps the invariant. */
  lemma StoreFile(view: seq<Block>, mid: seq<Block>, fs: Fs, pending: seq<nat>,
                  k: nat, d: InodeData, o': seq<nat>, pending': seq<nat>)
    requires FsInv(view, fs, pending) && k < |fs.inodes| && |mid| == |view|
    requires forall b | 0 <= b < |view| && b !in fs.owned[k] && b !in pending :: mid[b] == view[b]
    requires FileOk(d, mid, o')
    requires SameBlocks(fs.owned[k], pending, o', pending') && Disjoint(o', pending') && Distinct(pending')
    ensures |d.direct| == INODE_DIRECT_COUNT
    ensures var view' := StoreInode(mid, fs.geo, k, d);
            && FsInv(view', WithFile(fs, k, d, o'), pending')
            && SameContents(d, mid, view')
            && forall j | 0 <= j < |fs.inodes| && j != k :: SameContents(fs.inodes[j], view, view')
  {
    hide MakeGeometry, BitSet, FileOk, Contents, SlotBlock, EncodeInode, DecodeInode;
    TidyStorable(d, mid, o');
    FileOkShape(fs.inodes[k], view, fs.owned[k]);
    GeoFacts(fs.geo);
    InodePosIn(fs.geo, k);
    assert InData(fs.geo, o') by {
      assert forall s | 0 <= s < |o'| :: o'[s] in o' && (o'[s] in fs.owned[k] || o'[s] in pending);
    }
    var view' := StoreInode(mid, fs.geo, k, d);
    ReplaceMeta(view, mid, fs, pending, k, d, view', WithFile(fs, k, d, o'));
    StoreFrame(mid, fs.geo, k, d, d, o');
    ReplaceFile(view, view', fs, pending, k, d, o', pending');
  }

  /** Blocks the file may grow into: its own followed by the pending ones. */
  lemma GrowUsable(view: seq<Block>, fs: Fs, pending: seq<nat>, k: nat, held: set<nat>)
    requires FsInv(view, fs, pending) && k < |fs.inodes|
    requires forall b | b in held :: b < DataStart(fs.geo)
    ensures Usable(fs.owned[k] + pending, |view|, held)
    ensures Usable(fs.owned[k], |view|, held)
    ensures Tidy(fs.inodes[k]) && Owned(fs.inodes[k], view) == fs.owned[k] && fs.inodes[k].size <= MAX_SIZE
  {
    hide MakeGeometry, BitSet;
    GeoFacts(fs.geo);
    var o := fs.owned[k];
    assert FileOk(fs.inodes[k], view, o) && InData(fs.geo, o);
    assert Disjoint(o, pending);
    assert forall s | 0 <= s < |o| :: o[s] in o;
    assert forall s | 0 <= s < |pending| :: pending[s] in pending;
  }

  /** Growth of file `k` by all pending blocks. */
  lemma GrowStep(view: seq<Block>, mid: seq<Block>, fs: Fs, pending: seq<nat>, k: nat, d: InodeData)
    requires FsInv(view, fs, pending) && k < |fs.inodes|
    requires forall j | 0 <= j < |pending| :: pending[j] < |view| && view[pending[j]] == Zeros(BLOCK_SZ)
    requires OnlyIndexChanged(view, mid, fs.owned[k] + pending)
    requires Tidy(d) && fs.inodes[k].size <= d.size <= MAX_SIZE && Owned(d, mid) == fs.owned[k] + pending
    ensures |fs.inodes[k].direct| == INODE_DIRECT_COUNT
    ensures var view' := StoreInode(mid, fs.geo, k, d);
            && FsInv(view', WithFile(fs, k, d, fs.owned[k] + pending), [])
            && Contents(d, view') == Contents(fs.inodes[k], view) + Zeros(d.size - fs.inodes[k].size)
            && forall j | 0 <= j < |fs.inodes| && j != k :: SameContents(fs.inodes[j], view, view')
  {
    hide MakeGeometry, BitSet, Contents, SlotBlock, EncodeInode, DecodeInode, FileOk;
    var o := fs.owned[k];
    GrowUsable(view, fs, pending, k, {});
    GrowContents(fs.inodes[k], view, d, mid, o, pending);
    assert forall b | b in IndexBlocks(o + pending) :: b in o || b in pending;
    assert forall b :: b in o + pending <==> b in o || b in pending;
    StoreFile(view, mid, fs, pending, k, d, o + pending, []);
  }

  /** Clearing file `k` leaves all its blocks pending. */
  lemma ClearStep(view: seq<Block>, fs: Fs, k: nat)
    requires FsInv(view, fs, []) && k < |fs.inodes|
    ensures var d := FreshInode(fs.inodes[k].isDir);
            var view' := StoreInode(view, fs.geo, k, d);
            && FsInv(view', WithFile(fs, k, d, []), fs.owned[k])
            && Contents(d, view') == []
            && forall j | 0 <= j < |fs.inodes| && j != k :: SameContents(fs.inodes[j], view, view')
  {
    hide MakeGeometry, BitSet, Contents, SlotBlock, EncodeInode, DecodeInode, FileOk;
    GeoFacts(fs.geo);
    GrowUsable(view, fs, [], k, {});
    FreshFile(fs.inodes[k].isDir, view);
    StoreFile(view, view, fs, [], k, FreshInode(fs.inodes[k].isDir), [], fs.owned[k]);
  }

  /** Overwriting bytes of file `k` inside its data blocks. */
  lemma WriteStep(view: seq<Block>, view': seq<Block>, fs: Fs, k: nat, offset: nat, data: seq<byte>)
    requires FsInv(view, fs, []) && k < |fs.inodes| && |view'| == |view|
    requires |fs.inodes[k].direct| == INODE_DIRECT_COUNT && offset + |data| <= fs.inodes[k].size
    requires Owned(fs.inodes[k], view') == fs.owned[k]
    requires forall b | 0 <= b < |view| && b !in fs.owned[k] :: view'[b] == view[b]
    requires forall i | 0 <= i < BLOCK_SZ * DataBlocks(fs.inodes[k].size) ::
               ByteAt(fs.inodes[k], view', i) ==
                 if offset <= i < offset + |data| then data[i - offset] else ByteAt(fs.inodes[k], view, i)
    ensures FsInv(view', fs, [])
    ensures Contents(fs.inodes[k], view') == Splice(Contents(fs.inodes[k], view), offset, data)
    ensures forall j | 0 <= j < |fs.inodes| && j != k :: SameContents(fs.inodes[j], view, view')
  {
    hide MakeGeometry, BitSet, SlotBlock;
    var d, o := fs.inodes[k], fs.owned[k];
    assert FileOk(d, view', o) && Contents(d, view') == Splice(Contents(d, view), offset, data) by {
      WrittenFile(d, view, view', o, offset, data);
    }
    hide FileOk, Contents, ByteAt;
    GeoFacts(fs.geo);
    assert InData(fs.geo, o);
    assert forall b | 0 <= b < DataStart(fs.geo) :: view'[b] == view[b];
    MetaFrame(view, view', fs);
    assert WithFile(fs, k, d, o) == fs by { assert fs.inodes[k := d] == fs.inodes && fs.owned[k := o] == fs.owned; }
    ReplaceFile(view, view', fs, [], k, d, o, []);
  }

  lemma WrittenFile(d: InodeData, view: seq<Block>, view': seq<Block>, o: seq<nat>, offset: nat, data: seq<byte>)
    requires FileOk(d, view, o) && |view'| == |view| && Owned(d, view') == o && offset + |data| <= d.size
    requires forall i | 0 <= i < BLOCK_SZ * DataBlocks(d.size) ::
               ByteAt(d, view', i) == if offset <= i < offset + |data| then data[i - offset] else ByteAt(d, view, i)
    ensures FileOk(d, view', o)
    ensures Contents(d, view') == Splice(Contents(d, view), offset, data)
  {
  }

  /** A zeroed disk with a super block is a file system without files. */
  lemma EmptyDisk(view: seq<Block>, g: Geometry)
    requires GeoOk(g) && |view| == g.total
    requires view[0] == Splice(Zeros(BLOCK_SZ), 0, EncodeSuper(g))
    requires forall b | 0 < b < |view| :: view[b] == Zeros(BLOCK_SZ)
    ensures FsInv(view, Fs(g, [], []), [])
  {
    hide MakeGeometry, BitSet, EncodeSuper, DecodeSuper;
    GeoFacts(g);
    SuperRoundTrip(g, Zeros(BLOCK_SZ));
    forall j: nat | j < Maximum(InodeBitmap(g)) ensures !BitSet(view, InodeBitmap(g), j) {
      ZeroBitmap(InodeBitmap(g), view, j);
    }
    forall j: nat | j < Maximum(DataBitmap(g)) ensures !BitSet(view, DataBitmap(g), j) {
      ZeroBitmap(DataBitmap(g), view, j);
    }
  }
}
