/** The file system object and the operations on inodes (easy-fs/src/efs.rs,
    easy-fs/src/vfs.rs). The lock on the file system makes every operation atomic. An
    `Inode` handle is its inode number: positions on disk are recovered from it. */
module Vfs {
  import opened Bytes
  import opened BlockCache
  import opened Layout
  import opened Bitmaps
  import opened Numbers
  import opened Options
  import opened Efs
  import opened DiskInodes
  import opened FsState
  import opened FsSpec

  /** The disk stands for the abstract file system: the root directory lists the names,
      entry `i` naming inode `i + 1`, and each file has its bytes. */
  ghost predicate Refines(view: seq<Block>, fs: Fs, a: AbsFs) {
    && AbsOk(a)
    && |fs.inodes| == |a.names| + 1
    && (forall k | 0 <= k < |fs.inodes| ::
          fs.inodes[k].isDir == (k == 0) && |fs.inodes[k].direct| == INODE_DIRECT_COUNT)
    && Contents(fs.inodes[0], view) == EncodeDir(a.names)
    && forall i | 0 <= i < |a.data| :: Contents(fs.inodes[i + 1], view) == a.data[i]
  }

  class EasyFileSystem {
    const c: BlockCacheManager
    var inodeBitmap: Bitmap
    var dataBitmap: Bitmap
    var inodeAreaStart: nat
    var dataAreaStart: nat
    ghost var fs: Fs
    ghost var abs: AbsFs

    ghost predicate Fields()
      reads this
    {
      && inodeBitmap == InodeBitmap(fs.geo) && inodeAreaStart == InodeStart(fs.geo)
      && dataBitmap == DataBitmap(fs.geo) && dataAreaStart == DataStart(fs.geo)
    }

    /** In the middle of an operation: handles are out only in the inode area. */
    ghost predicate Running(pending: seq<nat>)
      reads this, c
    {
      && c.Valid() && Fields() && FsInv(c.view, fs, pending)
      && |c.held| <= 1
      && (forall b | b in c.held :: InodeStart(fs.geo) <= b < DataBitmap(fs.geo).start)
    }

    /** Between operations: no handle is out, and the device holds everything. */
    ghost predicate Valid()
      reads this, c
    {
      Running([]) && c.held == {} && c.device == c.view && Refines(c.view, fs, abs)
    }

    /** Mount a disk that some earlier run left behind. Everything `open` needs is read
        back from the super block. */
    constructor Open(cache: BlockCacheManager, ghost fs0: Fs, ghost abs0: AbsFs)
      requires cache.Valid() && cache.held == {} && cache.device == cache.view
      requires FsInv(cache.view, fs0, []) && Refines(cache.view, fs0, abs0)
      modifies cache
      ensures Valid() && abs == abs0 && fs == fs0 && c == cache && c.view == old(cache.view)
    {
      hide BlockCacheManager.Valid, MakeGeometry, Contents;
      GeoFacts(fs0.geo);
      c := cache;
      var b := cache.Fetch(0);
      var ws := DecodeWords(b, 6);
      inodeBitmap := Bitmap(1, ws[2]);
      var inodeTotal := ws[2] + ws[3];
      dataBitmap := Bitmap(1 + inodeTotal, ws[4]);
      inodeAreaStart := 1 + ws[2];
      dataAreaStart := 1 + inodeTotal + ws[4];
      fs, abs := fs0, abs0;
    }

    // -------------------------------------------------------------------------
    // Blocks
    // -------------------------------------------------------------------------

    /** Take the lowest free data block. Its bit is set and it is zero. */
    method AllocData(ghost pending: seq<nat>) returns (b: nat)
      requires Running(pending) && TotalOwned(fs.owned) + |pending| < fs.geo.dataAreaBlocks
      modifies c
      ensures Running(pending + [b]) && c.held == old(c.held)
      ensures b < |c.view| && c.view[b] == Zeros(BLOCK_SZ)
      ensures |c.view| == |old(c.view)| && forall x | DataStart(fs.geo) <= x < |c.view| :: c.view[x] == old(c.view)[x]
      ensures forall k | 0 <= k < |fs.inodes| :: SameContents(fs.inodes[k], old(c.view), c.view)
    {
      hide BlockCacheManager.Valid, MakeGeometry, BitSet, FileOk, Contents;
      GeoFacts(fs.geo);
      var r := Alloc(dataBitmap, c);
      SomeClear(old(c.view), pending);
      AllocStep(old(c.view), c.view, fs, pending, r.value);
      b := r.value + dataAreaStart;
    }

    lemma SomeClear(view: seq<Block>, pending: seq<nat>)
      requires FsInv(view, fs, pending) && TotalOwned(fs.owned) + |pending| < fs.geo.dataAreaBlocks
      ensures InDisk(DataBitmap(fs.geo), view)
      ensures !forall j: nat | j < Maximum(DataBitmap(fs.geo)) :: BitSet(view, DataBitmap(fs.geo), j)
    {
      hide MakeGeometry, BitSet;
      GeoFacts(fs.geo);
      var free := SomeFree(fs, pending);
      assert !BitSet(view, DataBitmap(fs.geo), free - DataStart(fs.geo));
    }

    /** Zero a block and clear its bit. The assertion that the bit is set cannot fail. */
    method DeallocData(b: nat, ghost pending: seq<nat>)
      requires Running(pending) && pending != [] && b == pending[0]
      modifies c
      ensures Running(pending[1..]) && c.held == old(c.held)
      ensures forall k | 0 <= k < |fs.inodes| :: SameContents(fs.inodes[k], old(c.view), c.view)
    {
      hide BlockCacheManager.Valid, MakeGeometry, BitSet, FileOk, Contents;
      GeoFacts(fs.geo);
      c.Store(b, Zeros(BLOCK_SZ));
      DataBitsFrame(old(c.view), c.view, fs, pending);
      assert b in pending && BitSet(c.view, dataBitmap, b - dataAreaStart);
      Dealloc(dataBitmap, c, b - dataAreaStart);
      DeallocStep(old(c.view), c.view, fs, pending);
    }

    // -------------------------------------------------------------------------
    // Inodes. `d` is the inode inside its held block.
    // -------------------------------------------------------------------------

    /** (block, offset) of an inode. */
    function Pos(id: nat): (nat, nat)
      reads this
    {
      (inodeAreaStart + id / INODES_PER_BLOCK, id % INODES_PER_BLOCK * INODE_SZ)
    }

    /** Inside `modify_disk_inode` of inode `id`. */
    ghost predicate Inside(id: nat, d: DiskInode)
      reads this, c, d
    {
      && Running([]) && id < |fs.inodes|
      && c.held == {InodePos(fs.geo, id).0}
      && d.Val() == fs.inodes[id]
      && |d.direct| == INODE_DIRECT_COUNT
    }

    method OpenInode(id: nat) returns (d: DiskInode)
      requires Running([]) && c.held == {} && id < |fs.inodes|
      modifies c
      ensures fresh(d) && Inside(id, d) && c.view == old(c.view)
      ensures old(c.device) == old(c.view) ==> c.device == c.view
    {
      hide BlockCacheManager.Valid, MakeGeometry, FilesOk, DataBits, InodeBits, FreeZero;
      GeoFacts(fs.geo);
      InodePosIn(fs.geo, id);
      var (blk, off) := Pos(id);
      c.Lock(blk);
      var b := c.Read(blk);
      d := new DiskInode(DecodeInode(b[off..off + INODE_SZ]));
      assert InodeAt(c.view, fs.geo, id) == fs.inodes[id];
    }

    method CloseInode(id: nat, d: DiskInode)
      requires Inside(id, d)
      modifies c
      ensures Running([]) && c.held == {} && c.view == old(c.view) && c.device == old(c.device)
    {
      hide BlockCacheManager.Valid, FsInv;
      c.Release(Pos(id).0);
    }

    /** Write the inode back into its held block. */
    method PutInode(id: nat, d: DiskInode)
      requires c.Valid() && Fields() && GeoOk(fs.geo) && |c.view| == fs.geo.total
      requires id < Maximum(InodeBitmap(fs.geo)) && InodePos(fs.geo, id).0 in c.held && |d.direct| == INODE_DIRECT_COUNT
      modifies c
      ensures c.Valid() && c.held == old(c.held)
      ensures c.view == StoreInode(old(c.view), fs.geo, id, d.Val())
    {
      hide BlockCacheManager.Valid, MakeGeometry;
      GeoFacts(fs.geo);
      InodePosIn(fs.geo, id);
      var (blk, off) := Pos(id);
      var b := c.Read(blk);
      c.Modify(blk, Splice(b, off, EncodeInode(d.Val())));
    }

    /** Every inode but `id` is as it was. */
    twostate predicate OthersSame(id: nat)
      reads this, c
    {
      && fs.geo == old(fs).geo && |fs.inodes| == |old(fs).inodes|
      && forall j | 0 <= j < |fs.inodes| && j != id ::
           fs.inodes[j] == old(fs).inodes[j] && SameContents(fs.inodes[j], old(c.view), c.view)
    }

    method AllocBlocks(n: nat) returns (v: seq<nat>)
      requires Running([]) && (n > 0 ==> TotalOwned(fs.owned) + n <= fs.geo.dataAreaBlocks)
      modifies c
      ensures Running(v) && c.held == old(c.held) && |v| == n
      ensures forall j | 0 <= j < |v| :: v[j] < |c.view| && c.view[v[j]] == Zeros(BLOCK_SZ)
      ensures forall k | 0 <= k < |fs.inodes| :: SameContents(fs.inodes[k], old(c.view), c.view)
    {
      hide BlockCacheManager.Valid, Contents, FsInv, Zeros, InodeBitmap, DataBitmap, InodeStart, TotalOwned;
      v := [];
      SelfSame([]);
      for i := 0 to n
        invariant Running(v) && c.held == old(c.held) && |v| == i
        invariant forall j | 0 <= j < |v| :: v[j] < |c.view| && c.view[v[j]] == Zeros(BLOCK_SZ)
        invariant forall k | 0 <= k < |fs.inodes| :: SameContents(fs.inodes[k], old(c.view), c.view)
      {
        InDataOf(c.view, v);
        var b := AllocData(v);
        v := v + [b];
      }
    }

    lemma InDataOf(view: seq<Block>, pending: seq<nat>)
      requires FsInv(view, fs, pending)
      ensures InData(fs.geo, pending) && |view| == fs.geo.total
    {
    }

    /** Grow a file to `newSize` with zero bytes; a smaller size changes nothing. */
    method IncreaseSize(id: nat, newSize: nat, d: DiskInode)
      requires Inside(id, d) && newSize <= MAX_SIZE
      requires d.size < newSize ==>
                 TotalOwned(fs.owned) + BlocksFor(newSize) - BlocksFor(d.size) <= fs.geo.dataAreaBlocks
      modifies c, d, this`fs
      ensures Inside(id, d) && OthersSame(id) && d.isDir == old(d.isDir)
      ensures Contents(d.Val(), c.view) == PadTo(old(Contents(d.Val(), c.view)), newSize)
    {
      hide BlockCacheManager.Valid, MakeGeometry, TotalBlocks, BitSet, EncodeInode, DecodeInode, StoreInode, SlotBlock;
      hide FileOk, Contents, Owned, Usable, InodesStored, InodeBits, DataBits, FreeZero, FilesOk;
      if newSize < d.size {
        SelfSame([]);
        return;
      }
      TotalBlocksMonotone(DataBlocks(d.size), DataBlocks(newSize));
      var needed := BlocksFor(newSize) - BlocksFor(d.size);
      var v := AllocBlocks(needed);
      ghost var mid := c.view;
      GrowUsable(mid, fs, v, id, c.held);
      d.IncreaseSize(newSize, v, c, fs.owned[id] + v);
      GrowStep(mid, c.view, fs, v, id, d.Val());
      PutInode(id, d);
      fs := WithFile(fs, id, d.Val(), fs.owned[id] + v);
    }

    lemma SelfSame(pending: seq<nat>)
      requires Running(pending)
      ensures forall j | 0 <= j < |fs.inodes| :: SameContents(fs.inodes[j], c.view, c.view)
    {
      forall j | 0 <= j < |fs.inodes| ensures SameContents(fs.inodes[j], c.view, c.view) {
        FileOkShape(fs.inodes[j], c.view, fs.owned[j]);
      }
    }

    method WriteInside(id: nat, offset: nat, buf: seq<byte>, d: DiskInode) returns (n: nat)
      requires Inside(id, d) && offset + |buf| <= d.size && offset / BLOCK_SZ < DataBlocks(d.size)
      modifies c
      ensures Inside(id, d) && OthersSame(id) && n == |buf|
      ensures Contents(d.Val(), c.view) == Splice(old(Contents(d.Val(), c.view)), offset, buf)
    {
      hide BlockCacheManager.Valid, MakeGeometry, TotalBlocks, BitSet, EncodeInode, DecodeInode, StoreInode, SlotBlock;
      hide FileOk, Contents, Owned, Usable, InodesStored, InodeBits, DataBits, FreeZero, FilesOk, ByteAt;
      GrowUsable(c.view, fs, [], id, c.held);
      n := d.WriteAt(offset, buf, c, fs.owned[id]);
      WriteStep(old(c.view), c.view, fs, id, offset, buf);
    }

    /** Grow the file if needed, then write. */
    method GrowAndWrite(id: nat, offset: nat, buf: seq<byte>, d: DiskInode) returns (n: nat)
      requires Inside(id, d) && offset + |buf| <= MAX_SIZE
      requires d.size < offset + |buf| ==>
                 TotalOwned(fs.owned) + BlocksFor(offset + |buf|) - BlocksFor(d.size) <= fs.geo.dataAreaBlocks
      requires buf == [] ==> offset / BLOCK_SZ < DataBlocks(if d.size < offset then offset else d.size)
      modifies c, d, this`fs
      ensures Inside(id, d) && OthersSame(id) && d.isDir == old(d.isDir) && n == |buf|
      ensures Contents(d.Val(), c.view) == WriteSpec(old(Contents(d.Val(), c.view)), offset, buf)
    {
      hide BlockCacheManager.Valid, FsInv, Contents, BlocksFor;
      IncreaseSize(id, offset + |buf|, d);
      assert d.size == |Contents(d.Val(), c.view)|;
      if buf != [] { StartsInside(offset, |buf|, d.size); }
      n := WriteInside(id, offset, buf, d);
    }

    // -------------------------------------------------------------------------
    // Operations
    // -------------------------------------------------------------------------

    /** Write to file `i`, growing it if needed. */
    method WriteAt(i: nat, offset: nat, buf: seq<byte>) returns (n: nat)
      requires Valid() && Enabled(abs, Write(i, offset, buf), fs.geo)
      modifies this`fs, this`abs, c
      ensures Valid() && fs.geo == old(fs.geo)
      ensures abs == Apply(old(abs), Write(i, offset, buf)) && n == |buf|
    {
      hide BlockCacheManager.Valid, FsInv, Contents, EncodeDir, BlocksFor;
      WriteFits(i, offset, buf);
      var d := OpenInode(i + 1);
      n := GrowAndWrite(i + 1, offset, buf, d);
      CloseInode(i + 1, d);
      c.SyncAll();
      RefineOne(old(c.view), old(fs), abs, c.view, fs, i, WriteSpec(abs.data[i], offset, buf));
      abs := Apply(abs, Write(i, offset, buf));
    }

    lemma WriteFits(i: nat, offset: nat, buf: seq<byte>)
      requires Valid() && Enabled(abs, Write(i, offset, buf), fs.geo)
      ensures fs.inodes[i + 1].size == |abs.data[i]|
      ensures |abs.data[i]| < offset + |buf| ==>
                TotalOwned(fs.owned) + BlocksFor(offset + |buf|) - BlocksFor(|abs.data[i]|) <= fs.geo.dataAreaBlocks
    {
      hide BlocksFor, FsInv, EncodeDir, BlockCacheManager.Valid;
      UsedIsOwned(c.view, fs, abs);
      SumBlocksUpdate(abs.data, i, WriteSpec(abs.data[i], offset, buf));
      assert |Contents(fs.inodes[i + 1], c.view)| == fs.inodes[i + 1].size;
    }

    /** Read from file `i`. */
    method ReadAt(i: nat, offset: nat, buf: array<byte>) returns (n: nat)
      requires Valid() && i < |abs.data|
      modifies c, buf
      ensures Valid() && c.view == old(c.view)
      ensures n == if offset < |abs.data[i]| then Min(buf.Length, |abs.data[i]| - offset) else 0
      ensures n > 0 ==> buf[..n] == abs.data[i][offset..offset + n]
      ensures buf[n..] == old(buf[n..])
    {
      hide BlockCacheManager.Valid, FsInv, Contents, EncodeDir;
      assert |Contents(fs.inodes[i + 1], c.view)| == |abs.data[i]|;
      var d := OpenInode(i + 1);
      n := ReadInside(i + 1, offset, buf, d);
      CloseInode(i + 1, d);
    }

    method ReadInside(id: nat, offset: nat, buf: array<byte>, d: DiskInode) returns (n: nat)
      requires Inside(id, d)
      modifies c, buf
      ensures Inside(id, d) && c.view == old(c.view) && (old(c.device) == old(c.view) ==> c.device == c.view)
      ensures n == if offset < d.size then Min(buf.Length, d.size - offset) else 0
      ensures n > 0 ==> buf[..n] == Contents(d.Val(), c.view)[offset..offset + n]
      ensures buf[n..] == old(buf[n..])
    {
      hide BlockCacheManager.Valid, MakeGeometry, BitSet, Contents, InodesStored, InodeBits, DataBits, FreeZero;
      hide SlotBlock;
      GrowUsable(c.view, fs, [], id, c.held);
      n := d.ReadAt(offset, buf, c, fs.owned[id]);
    }

    /** Truncate file `i` and free its blocks. */
    method Clear(i: nat)
      requires Valid() && i < |abs.data|
      modifies this`fs, this`abs, c
      ensures Valid() && fs.geo == old(fs.geo)
      ensures abs == Apply(old(abs), FsSpec.Clear(i))
    {
      hide BlockCacheManager.Valid, FsInv, Contents, EncodeDir;
      var d := OpenInode(i + 1);
      ClearInside(i + 1, d);
      CloseInode(i + 1, d);
      c.SyncAll();
      RefineOne(old(c.view), old(fs), abs, c.view, fs, i, []);
      abs := Apply(abs, FsSpec.Clear(i));
    }

    /** Every block of the file is freed, once. */
    method ClearInside(id: nat, d: DiskInode)
      requires Inside(id, d)
      modifies c, d, this`fs
      ensures Inside(id, d) && OthersSame(id) && d.isDir == old(d.isDir)
      ensures Contents(d.Val(), c.view) == []
    {
      hide BlockCacheManager.Valid, MakeGeometry, TotalBlocks, BitSet, EncodeInode, DecodeInode, StoreInode, SlotBlock;
      hide FileOk, Contents, Owned, Usable, InodesStored, InodeBits, DataBits, FreeZero, FilesOk;
      GrowUsable(c.view, fs, [], id, c.held);
      var v := d.ClearSize(c, fs.owned[id]);
      ClearStep(c.view, fs, id);
      PutInode(id, d);
      fs := WithFile(fs, id, d.Val(), []);
      DeallocBlocks(v);
    }

    method DeallocBlocks(v: seq<nat>)
      requires Running(v)
      modifies c
      ensures Running([]) && c.held == old(c.held)
      ensures forall k | 0 <= k < |fs.inodes| :: SameContents(fs.inodes[k], old(c.view), c.view)
    {
      hide BlockCacheManager.Valid, Contents, FsInv;
      SelfSame(v);
      var j := 0;
      while j < |v|
        invariant j <= |v| && Running(v[j..]) && c.held == old(c.held)
        invariant forall k | 0 <= k < |fs.inodes| :: SameContents(fs.inodes[k], old(c.view), c.view)
      {
        DeallocData(v[j], v[j..]);
        assert v[j..][1..] == v[j + 1..];
        j := j + 1;
      }
      assert v[j..] == [];
    }

    // -------------------------------------------------------------------------
    // The root directory
    // -------------------------------------------------------------------------

    /** Look a name up in the open root directory. */
    method FindInodeId(name: Name, d: DiskInode) returns (r: Option<nat>)
      requires Inside(0, d) && Refines(c.view, fs, abs)
      modifies c
      ensures Inside(0, d) && c.view == old(c.view) && (old(c.device) == old(c.view) ==> c.device == c.view)
      ensures r.None? <==> name !in abs.names
      ensures r.Some? ==> 1 <= r.value <= |abs.names| && abs.names[r.value - 1] == name
    {
      hide BlockCacheManager.Valid, FsInv, Contents, EncodeDir, DecodeInode, EncodeDirent;
      RootSize();
      var count := d.size / DIRENT_SZ;
      var dirent := new byte[DIRENT_SZ](_ => 0);
      var i := 0;
      while i < count
        invariant i <= count && name !in abs.names[..i]
        invariant Inside(0, d) && c.view == old(c.view) && (old(c.device) == old(c.view) ==> c.device == c.view)
      {
        var n := ReadInside(0, DIRENT_SZ * i, dirent, d);
        assert n == DIRENT_SZ && dirent[..] == dirent[..n];
        DirEntryAt(abs.names, i);
        DirentRoundTrip(abs.names[i], i + 1);
        if DirentName(dirent[..]) == name {
          return Some(DirentInode(dirent[..]));
        }
        i := i + 1;
      }
      assert abs.names[..i] == abs.names;
      r := None;
    }

    lemma RootSize()
      requires Running([]) && Refines(c.view, fs, abs)
      ensures fs.inodes[0].size == DIRENT_SZ * |abs.names| <= MAX_SIZE
      ensures |abs.names| + 1 < U32_LIMIT
    {
      assert |Contents(fs.inodes[0], c.view)| == fs.inodes[0].size;
      assert FileOk(fs.inodes[0], c.view, fs.owned[0]);
    }

    /** Inode number of a file, by name. */
    method Find(name: Name) returns (r: Option<nat>)
      requires Valid()
      modifies c
      ensures Valid() && c.view == old(c.view)
      ensures r.None? <==> name !in abs.names
      ensures r.Some? ==> 1 <= r.value <= |abs.names| && abs.names[r.value - 1] == name
    {
      hide BlockCacheManager.Valid, FsInv, Contents, EncodeDir;
      var d := OpenInode(0);
      r := FindInodeId(name, d);
      CloseInode(0, d);
    }

    /** All names, in creation order. */
    method Ls() returns (v: seq<Name>)
      requires Valid()
      modifies c
      ensures Valid() && c.view == old(c.view)
      ensures v == abs.names
    {
      hide BlockCacheManager.Valid, FsInv, Contents, EncodeDir, DecodeInode, EncodeDirent;
      RootSize();
      var d := OpenInode(0);
      var count := d.size / DIRENT_SZ;
      v := [];
      var i := 0;
      while i < count
        invariant i <= count && v == abs.names[..i]
        invariant Inside(0, d) && c.view == old(c.view) && c.device == c.view
      {
        var dirent := new byte[DIRENT_SZ](_ => 0);
        var n := ReadInside(0, i * DIRENT_SZ, dirent, d);
        assert n == DIRENT_SZ && dirent[..] == dirent[..n];
        DirEntryAt(abs.names, i);
        DirentRoundTrip(abs.names[i], i + 1);
        v := v + [DirentName(dirent[..])];
        i := i + 1;
      }
      CloseInode(0, d);
    }

    /** Take the next inode and initialise it as an empty file or directory. */
    method NewInode(isDir: bool) returns (id: nat)
      requires Running([]) && c.held == {} && |fs.inodes| < Maximum(InodeBitmap(fs.geo))
      modifies c, this`fs
      ensures Running([]) && c.held == {} && id == |old(fs).inodes|
      ensures fs == WithNew(old(fs), isDir)
      ensures forall k | 0 <= k < |old(fs).inodes| :: SameContents(fs.inodes[k], old(c.view), c.view)
    {
      hide BlockCacheManager.Valid, MakeGeometry, BitSet, Contents, EncodeInode, DecodeInode;
      hide FilesOk, FreeZero, DataBits, Apart, InodesStored, FreshInode;
      GeoFacts(fs.geo);
      var r := Alloc(inodeBitmap, c);
      assert !BitSet(old(c.view), InodeBitmap(fs.geo), |fs.inodes|);
      id := r.value;
      AddInode(old(c.view), c.view, fs, id, isDir);
      InodePosIn(fs.geo, id);
      var (blk, off) := Pos(id);
      var b := c.Fetch(blk);
      FreshShape(isDir);
      c.Store(blk, Splice(b, off, EncodeInode(FreshInode(isDir))));
      fs := WithNew(fs, isDir);
    }

    static lemma FreshShape(isDir: bool)
      ensures |FreshInode(isDir).direct| == INODE_DIRECT_COUNT
    {
    }

    /** Create an empty file; a name that exists is left alone. */
    method Create(name: Name) returns (r: Option<nat>)
      requires Valid() && Enabled(abs, FsSpec.Create(name), fs.geo)
      modifies c, this`fs, this`abs
      ensures Valid() && fs.geo == old(fs.geo)
      ensures abs == Apply(old(abs), FsSpec.Create(name))
      ensures r.None? <==> name in old(abs).names
      ensures r.Some? ==> r.value == |abs.names|
    {
      hide BlockCacheManager.Valid, FsInv, Contents, EncodeDir, Enabled;
      var d := OpenInode(0);
      var found := FindInodeId(name, d);
      CloseInode(0, d);
      if found.Some? { return None; }
      r := CreateNew(name);
    }

    /** Create a file under a name that is not taken. */
    method CreateNew(name: Name) returns (r: Option<nat>)
      requires Valid() && Enabled(abs, FsSpec.Create(name), fs.geo) && name !in abs.names
      modifies c, this`fs, this`abs
      ensures Valid() && fs.geo == old(fs.geo)
      ensures abs == Apply(old(abs), FsSpec.Create(name)) && r == Some(|abs.names|)
    {
      hide BlockCacheManager.Valid, FsInv, Contents, EncodeDir, BlocksFor;
      RootSize();
      CreateFits(name);
      var id := NewInode(false);
      AppendDirent(name, id);
      c.SyncAll();
      CreateRefines(old(c.view), old(fs), abs, c.view, fs, name);
      abs := Apply(abs, FsSpec.Create(name));
      r := Some(id);
    }

    lemma CreateFits(name: Name)
      requires Valid() && Enabled(abs, FsSpec.Create(name), fs.geo) && name !in abs.names
      ensures TotalOwned(WithNew(fs, false).owned)
                + BlocksFor(DIRENT_SZ * (|abs.names| + 1)) - BlocksFor(DIRENT_SZ * |abs.names|)
              <= fs.geo.dataAreaBlocks
    {
      hide FsInv, BlockCacheManager.Valid, EncodeDir, Contents;
      UsedIsOwned(c.view, fs, abs);
      assert (abs.data + [[]])[..|abs.data|] == abs.data;
      assert WithNew(fs, false).owned[..|fs.owned|] == fs.owned;
      assert BlocksFor(0) == 0;
    }

    /** Add an entry to the root directory. */
    method AppendDirent(name: Name, id: nat)
      requires Running([]) && c.held == {} && 0 < |fs.inodes| && |name| <= NAME_LENGTH_LIMIT
      requires fs.inodes[0].size % DIRENT_SZ == 0 && fs.inodes[0].size + DIRENT_SZ <= MAX_SIZE
      requires TotalOwned(fs.owned) + BlocksFor(fs.inodes[0].size + DIRENT_SZ) - BlocksFor(fs.inodes[0].size)
               <= fs.geo.dataAreaBlocks
      requires |fs.inodes[0].direct| == INODE_DIRECT_COUNT
      modifies c, this`fs
      ensures Running([]) && c.held == {} && OthersSame(0)
      ensures fs.inodes[0].isDir == old(fs).inodes[0].isDir && |fs.inodes[0].direct| == INODE_DIRECT_COUNT
      ensures Contents(fs.inodes[0], c.view) == Contents(old(fs).inodes[0], old(c.view)) + EncodeDirent(name, id)
    {
      hide BlockCacheManager.Valid, FsInv, Contents, EncodeDirent, BlocksFor;
      var d := OpenInode(0);
      ghost var was := Contents(d.Val(), c.view);
      assert |was| == d.size;
      var count := d.size / DIRENT_SZ;
      IncreaseSize(0, (count + 1) * DIRENT_SZ, d);
      assert |Contents(d.Val(), c.view)| == d.size;
      StartsInside(count * DIRENT_SZ, DIRENT_SZ, d.size);
      var n := WriteInside(0, count * DIRENT_SZ, EncodeDirent(name, id), d);
      CloseInode(0, d);
      assert Splice(PadTo(was, |was| + DIRENT_SZ), |was|, EncodeDirent(name, id)) == was + EncodeDirent(name, id);
    }

    // -------------------------------------------------------------------------
    // Formatting, and whole runs
    // -------------------------------------------------------------------------

    /** Format a device: clear every block, write the super block, create the root. */
    constructor Format(cache: BlockCacheManager, inodeBitmapBlocks: nat)
      requires cache.Valid() && cache.held == {} && ValidSize(|cache.view|, inodeBitmapBlocks)
      modifies cache
      ensures Valid() && abs == AbsFs([], []) && c == cache
      ensures fs.geo == MakeGeometry(|old(cache.view)|, inodeBitmapBlocks)
    {
      hide BlockCacheManager.Valid, FsInv, EncodeDir, EncodeSuper;
      var total := |cache.device|;
      assert total == |cache.view| by { CacheSize(cache); }
      var g := MakeGeometry(total, inodeBitmapBlocks);
      c := cache;
      inodeBitmap, inodeAreaStart := Bitmap(1, inodeBitmapBlocks), 1 + inodeBitmapBlocks;
      dataBitmap := Bitmap(1 + inodeBitmapBlocks + g.inodeAreaBlocks, g.dataBitmapBlocks);
      dataAreaStart := 1 + inodeBitmapBlocks + g.inodeAreaBlocks + g.dataBitmapBlocks;
      fs, abs := Fs(g, [], []), AbsFs([], []);
      new;
      ClearAll(c, total);
      var b := c.Fetch(0);
      c.Store(0, Splice(b, 0, EncodeSuper(g)));
      EmptyDisk(c.view, g);
      GeoFacts(g);
      var root := NewInode(true);
      assert root == 0;
      EmptyContents(true, c.view);
      c.SyncAll();
    }

    static method ClearAll(c: BlockCacheManager, total: nat)
      requires c.Valid() && c.held == {} && total == |c.view|
      modifies c
      ensures c.Valid() && c.held == {} && |c.view| == total
      ensures forall b | 0 <= b < total :: c.view[b] == Zeros(BLOCK_SZ)
    {
      hide BlockCacheManager.Valid;
      for i := 0 to total
        invariant total == |c.view| && c.Valid() && c.held == {}
        invariant forall b | 0 <= b < i :: c.view[b] == Zeros(BLOCK_SZ)
      {
        c.Store(i, Zeros(BLOCK_SZ));
      }
    }

    static lemma CacheSize(cache: BlockCacheManager)
      requires cache.Valid()
      ensures |cache.view| == |cache.device|
    {
    }

    /** Any sequence of operations behaves like the abstract file system, in what it shows and
        in what it leaves, and at its end the device holds all of it. */
    method Execute(ops: seq<Op>) returns (seen: seq<Seen>)
      requires Valid() && AllEnabled(abs, ops, fs.geo)
      modifies c, this`fs, this`abs
      ensures Valid() && fs.geo == old(fs.geo)
      ensures abs == Run(old(abs), ops)
      ensures |seen| == |ops| && forall n | 0 <= n < |ops| :: seen[n] == Observe(Run(old(abs), ops[..n]), ops[n])
    {
      hide Valid, Enabled, Apply, Observe;
      var i := 0;
      seen := [];
      assert ops[..0] == [];
      while i < |ops|
        invariant i <= |ops| && Valid() && fs.geo == old(fs.geo) && abs == Run(old(abs), ops[..i])
        invariant |seen| == i && forall n | 0 <= n < i :: seen[n] == Observe(Run(old(abs), ops[..n]), ops[n])
      {
        assert ops[..i + 1][..i] == ops[..i];
        var s := Step(ops[i]);
        seen := seen + [s];
        i := i + 1;
      }
      assert ops[..i] == ops;
    }

    method Step(op: Op) returns (seen: Seen)
      requires Valid() && Enabled(abs, op, fs.geo)
      modifies c, this`fs, this`abs
      ensures Valid() && fs.geo == old(fs.geo) && abs == Apply(old(abs), op) && seen == Observe(old(abs), op)
    {
      hide Valid, WriteSpec;
      ValidData();
      match op {
        case Create(n) =>
          var r := Create(n);
          seen := Inode(r);
        case Write(i, off, buf) =>
          var n := WriteAt(i, off, buf);
          seen := Written(n);
        case Clear(i) =>
          Clear(i);
          seen := Nothing;
        case Read(i, off, len) =>
          var buf := new byte[len];
          var n := ReadAt(i, off, buf);
          seen := Bytes(buf[..n]);
        case Lookup(n) =>
          var r := Find(n);
          InodeOfIs(abs.names, n, r);
          seen := Inode(r);
        case List =>
          var names := Ls();
          seen := Names(names);
      }
    }

    lemma ValidData()
      requires Valid()
      ensures |abs.data| == |abs.names| && Unique(abs.names)
    {
    }
  }

  /** Format a disk, use it, mount it again with an empty cache and use it further: what the second
      mount shows is what one uninterrupted run would have shown. */
  method Remount(blocks: seq<Block>, inodeBitmapBlocks: nat, ops: seq<Op>, more: seq<Op>) returns (seen: seq<Seen>)
    requires ValidSize(|blocks|, inodeBitmapBlocks)
    requires AllEnabled(EMPTY_FS, ops, MakeGeometry(|blocks|, inodeBitmapBlocks))
    requires AllEnabled(Run(EMPTY_FS, ops), more, MakeGeometry(|blocks|, inodeBitmapBlocks))
    ensures |seen| == |more|
    ensures forall n | 0 <= n < |more| :: seen[n] == Observe(Run(EMPTY_FS, ops + more[..n]), more[n])
    ensures forall n | 0 <= n < |more| :: MustSee(ops + more[..n], more[n], seen[n])
  {
    hide FsInv, Refines, BlockCacheManager.Valid, MakeGeometry, Observe, MustSee, AllEnabled, Run;
    var cache := new BlockCacheManager(blocks);
    var first := new EasyFileSystem.Format(cache, inodeBitmapBlocks);
    var _ := first.Execute(ops);
    var empty := new BlockCacheManager(first.c.device);
    var second := new EasyFileSystem.Open(empty, first.fs, first.abs);
    seen := second.Execute(more);
    forall n | 0 <= n < |more|
      ensures seen[n] == Observe(Run(EMPTY_FS, ops + more[..n]), more[n]) && MustSee(ops + more[..n], more[n], seen[n])
    {
      RunOn(EMPTY_FS, ops, more[..n]);
      SeenInRun(ops, more, n, MakeGeometry(|blocks|, inodeBitmapBlocks));
    }
  }

  /** A range with bytes in it starts in a block of the file. */
  lemma StartsInside(offset: nat, len: nat, size: nat)
    requires len > 0 && offset + len <= size
    ensures offset / BLOCK_SZ < DataBlocks(size)
  {
  }

  /** A new empty file, named in the directory. */
  lemma CreateRefines(view: seq<Block>, fs: Fs, a: AbsFs, view': seq<Block>, fs': Fs, name: Name)
    requires Refines(view, fs, a) && name !in a.names && ValidName(name)
    requires |fs'.inodes| == |fs.inodes| + 1
    requires forall j | 1 <= j < |fs.inodes| :: fs'.inodes[j] == fs.inodes[j] && SameContents(fs.inodes[j], view, view')
    requires fs'.inodes[|fs.inodes|] == FreshInode(false)
    requires fs'.inodes[0].isDir && |fs'.inodes[0].direct| == INODE_DIRECT_COUNT
    requires Contents(fs'.inodes[0], view') == EncodeDir(a.names) + EncodeDirent(name, |a.names| + 1)
    ensures Refines(view', fs', Apply(a, FsSpec.Create(name)))
  {
    hide Contents;
    var names := a.names + [name];
    assert names[..|a.names|] == a.names;
    assert EncodeDir(names) == EncodeDir(a.names) + EncodeDirent(name, |names|);
    EmptyContents(false, view');
  }

  lemma EmptyContents(isDir: bool, view: seq<Block>)
    ensures |FreshInode(isDir).direct| == INODE_DIRECT_COUNT && Contents(FreshInode(isDir), view) == []
  {
  }

  /** Blocks owned, counted from the abstract state. */
  lemma UsedIsOwned(view: seq<Block>, fs: Fs, a: AbsFs)
    requires FsInv(view, fs, []) && Refines(view, fs, a)
    ensures TotalOwned(fs.owned) == Used(a)
  {
    hide BlocksFor, InodesStored, InodeBits, DataBits, FreeZero, Apart, MakeGeometry;
    UsedPrefix(view, fs, a, |a.data|);
    assert fs.owned[..|a.data| + 1] == fs.owned && a.data[..|a.data|] == a.data;
  }

  lemma {:induction false} UsedPrefix(view: seq<Block>, fs: Fs, a: AbsFs, n: nat)
    requires Shape(view, fs) && FilesOk(view, fs) && Refines(view, fs, a) && n <= |a.data|
    ensures TotalOwned(fs.owned[..n + 1]) == BlocksFor(DIRENT_SZ * |a.names|) + SumBlocks(a.data[..n])
  {
    hide BlocksFor, FilesOk, Refines;
    OwnedSize(view, fs, a, n);
    assert fs.owned[..n + 1][..n] == fs.owned[..n];
    if n == 0 {
      assert TotalOwned(fs.owned[..0]) == 0;
    } else {
      UsedPrefix(view, fs, a, n - 1);
      assert a.data[..n][..n - 1] == a.data[..n - 1];
    }
  }

  /** A file owns what its size calls for. */
  lemma OwnedSize(view: seq<Block>, fs: Fs, a: AbsFs, n: nat)
    requires Shape(view, fs) && FilesOk(view, fs) && Refines(view, fs, a) && n <= |a.data|
    ensures n < |fs.owned| && |fs.owned[n]| == BlocksFor(if n == 0 then DIRENT_SZ * |a.names| else |a.data[n - 1]|)
  {
    hide SlotBlock, TotalBlocks;
    assert FileOk(fs.inodes[n], view, fs.owned[n]);
    assert |Contents(fs.inodes[n], view)| == fs.inodes[n].size;
  }

  /** Only file `i` changed, to `x`. */
  lemma RefineOne(view: seq<Block>, fs: Fs, a: AbsFs, view': seq<Block>, fs': Fs, i: nat, x: seq<byte>)
    requires Refines(view, fs, a) && i < |a.data| && |fs'.inodes| == |fs.inodes|
    requires forall j | 0 <= j < |fs.inodes| && j != i + 1 ::
               fs'.inodes[j] == fs.inodes[j] && SameContents(fs.inodes[j], view, view')
    requires !fs'.inodes[i + 1].isDir && |fs'.inodes[i + 1].direct| == INODE_DIRECT_COUNT
    requires Contents(fs'.inodes[i + 1], view') == x
    ensures Refines(view', fs', a.(data := a.data[i := x]))
  {
    hide Contents;
  }
}
