/** Disk geometry and the byte encodings of the super block, inodes and directory entries
    (easy-fs/src/efs.rs, easy-fs/src/layout.rs). */
module Efs {
  import opened Bytes
  import opened BlockCache
  import opened Layout
  import opened Bitmaps
  import opened Numbers
  import opened Options

  const EFS_MAGIC: nat := 0x3b80_0001
  const INODE_SZ: nat := 128
  const INODES_PER_BLOCK: nat := BLOCK_SZ / INODE_SZ

  datatype Geometry = Geometry(total: nat, inodeBitmapBlocks: nat, inodeAreaBlocks: nat,
                               dataBitmapBlocks: nat, dataAreaBlocks: nat)

  /** A result in 32-bit arithmetic. Where this wraps around, a debug build panics. */
  function Wrap32(x: int): (w: nat)
    ensures w < U32_LIMIT
  {
    x % U32_LIMIT
  }

  /** Sizes `EasyFileSystem::create` computes from the disk size, in 32-bit arithmetic. */
  function MakeGeometry(total: nat, inodeBitmapBlocks: nat): Geometry {
    var inodeNum := inodeBitmapBlocks * BLOCK_BITS;
    var inodeArea := Wrap32((inodeNum * INODE_SZ + BLOCK_SZ - 1) / BLOCK_SZ);
    var inodeTotal := Wrap32(inodeBitmapBlocks + inodeArea);
    var dataTotal := Wrap32(Wrap32(total - 1) - inodeTotal);
    var dataBitmap := Wrap32(dataTotal + 4096) / 4097;
    Geometry(total, inodeBitmapBlocks, inodeArea, dataBitmap, Wrap32(dataTotal - dataBitmap))
  }

  /** There is room for an inode, and neither the subtraction nor the rounding sum in `create`
      leaves 32 bits. */
  predicate ValidSize(total: nat, inodeBitmapBlocks: nat) {
    && 1 <= inodeBitmapBlocks && 1 + inodeBitmapBlocks * 1025 <= total < U32_LIMIT
    && total - 1 - inodeBitmapBlocks * 1025 + 4096 < U32_LIMIT
  }

  /** No step wraps around for a valid size. */
  lemma PlainGeometry(total: nat, inodeBitmapBlocks: nat)
    requires ValidSize(total, inodeBitmapBlocks)
    ensures var dataTotal := total - 1 - inodeBitmapBlocks * 1025;
            MakeGeometry(total, inodeBitmapBlocks)
            == Geometry(total, inodeBitmapBlocks, inodeBitmapBlocks * 1024,
                        (dataTotal + 4096) / 4097, dataTotal - (dataTotal + 4096) / 4097)
  {
    InodeAreaSize(inodeBitmapBlocks);
    DataAreaSize(total - 1 - inodeBitmapBlocks * 1025);
    Small(inodeBitmapBlocks * 1024);
    Small(inodeBitmapBlocks * 1025);
    Small(total - 1);
    Small(total - 1 - inodeBitmapBlocks * 1025);
    Small(total - 1 - inodeBitmapBlocks * 1025 + 4096);
  }

  lemma Small(x: nat)
    requires x < U32_LIMIT
    ensures Wrap32(x) == x
  {
  }

  /** The five regions tile the disk and both bitmaps cover their areas. */
  ghost predicate Tiles(g: Geometry) {
    && DataStart(g) + g.dataAreaBlocks == g.total
    && g.inodeAreaBlocks * INODES_PER_BLOCK == Maximum(InodeBitmap(g))
    && g.dataAreaBlocks <= Maximum(DataBitmap(g))
  }

  ghost predicate GeoOk(g: Geometry) {
    ValidSize(g.total, g.inodeBitmapBlocks) && g == MakeGeometry(g.total, g.inodeBitmapBlocks)
  }

  function InodeBitmap(g: Geometry): Bitmap { Bitmap(1, g.inodeBitmapBlocks) }

  function InodeStart(g: Geometry): nat { 1 + g.inodeBitmapBlocks }

  function DataBitmap(g: Geometry): Bitmap {
    Bitmap(1 + g.inodeBitmapBlocks + g.inodeAreaBlocks, g.dataBitmapBlocks)
  }

  function DataStart(g: Geometry): nat {
    1 + g.inodeBitmapBlocks + g.inodeAreaBlocks + g.dataBitmapBlocks
  }

  /** The five regions tile the disk: super block, inode bitmap, inode area, data bitmap,
      data area. The data bitmap has a bit for every data block, and may have spare ones. */
  lemma GeoFacts(g: Geometry)
    requires GeoOk(g)
    ensures InodeBitmap(g).start == 1
    ensures InodeStart(g) == InodeBitmap(g).start + InodeBitmap(g).blocks
    ensures DataBitmap(g).start == InodeStart(g) + g.inodeAreaBlocks
    ensures DataStart(g) == DataBitmap(g).start + DataBitmap(g).blocks
    ensures DataStart(g) + g.dataAreaBlocks == g.total < U32_LIMIT
    ensures DataBitmap(g).start <= DataStart(g) <= g.total
    ensures g.inodeAreaBlocks * INODES_PER_BLOCK == Maximum(InodeBitmap(g))
    ensures g.dataAreaBlocks <= Maximum(DataBitmap(g))
    ensures g.dataBitmapBlocks > 0 ==> Maximum(DataBitmap(g)) < g.dataAreaBlocks + BLOCK_BITS + 1
  {
    hide MakeGeometry;
    PlainGeometry(g.total, g.inodeBitmapBlocks);
    DataAreaSize(g.total - 1 - g.inodeBitmapBlocks * 1025);
  }

  /** The layout `create` computes is a layout exactly for the valid sizes: everywhere else some
      step leaves 32 bits, and regions overlap or a bitmap is too short. */
  lemma LayoutExact(total: nat, inodeBitmapBlocks: nat)
    requires total < U32_LIMIT && 1 <= inodeBitmapBlocks < U32_LIMIT
    ensures Tiles(MakeGeometry(total, inodeBitmapBlocks)) <==> ValidSize(total, inodeBitmapBlocks)
  {
    if ValidSize(total, inodeBitmapBlocks) {
      GeoFacts(MakeGeometry(total, inodeBitmapBlocks));
    } else {
      InvalidSize(total, inodeBitmapBlocks);
    }
  }

  lemma InvalidSize(total: nat, inodeBitmapBlocks: nat)
    requires total < U32_LIMIT && 1 <= inodeBitmapBlocks < U32_LIMIT && !ValidSize(total, inodeBitmapBlocks)
    ensures !Tiles(MakeGeometry(total, inodeBitmapBlocks))
  {
    hide MakeGeometry;
    var g := MakeGeometry(total, inodeBitmapBlocks);
    InodeAreaWrapped(total, inodeBitmapBlocks);
    if inodeBitmapBlocks * 1024 < U32_LIMIT {
      Small(inodeBitmapBlocks * 1024);
      if 1 + inodeBitmapBlocks * 1025 <= total {
        NoDataBitmap(total, inodeBitmapBlocks);
      }
    }
  }

  lemma InodeAreaWrapped(total: nat, inodeBitmapBlocks: nat)
    ensures var g := MakeGeometry(total, inodeBitmapBlocks);
            && g.total == total && g.inodeBitmapBlocks == inodeBitmapBlocks
            && g.inodeAreaBlocks == Wrap32(inodeBitmapBlocks * 1024)
  {
    InodeAreaSize(inodeBitmapBlocks);
  }

  /** When the rounding sum wraps around, no block is set aside for the data bitmap. */
  lemma NoDataBitmap(total: nat, inodeBitmapBlocks: nat)
    requires 1 + inodeBitmapBlocks * 1025 <= total < U32_LIMIT
    requires total - 1 - inodeBitmapBlocks * 1025 + 4096 >= U32_LIMIT
    ensures var g := MakeGeometry(total, inodeBitmapBlocks); g.dataBitmapBlocks == 0 < g.dataAreaBlocks
  {
    var dataTotal := total - 1 - inodeBitmapBlocks * 1025;
    InodeAreaSize(inodeBitmapBlocks);
    Small(inodeBitmapBlocks * 1024);
    Small(inodeBitmapBlocks * 1025);
    Small(total - 1);
    Small(dataTotal);
    assert Wrap32(dataTotal + 4096) == dataTotal + 4096 - U32_LIMIT < 4097;
  }

  /** The largest 32-bit disk with one inode bitmap block gets no data bitmap at all. */
  lemma LargestDisk()
    ensures MakeGeometry(0xFFFF_FFFF, 1).dataBitmapBlocks == 0 < MakeGeometry(0xFFFF_FFFF, 1).dataAreaBlocks
    ensures !ValidSize(0xFFFF_FFFF, 1)
  {
    NoDataBitmap(0xFFFF_FFFF, 1);
  }

  lemma InodeAreaSize(n: nat)
    ensures (n * BLOCK_BITS * INODE_SZ + BLOCK_SZ - 1) / BLOCK_SZ == n * 1024
  {
  }

  lemma DataAreaSize(n: nat)
    ensures var bitmap := (n + 4096) / 4097;
            bitmap <= n <= bitmap * 4097 && (bitmap > 0 ==> bitmap * 4097 < n + 4097)
  {
  }

  /** (block, byte offset) of an inode (`get_disk_inode_pos`). */
  function InodePos(g: Geometry, id: nat): (nat, nat) {
    (InodeStart(g) + id / INODES_PER_BLOCK, id % INODES_PER_BLOCK * INODE_SZ)
  }

  /** Inodes lie inside the inode area and inside one block each. */
  lemma InodePosIn(g: Geometry, i: nat)
    requires GeoOk(g) && i < Maximum(InodeBitmap(g))
    ensures InodeStart(g) <= InodePos(g, i).0 < DataBitmap(g).start <= g.total
    ensures InodePos(g, i).1 + INODE_SZ <= BLOCK_SZ
    ensures InodePos(g, i) == (1 + g.inodeBitmapBlocks + i / 4, i % 4 * 128)
  {
    hide *;
    GeoFacts(g);
    PosArithmetic(g, i);
  }

  lemma PosArithmetic(g: Geometry, i: nat)
    ensures InodePos(g, i) == (1 + g.inodeBitmapBlocks + i / 4, i % 4 * 128)
    requires i < g.inodeAreaBlocks * INODES_PER_BLOCK
    ensures InodeStart(g) <= InodePos(g, i).0 < InodeStart(g) + g.inodeAreaBlocks
    ensures InodePos(g, i).1 + INODE_SZ <= BLOCK_SZ
  {
  }

  /** Two inodes never overlap. */
  lemma InodePosApart(g: Geometry, i: nat, j: nat)
    requires i != j && InodePos(g, i).0 == InodePos(g, j).0
    ensures InodePos(g, i).1 + INODE_SZ <= InodePos(g, j).1 || InodePos(g, j).1 + INODE_SZ <= InodePos(g, i).1
  {
    assert i % INODES_PER_BLOCK != j % INODES_PER_BLOCK;
  }

  // ---------------------------------------------------------------------------
  // Records made of 32-bit words
  // ---------------------------------------------------------------------------

  function EncodeWords(ws: seq<nat>): (b: seq<byte>)
    ensures |b| == 4 * |ws|
  {
    if ws == [] then [] else ToLE(ws[0], 4) + EncodeWords(ws[1..])
  }

  function DecodeWords(b: seq<byte>, n: nat): (ws: seq<nat>)
    requires |b| >= 4 * n
    ensures |ws| == n
  {
    seq(n, i requires 0 <= i < n => U32At(b, 4 * i))
  }

  lemma {:induction false} EncodedWord(ws: seq<nat>, i: nat)
    requires i < |ws| && forall j | 0 <= j < |ws| :: ws[j] < U32_LIMIT
    ensures U32At(EncodeWords(ws), 4 * i) == ws[i]
  {
    var b := EncodeWords(ws);
    if i == 0 {
      assert b[0..4] == ToLE(ws[0], 4);
      WordSizes();
      LERoundTrip(ws[0], 4);
    } else {
      EncodedWord(ws[1..], i - 1);
      assert b[4 * i..4 * i + 4] == EncodeWords(ws[1..])[4 * (i - 1)..4 * (i - 1) + 4];
    }
  }

  lemma DecodeEncodeWords(ws: seq<nat>)
    requires forall j | 0 <= j < |ws| :: ws[j] < U32_LIMIT
    ensures DecodeWords(EncodeWords(ws), |ws|) == ws
  {
    forall i | 0 <= i < |ws| ensures DecodeWords(EncodeWords(ws), |ws|)[i] == ws[i] {
      EncodedWord(ws, i);
    }
  }

  // ---------------------------------------------------------------------------
  // Inodes
  // ---------------------------------------------------------------------------

  function EncodeInode(d: InodeData): (b: seq<byte>)
    requires |d.direct| == INODE_DIRECT_COUNT
    ensures |b| == INODE_SZ
  {
    EncodeWords([d.size] + d.direct + [d.indirect1, d.indirect2, if d.isDir then 1 else 0])
  }

  function DecodeInode(b: seq<byte>): (d: InodeData)
    requires |b| == INODE_SZ
    ensures |d.direct| == INODE_DIRECT_COUNT
  {
    var ws := DecodeWords(b, 32);
    InodeData(ws[0], ws[1..29], ws[29], ws[30], ws[31] % 256 == 1)
  }

  ghost predicate Storable(d: InodeData) {
    && |d.direct| == INODE_DIRECT_COUNT
    && d.size < U32_LIMIT && d.indirect1 < U32_LIMIT && d.indirect2 < U32_LIMIT
    && forall i | 0 <= i < INODE_DIRECT_COUNT :: d.direct[i] < U32_LIMIT
  }

  lemma InodeRoundTrip(d: InodeData)
    requires Storable(d)
    ensures DecodeInode(EncodeInode(d)) == d
  {
    var ws := [d.size] + d.direct + [d.indirect1, d.indirect2, if d.isDir then 1 else 0];
    DecodeEncodeWords(ws);
    assert ws[1..29] == d.direct;
  }

  function InodeAt(view: seq<Block>, g: Geometry, id: nat): (d: InodeData)
    requires GeoOk(g) && |view| == g.total && id < Maximum(InodeBitmap(g))
    ensures |d.direct| == INODE_DIRECT_COUNT
  {
    GeoFacts(g);
    InodePosIn(g, id);
    var (b, off) := InodePos(g, id);
    DecodeInode(view[b][off..off + INODE_SZ])
  }

  /** The disk after inode `id` was overwritten in place. */
  function StoreInode(view: seq<Block>, g: Geometry, id: nat, d: InodeData): (view': seq<Block>)
    requires GeoOk(g) && |view| == g.total && id < Maximum(InodeBitmap(g)) && |d.direct| == INODE_DIRECT_COUNT
  {
    GeoFacts(g);
    InodePosIn(g, id);
    var (b, off) := InodePos(g, id);
    view[b := Splice(view[b], off, EncodeInode(d))]
  }

  /** A stored inode is read back and every other inode is unchanged. */
  lemma StoreInodeAt(view: seq<Block>, g: Geometry, id: nat, d: InodeData, j: nat)
    requires GeoOk(g) && |view| == g.total && id < Maximum(InodeBitmap(g)) && j < Maximum(InodeBitmap(g))
    requires Storable(d)
    ensures InodeAt(StoreInode(view, g, id, d), g, j) == if j == id then d else InodeAt(view, g, j)
  {
    InodeRoundTrip(d);
    InodePosIn(g, id);
    InodePosIn(g, j);
    if j != id && InodePos(g, id).0 == InodePos(g, j).0 { InodePosApart(g, id, j); }
    var (b, off) := InodePos(g, id);
    var (b', off') := InodePos(g, j);
    SpliceSlice(view[b], off, EncodeInode(d), off', off' + INODE_SZ);
  }

  // ---------------------------------------------------------------------------
  // Super block
  // ---------------------------------------------------------------------------

  function EncodeSuper(g: Geometry): (b: seq<byte>)
    ensures |b| == 24
  {
    EncodeWords([EFS_MAGIC, g.total, g.inodeBitmapBlocks, g.inodeAreaBlocks, g.dataBitmapBlocks, g.dataAreaBlocks])
  }

  /** The layout `open` reads; it panics unless the magic number matches. */
  function DecodeSuper(b: Block): Option<Geometry> {
    var ws := DecodeWords(b, 6);
    if ws[0] == EFS_MAGIC then Some(Geometry(ws[1], ws[2], ws[3], ws[4], ws[5])) else None
  }

  /** `open` recovers the layout `create` wrote. */
  lemma SuperRoundTrip(g: Geometry, b: Block)
    requires GeoOk(g)
    ensures DecodeSuper(Splice(b, 0, EncodeSuper(g))) == Some(g)
  {
    GeoFacts(g);
    var ws := [EFS_MAGIC, g.total, g.inodeBitmapBlocks, g.inodeAreaBlocks, g.dataBitmapBlocks, g.dataAreaBlocks];
    DecodeEncodeWords(ws);
    var r := Splice(b, 0, EncodeSuper(g));
    forall i | 0 <= i < 6 ensures U32At(r, 4 * i) == ws[i] {
      EncodedWord(ws, i);
      assert r[4 * i..4 * i + 4] == EncodeWords(ws)[4 * i..4 * i + 4];
    }
  }

  /** Where the fields of the super block stand. */
  lemma SuperOffsets(g: Geometry)
    requires GeoOk(g)
    ensures var b := EncodeSuper(g);
      && U32At(b, 0) == 0x3B80_0001 && U32At(b, 4) == g.total && U32At(b, 8) == g.inodeBitmapBlocks
      && U32At(b, 12) == g.inodeAreaBlocks && U32At(b, 16) == g.dataBitmapBlocks && U32At(b, 20) == g.dataAreaBlocks
  {
    hide U32At, EncodeWords;
    GeoFacts(g);
    var ws := [EFS_MAGIC, g.total, g.inodeBitmapBlocks, g.inodeAreaBlocks, g.dataBitmapBlocks, g.dataAreaBlocks];
    EncodedWord(ws, 0);
    EncodedWord(ws, 1);
    EncodedWord(ws, 2);
    EncodedWord(ws, 3);
    EncodedWord(ws, 4);
    EncodedWord(ws, 5);
  }

  /** Where the fields of an inode stand. */
  lemma InodeOffsets(d: InodeData, i: nat)
    requires Storable(d) && i < 28
    ensures var b := EncodeInode(d);
      && U32At(b, 0) == d.size && U32At(b, 4 + 4 * i) == d.direct[i] && U32At(b, 116) == d.indirect1
      && U32At(b, 120) == d.indirect2 && U32At(b, 124) == if d.isDir then 1 else 0
  {
    hide U32At, EncodeWords;
    var ws := [d.size] + d.direct + [d.indirect1, d.indirect2, if d.isDir then 1 else 0];
    EncodedWord(ws, 0);
    EncodedWord(ws, 1 + i);
    EncodedWord(ws, 29);
    EncodedWord(ws, 30);
    EncodedWord(ws, 31);
  }

  // ---------------------------------------------------------------------------
  // Directory entries
  // ---------------------------------------------------------------------------

  const NAME_LENGTH_LIMIT: nat := 27
  const DIRENT_SZ: nat := 32

  type Name = seq<byte>

  /** Names `create` can store: at most 27 bytes, none of them NUL. */
  predicate ValidName(n: Name) {
    |n| <= NAME_LENGTH_LIMIT && forall i | 0 <= i < |n| :: n[i] != 0
  }

  function EncodeDirent(n: Name, inode: nat): (b: seq<byte>)
    requires |n| <= NAME_LENGTH_LIMIT
    ensures |b| == DIRENT_SZ
  {
    n + Zeros(NAME_LENGTH_LIMIT + 1 - |n|) + ToLE(inode, 4)
  }

  /** Bytes before the first NUL. */
  function UntilNul(b: seq<byte>): (n: Name) {
    if b == [] || b[0] == 0 then [] else [b[0]] + UntilNul(b[1..])
  }

  lemma {:induction false} UntilNulOf(n: Name, rest: seq<byte>)
    requires (forall i | 0 <= i < |n| :: n[i] != 0) && rest != [] && rest[0] == 0
    ensures UntilNul(n + rest) == n
  {
    if n != [] {
      assert (n + rest)[1..] == n[1..] + rest;
      UntilNulOf(n[1..], rest);
    } else {
      assert n + rest == rest;
    }
  }

  function DirentName(b: seq<byte>): Name
    requires |b| == DIRENT_SZ
  {
    UntilNul(b[..NAME_LENGTH_LIMIT + 1])
  }

  function DirentInode(b: seq<byte>): nat
    requires |b| == DIRENT_SZ
  {
    U32At(b, NAME_LENGTH_LIMIT + 1)
  }

  /** Name first, filled up with NUL to 28 bytes, then the inode number. */
  lemma DirentOffsets(n: Name, inode: nat)
    requires |n| <= 27 && inode < U32_LIMIT
    ensures var b := EncodeDirent(n, inode);
      && b[..|n|] == n && (forall i | |n| <= i < 28 :: b[i] == 0) && U32At(b, 28) == inode
  {
    var b := EncodeDirent(n, inode);
    assert b[28..32] == ToLE(inode, 4);
    WordSizes();
    LERoundTrip(inode, 4);
  }

  lemma DirentRoundTrip(n: Name, inode: nat)
    requires ValidName(n) && inode < U32_LIMIT
    ensures DirentName(EncodeDirent(n, inode)) == n
    ensures DirentInode(EncodeDirent(n, inode)) == inode
  {
    var b := EncodeDirent(n, inode);
    assert b[..28] == n + Zeros(28 - |n|);
    UntilNulOf(n, Zeros(28 - |n|));
    assert b[28..32] == ToLE(inode, 4);
    WordSizes();
    LERoundTrip(inode, 4);
  }

  /** A directory file: entry `i` names inode `i + 1`. */
  function EncodeDir(names: seq<Name>): (b: seq<byte>)
    requires forall i | 0 <= i < |names| :: |names[i]| <= NAME_LENGTH_LIMIT
    ensures |b| == DIRENT_SZ * |names|
  {
    if names == [] then []
    else EncodeDir(names[..|names| - 1]) + EncodeDirent(names[|names| - 1], |names|)
  }

  /** Each entry stands at its own 32 bytes. */
  lemma {:induction false} DirEntryAt(names: seq<Name>, i: nat)
    requires i < |names| && forall j | 0 <= j < |names| :: |names[j]| <= NAME_LENGTH_LIMIT
    ensures EncodeDir(names)[DIRENT_SZ * i..DIRENT_SZ * i + DIRENT_SZ] == EncodeDirent(names[i], i + 1)
  {
    var n := |names| - 1;
    var front := EncodeDir(names[..n]);
    if i == n {
      assert EncodeDir(names)[DIRENT_SZ * n..DIRENT_SZ * n + DIRENT_SZ] == EncodeDirent(names[n], n + 1);
    } else {
      DirEntryAt(names[..n], i);
      assert EncodeDir(names)[DIRENT_SZ * i..DIRENT_SZ * i + DIRENT_SZ] ==
               front[DIRENT_SZ * i..DIRENT_SZ * i + DIRENT_SZ];
    }
  }
}
