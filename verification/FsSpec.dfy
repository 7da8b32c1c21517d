/** What the file system promises, without blocks: a flat directory of named byte
    sequences in creation order. */
module FsSpec {
  import BlockCache
  import opened Bytes
  import opened Layout
  import opened Efs
  import opened Numbers
  import opened Options

  datatype AbsFs = AbsFs(names: seq<Name>, data: seq<seq<byte>>)

  ghost predicate Unique(names: seq<Name>) {
    forall i, j | 0 <= i < j < |names| :: names[i] != names[j]
  }

  ghost predicate AbsOk(a: AbsFs) {
    |a.names| == |a.data| && Unique(a.names) && forall i | 0 <= i < |a.names| :: ValidName(a.names[i])
  }

  /** Extend with zero bytes to length `n`, if shorter. */
  function PadTo(s: seq<byte>, n: nat): (r: seq<byte>)
    ensures |r| == if |s| < n then n else |s|
  {
    if |s| < n then s + Zeros(n - |s|) else s
  }

  /** Overwrite from `off`, filling any gap past the old end with zeros. */
  function WriteSpec(s: seq<byte>, off: nat, buf: seq<byte>): seq<byte> {
    Splice(PadTo(s, off + |buf|), off, buf)
  }

  function BlocksFor(size: nat): nat {
    TotalBlocks(DataBlocks(size))
  }

  function SumBlocks(data: seq<seq<byte>>): nat {
    if data == [] then 0 else SumBlocks(data[..|data| - 1]) + BlocksFor(|data[|data| - 1]|)
  }

  /** Data-area blocks a directory and its files take. */
  function Used(a: AbsFs): nat {
    BlocksFor(DIRENT_SZ * |a.names|) + SumBlocks(a.data)
  }

  datatype Op =
    | Create(name: Name)
    | Write(file: nat, off: nat, buf: seq<byte>)
    | Clear(file: nat)
    | Read(file: nat, off: nat, len: nat)
    | Lookup(name: Name)
    | List

  /** What a caller sees of an operation. */
  datatype Seen = Nothing | Written(count: nat) | Bytes(bytes: seq<byte>) | Inode(id: Option<nat>)
                | Names(names: seq<Name>)

  /** The bytes a read of `len` at `off` returns. */
  function ReadSpec(s: seq<byte>, off: nat, len: nat): seq<byte> {
    if off >= |s| then [] else if off + len < |s| then s[off..off + len] else s[off..]
  }

  /** Inode of a name: files are numbered from 1 in creation order. */
  function InodeOf(names: seq<Name>, n: Name): Option<nat> {
    if names == [] then None
    else if names[|names| - 1] == n then Some(|names|)
    else InodeOf(names[..|names| - 1], n)
  }

  function Observe(a: AbsFs, op: Op): Seen {
    match op
    case Create(n) => Inode(if n in a.names then None else Some(|a.names| + 1))
    case Write(_, _, buf) => Written(|buf|)
    case Clear(_) => Nothing
    case Read(i, off, len) => if i < |a.data| then Bytes(ReadSpec(a.data[i], off, len)) else Nothing
    case Lookup(n) => Inode(InodeOf(a.names, n))
    case List => Names(a.names)
  }

  lemma {:induction false} InodeOfIs(names: seq<Name>, n: Name, r: Option<nat>)
    requires Unique(names) && (r.None? <==> n !in names)
    requires r.Some? ==> 1 <= r.value <= |names| && names[r.value - 1] == n
    ensures r == InodeOf(names, n)
  {
    if names != [] {
      var k := |names| - 1;
      if names[k] != n {
        assert forall m | m in names[..k] :: m in names;
        assert n in names ==> n in names[..k];
        InodeOfIs(names[..k], n, r);
      }
    }
  }

  function Apply(a: AbsFs, op: Op): AbsFs {
    match op
    case Create(n) => if n in a.names then a else AbsFs(a.names + [n], a.data + [[]])
    case Write(i, off, buf) => if i < |a.data| then a.(data := a.data[i := WriteSpec(a.data[i], off, buf)]) else a
    case Clear(i) => if i < |a.data| then a.(data := a.data[i := []]) else a
    case _ => a
  }

  /** What the code relies on: a file that exists, a name it can store, a write that stays below
      the largest file size and, if empty, starts in a block of the file, and enough free inodes
      and blocks. */
  ghost predicate Enabled(a: AbsFs, op: Op, g: Geometry) {
    match op
    case Create(n) =>
      n in a.names ||
      (&& ValidName(n)
       && |a.names| + 1 < g.inodeBitmapBlocks * 4096
       && DIRENT_SZ * (|a.names| + 1) <= MAX_SIZE
       && Used(AbsFs(a.names + [n], a.data + [[]])) <= g.dataAreaBlocks)
    case Write(i, off, buf) =>
      && i < |a.data| && off + |buf| <= MAX_SIZE && Used(Apply(a, op)) <= g.dataAreaBlocks
      && (buf == [] ==> off / BlockCache.BLOCK_SZ < DataBlocks(|WriteSpec(a.data[i], off, buf)|))
    case Clear(i) => i < |a.data|
    case Read(i, _, _) => i < |a.data|
    case _ => true
  }

  function Run(a: AbsFs, ops: seq<Op>): AbsFs {
    if ops == [] then a else Apply(Run(a, ops[..|ops| - 1]), ops[|ops| - 1])
  }

  ghost predicate AllEnabled(a: AbsFs, ops: seq<Op>, g: Geometry) {
    forall n | 0 <= n < |ops| :: Enabled(Run(a, ops[..n]), ops[n], g)
  }

  lemma {:induction false} SumBlocksUpdate(data: seq<seq<byte>>, i: nat, x: seq<byte>)
    requires i < |data|
    ensures SumBlocks(data[i := x]) == SumBlocks(data) - BlocksFor(|data[i]|) + BlocksFor(|x|)
  {
    hide BlocksFor;
    var n := |data| - 1;
    if i == n {
      assert data[i := x][..n] == data[..n];
    } else {
      assert data[i := x][..n] == data[..n][i := x];
      SumBlocksUpdate(data[..n], i, x);
    }
  }

  /** Every operation keeps names unique and storable. */
  lemma ApplyOk(a: AbsFs, op: Op)
    requires AbsOk(a) && (op.Create? ==> op.name in a.names || ValidName(op.name))
    ensures AbsOk(Apply(a, op))
  {
  }

  // ---------------------------------------------------------------------------
  // Laws of runs
  // ---------------------------------------------------------------------------

  /** The names a run creates, in order of first creation. */
  function Created(names: seq<Name>, ops: seq<Op>): seq<Name> {
    if ops == [] then names
    else
      var before := Created(names, ops[..|ops| - 1]);
      var op := ops[|ops| - 1];
      if op.Create? && op.name !in before then before + [op.name] else before
  }

  /** Over any run the directory is the creation order: older entries keep their position,
      names stay unique, and only the first creation of a name counts. */
  lemma {:induction false} DirectoryIsCreationOrder(a: AbsFs, ops: seq<Op>)
    requires AbsOk(a) && forall n | 0 <= n < |ops| :: ops[n].Create? ==> ValidName(ops[n].name)
    ensures Run(a, ops).names == Created(a.names, ops) && AbsOk(Run(a, ops))
    ensures a.names <= Run(a, ops).names
    ensures forall n | 0 <= n < |ops| && ops[n].Create? :: ops[n].name in Run(a, ops).names
  {
    hide ValidName, AbsOk;
    if ops != [] {
      var n := |ops| - 1;
      var before := Run(a, ops[..n]);
      assert forall i | 0 <= i < n :: ops[..n][i] == ops[i];
      DirectoryIsCreationOrder(a, ops[..n]);
      ApplyOk(before, ops[n]);
      NamesKept(before, ops[n]);
    }
  }

  lemma NamesKept(a: AbsFs, op: Op)
    ensures a.names <= Apply(a, op).names
    ensures forall m | m in a.names :: m in Apply(a, op).names
    ensures op.Create? ==> op.name in Apply(a, op).names
    ensures Apply(a, op).names == if op.Create? && op.name !in a.names then a.names + [op.name] else a.names
  {
  }

  /** A file changes only by operations on it. */
  lemma {:induction false} UntouchedFile(a: AbsFs, ops: seq<Op>, i: nat)
    requires |a.names| == |a.data| && i < |a.data|
    requires forall n | 0 <= n < |ops| :: !(ops[n].Write? && ops[n].file == i) && !(ops[n].Clear? && ops[n].file == i)
    ensures |Run(a, ops).data| == |Run(a, ops).names| >= |a.data|
    ensures Run(a, ops).data[i] == a.data[i]
  {
    if ops != [] {
      var n := |ops| - 1;
      assert forall j | 0 <= j < n :: ops[..n][j] == ops[j];
      UntouchedFile(a, ops[..n], i);
    }
  }

  /** What a write leaves behind: its bytes in its range, the old bytes elsewhere, zeros in
      the gap before it. */
  lemma WriteBytes(s: seq<byte>, off: nat, buf: seq<byte>, k: nat)
    requires k < |WriteSpec(s, off, buf)|
    ensures WriteSpec(s, off, buf)[k] ==
            if off <= k < off + |buf| then buf[k - off] else if k < |s| then s[k] else 0
    ensures |WriteSpec(s, off, buf)| == if |s| < off + |buf| then off + |buf| else |s|
  {
  }

  /** What a read returns: the bytes of the file from `off`, as many as asked for and as there are. */
  lemma ReadBytes(s: seq<byte>, off: nat, len: nat)
    ensures |ReadSpec(s, off, len)| == if off >= |s| then 0 else Min(len, |s| - off)
    ensures forall j | 0 <= j < |ReadSpec(s, off, len)| :: off + j < |s| && ReadSpec(s, off, len)[j] == s[off + j]
  {
  }

  /** A read of what was just written returns it. */
  lemma ReadBack(a: AbsFs, i: nat, off: nat, buf: seq<byte>)
    requires i < |a.data| && buf != []
    ensures Observe(Apply(a, Write(i, off, buf)), Read(i, off, |buf|)) == Bytes(buf)
  {
    var s := WriteSpec(a.data[i], off, buf);
    assert s[off..off + |buf|] == buf;
  }

  // ---------------------------------------------------------------------------
  // Everything seen, from the calls alone
  // ---------------------------------------------------------------------------

  const EMPTY_FS := AbsFs([], [])

  /** The call stores byte `k` of file `i`. */
  predicate Stores(op: Op, i: nat, k: nat) {
    op.Write? && op.file == i && op.off <= k < op.off + |op.buf|
  }

  /** Byte `k` of file `i`: from the last write over it since the last clear, else zero. */
  function LastByte(ops: seq<Op>, i: nat, k: nat): byte {
    if ops == [] then 0
    else
      var op := ops[|ops| - 1];
      if Stores(op, i, k) then op.buf[k - op.off]
      else if op == Clear(i) then 0
      else LastByte(ops[..|ops| - 1], i, k)
  }

  /** Length of file `i`: the furthest end of a write since the last clear. */
  function LastLength(ops: seq<Op>, i: nat): nat {
    if ops == [] then 0
    else
      var op, before := ops[|ops| - 1], LastLength(ops[..|ops| - 1], i);
      if op.Write? && op.file == i then Max(before, op.off + |op.buf|)
      else if op == Clear(i) then 0
      else before
  }

  /** Writes and clears are of files that exist. */
  ghost predicate OnFiles(ops: seq<Op>) {
    forall n | 0 <= n < |ops| ::
      (ops[n].Write? || ops[n].Clear? ==> ops[n].file < |Created([], ops[..n])|)
  }

  /** The bytes of file `i` are those the calls call for. */
  ghost predicate FromCalls(s: seq<byte>, ops: seq<Op>, i: nat) {
    |s| == LastLength(ops, i) && forall k: nat | k < |s| :: s[k] == LastByte(ops, i, k)
  }

  lemma {:induction false} LastByteInside(ops: seq<Op>, i: nat, k: nat)
    requires k >= LastLength(ops, i)
    ensures LastByte(ops, i, k) == 0
  {
    if ops != [] && ops[|ops| - 1] != Clear(i) { LastByteInside(ops[..|ops| - 1], i, k); }
  }

  lemma NoFileYet(ops: seq<Op>, i: nat)
    requires OnFiles(ops) && i >= |Created([], ops)|
    ensures LastLength(ops, i) == 0
    decreases |ops|
  {
    if ops != [] {
      var n := |ops| - 1;
      OnFilesBefore(ops, n);
      NoFileYet(ops[..n], i);
      assert ops[n].Write? ==> ops[n].file < |Created([], ops[..n])|;
    }
  }

  lemma OnFilesBefore(ops: seq<Op>, n: nat)
    requires OnFiles(ops) && n <= |ops|
    ensures OnFiles(ops[..n])
  {
    forall m | 0 <= m < n && (ops[m].Write? || ops[m].Clear?)
      ensures ops[..n][m].file < |Created([], ops[..n][..m])|
    {
      assert ops[..n][..m] == ops[..m];
    }
  }

  /** After every run from the empty file system, every file holds exactly the bytes the calls on
      it call for. In particular a new file and a cleared file are empty. */
  lemma {:induction false} FilesFromCalls(ops: seq<Op>)
    requires OnFiles(ops)
    ensures Run(EMPTY_FS, ops).names == Created([], ops) && |Run(EMPTY_FS, ops).data| == |Created([], ops)|
    ensures forall i | 0 <= i < |Run(EMPTY_FS, ops).data| :: FromCalls(Run(EMPTY_FS, ops).data[i], ops, i)
  {
    hide FromCalls, WriteSpec;
    if ops != [] {
      var n := |ops| - 1;
      var before, after := Run(EMPTY_FS, ops[..n]), Run(EMPTY_FS, ops);
      OnFilesBefore(ops, n);
      FilesFromCalls(ops[..n]);
      forall i | 0 <= i < |after.data| ensures FromCalls(after.data[i], ops, i) {
        if i < |before.data| {
          FileStep(before.data[i], ops, i);
        } else {
          NoFileYet(ops[..n], i);
          NewFile(ops, i);
        }
      }
    }
  }

  /** The file after the last call. */
  lemma FileStep(s: seq<byte>, ops: seq<Op>, i: nat)
    requires ops != [] && FromCalls(s, ops[..|ops| - 1], i)
    ensures var op := ops[|ops| - 1];
      var s' := if op.Write? && op.file == i then WriteSpec(s, op.off, op.buf) else if op == Clear(i) then [] else s;
      FromCalls(s', ops, i)
  {
    hide WriteSpec;
    var before, op := ops[..|ops| - 1], ops[|ops| - 1];
    if op.Write? && op.file == i {
      var s' := WriteSpec(s, op.off, op.buf);
      WriteLength(s, op.off, op.buf);
      forall k: nat | k < |s'| ensures s'[k] == LastByte(ops, i, k) {
        WriteBytes(s, op.off, op.buf, k);
        if k >= |s| { LastByteInside(before, i, k); }
      }
    }
  }

  lemma WriteLength(s: seq<byte>, off: nat, buf: seq<byte>)
    ensures |WriteSpec(s, off, buf)| == Max(|s|, off + |buf|)
  {
  }

  lemma NewFile(ops: seq<Op>, i: nat)
    requires ops != [] && LastLength(ops[..|ops| - 1], i) == 0 && ops[|ops| - 1].Create?
    ensures FromCalls([], ops, i)
  {
  }

  /** The last write over a byte is what the byte holds, as long as the file is not cleared. */
  lemma {:induction false} LastWriteStays(ops: seq<Op>, n: nat, k: nat)
    requires n < |ops| && ops[n].Write? && ops[n].off <= k < ops[n].off + |ops[n].buf|
    requires forall m | n < m < |ops| ::
               && ops[m] != Clear(ops[n].file)
               && (ops[m].Write? && ops[m].file == ops[n].file ==> !(ops[m].off <= k < ops[m].off + |ops[m].buf|))
    ensures LastByte(ops, ops[n].file, k) == ops[n].buf[k - ops[n].off] && k < LastLength(ops, ops[n].file)
    decreases |ops|
  {
    var last := |ops| - 1;
    if n < last {
      assert ops[..last][n] == ops[n] && forall m | 0 <= m < last :: ops[..last][m] == ops[m];
      LastWriteStays(ops[..last], n, k);
    }
  }

  /** A byte nobody wrote since the last clear is zero, and without a write the file is empty. */
  lemma {:induction false} UnwrittenIsZero(ops: seq<Op>, i: nat, k: nat, n: nat)
    requires n <= |ops| && (n == 0 || ops[n - 1] == Clear(i))
    requires forall m | n <= m < |ops| && ops[m].Write? && ops[m].file == i ::
               !(ops[m].off <= k < ops[m].off + |ops[m].buf|)
    ensures LastByte(ops, i, k) == 0
    ensures (forall m | n <= m < |ops| :: !(ops[m].Write? && ops[m].file == i)) ==> LastLength(ops, i) == 0
    decreases |ops|
  {
    var last := |ops| - 1;
    if n < |ops| {
      assert forall m | 0 <= m < last :: ops[..last][m] == ops[m];
      UnwrittenIsZero(ops[..last], i, k, n);
    }
  }

  /** What a caller must see of a call, from the calls before it. */
  ghost predicate MustSee(ops: seq<Op>, op: Op, seen: Seen) {
    var names := Created([], ops);
    match op
    case Create(n) => seen == Inode(if n in names then None else Some(|names| + 1))
    case Write(_, _, buf) => seen == Written(|buf|)
    case Clear(_) => seen == Nothing
    case Read(i, off, len) =>
      var size := LastLength(ops, i);
      && seen.Bytes? && |seen.bytes| == (if off >= size then 0 else Min(len, size - off))
      && forall j: nat | j < |seen.bytes| :: seen.bytes[j] == LastByte(ops, i, off + j)
    case Lookup(n) =>
      && seen.Inode? && (seen.id.Some? <==> n in names)
      && (seen.id.Some? ==> 1 <= seen.id.value <= |names| && names[seen.id.value - 1] == n)
    case List => seen == Names(names)
  }

  /** The description, seen from outside: after any run from the empty file system every result is
      determined by the calls made so far. */
  lemma SeenFromCalls(ops: seq<Op>, op: Op)
    requires OnFiles(ops) && (op.Read? ==> op.file < |Created([], ops)|)
    ensures MustSee(ops, op, Observe(Run(EMPTY_FS, ops), op))
  {
    hide ReadSpec, Run, Created, LastByte, LastLength, InodeOf, Min, OnFiles;
    FilesFromCalls(ops);
    match op
    case Read(i, off, len) =>
      ReadBytes(Run(EMPTY_FS, ops).data[i], off, len);
      assert FromCalls(Run(EMPTY_FS, ops).data[i], ops, i);
    case Lookup(n) => InodeOfFound(Created([], ops), n);
    case _ =>
  }

  lemma {:induction false} InodeOfFound(names: seq<Name>, n: Name)
    ensures InodeOf(names, n).Some? <==> n in names
    ensures InodeOf(names, n).Some? ==>
              1 <= InodeOf(names, n).value <= |names| && names[InodeOf(names, n).value - 1] == n
  {
    if names != [] {
      var k := |names| - 1;
      InodeOfFound(names[..k], n);
      assert names == names[..k] + [names[k]];
    }
  }

  lemma {:induction false} RunOn(a: AbsFs, ops: seq<Op>, more: seq<Op>)
    ensures Run(Run(a, ops), more) == Run(a, ops + more)
  {
    if more == [] {
      assert ops + more == ops;
    } else {
      var n, all := |more| - 1, ops + more;
      assert all[..|all| - 1] == ops + more[..n];
      RunOn(a, ops, more[..n]);
    }
  }

  /** Enabled calls are on files that exist. */
  lemma {:induction false} EnabledOnFiles(ops: seq<Op>, g: Geometry)
    requires AllEnabled(EMPTY_FS, ops, g)
    ensures OnFiles(ops)
  {
    hide Used, ValidName, WriteSpec, Run;
    if ops != [] {
      var n := |ops| - 1;
      forall m | 0 <= m < n ensures Enabled(Run(EMPTY_FS, ops[..n][..m]), ops[..n][m], g) {
        assert ops[..n][..m] == ops[..m];
      }
      EnabledOnFiles(ops[..n], g);
      FilesFromCalls(ops[..n]);
      forall m | 0 <= m < |ops| && (ops[m].Write? || ops[m].Clear?) ensures ops[m].file < |Created([], ops[..m])| {
        if m < n { assert ops[..n][..m] == ops[..m] && ops[..n][m] == ops[m]; }
      }
    }
  }

  /** Result `n` of a second run after a first one. */
  lemma SeenInRun(ops: seq<Op>, more: seq<Op>, n: nat, g: Geometry)
    requires AllEnabled(EMPTY_FS, ops, g) && AllEnabled(Run(EMPTY_FS, ops), more, g) && n < |more|
    ensures MustSee(ops + more[..n], more[n], Observe(Run(EMPTY_FS, ops + more[..n]), more[n]))
  {
    hide Enabled, Run, MustSee, OnFiles, Created, Observe;
    var all := ops + more[..n];
    forall m | 0 <= m < |all| ensures Enabled(Run(EMPTY_FS, all[..m]), all[m], g) {
      if m < |ops| {
        assert all[..m] == ops[..m];
      } else {
        assert all[..m] == ops + more[..m - |ops|];
        RunOn(EMPTY_FS, ops, more[..m - |ops|]);
      }
    }
    EnabledOnFiles(all, g);
    RunOn(EMPTY_FS, ops, more[..n]);
    ReadOnFile(all, more[n], g);
    SeenFromCalls(all, more[n]);
  }

  lemma ReadOnFile(ops: seq<Op>, op: Op, g: Geometry)
    requires OnFiles(ops) && Enabled(Run(EMPTY_FS, ops), op, g)
    ensures op.Read? ==> op.file < |Created([], ops)|
  {
    hide Run, Created, OnFiles;
    FilesFromCalls(ops);
  }
}
