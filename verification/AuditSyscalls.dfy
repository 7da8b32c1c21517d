/** The two audit system calls (os/src/syscall/security.rs) on the ring and the caller's memory:
    structures in their 80-byte layout, copied through the caller's address space. */
module AuditSyscalls {
  import opened Audit
  import opened AuditLayout
  import opened Bytes
  import opened Frames
  import opened MemorySets
  import opened Numbers
  import opened PageTables
  import opened SecurityApi
  import opened Sv39
  import UA = UserAccess

  /** Null and overflow checks of the output range. */
  predicate OutputRangeOk(start: nat, count: nat, itemSize: nat) {
    var bytes := count * itemSize;
    bytes < U64_LIMIT && !(bytes != 0 && start == 0) && start + bytes < U64_LIMIT
  }

  /** A failed call leaves one event and returns its negated error number; a successful call
      leaves none. */
  method FinishControlCall(ring: AuditRing, op: ControlOperation, s: IpcSubject, amount: nat, outcome: IpcResult<nat>,
                           time: nat)
    returns (ret: int)
    requires ring.Valid()
    modifies ring, ring.events
    ensures ring.Valid()
    ensures outcome.Ok? ==> ret == outcome.value && ring.history == old(ring.history)
    ensures outcome.Err? ==>
              && ret == ErrorToRet(outcome.error)
              && ring.history == Append(old(ring.history), ControlEvent(op, s, amount, outcome.error, time))
    ensures outcome.Err? && |old(ring.history)| + 1 < U64_MAX ==>
              && |ring.history| == |old(ring.history)| + 1
              && var e := ring.history[|old(ring.history)|];
              && e.errno == -ret && e.resultValue == 0 && e.timestampMs == time
              && e.operation == (if op.ControlRead? then 5 else 6)
              && e.requestedAmount == (if op.ControlRead? then amount else 0)
              && e.subjectPid == s.pid && e.subjectUid == s.uid && e.objectId == 0 && e.objectOwnerUid == 0xFFFF_FFFF
  {
    match outcome {
      case Ok(v) => ret := v;
      case Err(e) =>
        ring.Push(ControlEvent(op, s, amount, e, time));
        ret := ErrorToRet(e);
    }
  }

  function Records(b: AuditBatch): (r: seq<AuditRecordV1>)
    ensures |r| == |b.events|
  {
    seq(|b.events|, i requires 0 <= i < |b.events| => RecordAt(b, i))
  }

  /** The range check on the numbers: no overflow, and no null address unless nothing is written. */
  lemma OutputRange(start: nat, count: nat, itemSize: nat)
    requires start < U64_LIMIT
    ensures OutputRangeOk(start, count, itemSize) <==>
            start + count * itemSize < 0x1_0000_0000_0000_0000 && (start != 0 || count * itemSize == 0)
  {
  }

  // ---------- copying ----------

  /** These bytes stand at an address of the caller. */
  ghost predicate Stored(mem: seq<Frame>, root: nat, ptr: nat, b: seq<byte>) {
    && root < |mem| && UA.AddrsIn(mem, UA.PhysRange(mem, root, ptr, |b|))
    && UA.ReadAll(mem, UA.PhysRange(mem, root, ptr, |b|)) == b
  }

  /** What the program finds at an address of its own. */
  function Load(mem: seq<Frame>, root: nat, ptr: nat, len: nat): (b: seq<byte>)
    requires root < |mem| && UA.AddrsIn(mem, UA.PhysRange(mem, root, ptr, len))
    ensures |b| == len
  {
    UA.ReadAll(mem, UA.PhysRange(mem, root, ptr, len))
  }

  /** Bytes written to distinct places are stored there. */
  lemma WriteStored(mem: seq<Frame>, mem': seq<Frame>, root: nat, ptr: nat, b: seq<byte>)
    requires root < |mem| && |mem'| == |mem|
    requires UA.AddrsIn(mem, UA.PhysRange(mem, root, ptr, |b|))
    requires mem' == UA.WriteAll(mem, UA.PhysRange(mem, root, ptr, |b|), b)
    requires UA.NoDuplicates(UA.PhysRange(mem, root, ptr, |b|))
    requires forall v: nat :: Translate(mem', root, v) == Translate(mem, root, v)
    ensures Stored(mem', root, ptr, b)
  {
    hide UA.WriteAll, UA.ReadAll, UA.PhysRange, Translate, UA.NoDuplicates, UA.RangeOk;
    UA.SameRange(mem, mem', root, ptr, |b|);
    UA.ReadBack(mem, UA.PhysRange(mem, root, ptr, |b|), b);
  }

  lemma {:induction false} WriteAllTwice(mem: seq<Frame>, a: seq<(nat, nat)>, x: seq<byte>, b: seq<(nat, nat)>,
                                         y: seq<byte>)
    requires UA.AddrsIn(mem, a) && UA.AddrsIn(mem, b) && |x| == |a| && |y| == |b|
    ensures UA.AddrsIn(mem, a + b) && UA.WriteAll(UA.WriteAll(mem, a, x), b, y) == UA.WriteAll(mem, a + b, x + y)
    decreases |b|
  {
    if b == [] {
      assert a + b == a && x + y == x;
    } else {
      var n := |b| - 1;
      WriteAllTwice(mem, a, x, b[..n], y[..n]);
      var all, vals := a + b, x + y;
      assert all[..|all| - 1] == a + b[..n] && vals[..|all| - 1] == x + y[..n];
      assert all[|all| - 1] == b[n] && vals[|all| - 1] == y[n];
    }
  }

  lemma RangeSplit(mem: seq<Frame>, root: nat, ptr: nat, m: nat, n: nat)
    requires root < |mem|
    ensures UA.PhysRange(mem, root, ptr, m + n) == UA.PhysRange(mem, root, ptr, m) + UA.PhysRange(mem, root, ptr + m, n)
  {
  }

  /** The place of record `i` in the caller's array may be written. */
  ghost predicate PlaceOk(mem: seq<Frame>, root: nat, start: nat, i: nat) {
    root < |mem| && UA.RangeOk(mem, root, start + RECORD_SIZE * i, RECORD_SIZE, true)
  }

  /** The array up to record `n` has been filled. */
  ghost predicate FilledTo(mem: seq<Frame>, mem': seq<Frame>, root: nat, start: nat, rs: seq<AuditRecordV1>, n: nat)
    requires n <= |rs|
  {
    && root < |mem| && UA.AddrsIn(mem, UA.PhysRange(mem, root, start, RECORD_SIZE * n))
    && mem' == UA.WriteAll(mem, UA.PhysRange(mem, root, start, RECORD_SIZE * n), Flat(rs[..n]))
  }

  lemma FillOne(mem: seq<Frame>, mem': seq<Frame>, root: nat, start: nat, rs: seq<AuditRecordV1>, n: nat)
    requires n < |rs| && FilledTo(mem, mem', root, start, rs, n) && PlaceOk(mem, root, start, n) && |mem'| == |mem|
    requires forall v: nat :: Translate(mem', root, v) == Translate(mem, root, v)
    requires UA.AddrsIn(mem', UA.PhysRange(mem', root, start + RECORD_SIZE * n, RECORD_SIZE))
    ensures FilledTo(mem, AfterWrite(mem', root, start + RECORD_SIZE * n, EncodeRecord(rs[n])), root, start, rs, n + 1)
  {
    hide UA.WriteAll, UA.PhysRange, UA.RangeOk, Translate, EncodeRecord;
    var ptr := start + RECORD_SIZE * n;
    UA.SameRange(mem, mem', root, ptr, RECORD_SIZE);
    RangeSplit(mem, root, start, RECORD_SIZE * n, RECORD_SIZE);
    assert rs[..n + 1][..n] == rs[..n];
    WriteAllTwice(mem, UA.PhysRange(mem, root, start, RECORD_SIZE * n), Flat(rs[..n]),
                  UA.PhysRange(mem, root, ptr, RECORD_SIZE), EncodeRecord(rs[n]));
  }

  /** Copy records to an array in the caller's memory, stopping at the first place that cannot be
      written. What is copied is exactly the encoded prefix, and only data frames of the caller
      change. */
  method CopyRecords(m: Machine, space: MemorySet, start: nat, rs: seq<AuditRecordV1>) returns (n: nat)
    requires space.Valid(m) && start + RECORD_SIZE * |rs| < U64_LIMIT
    modifies m`mem
    ensures space.Valid(m) && |m.mem| == |old(m.mem)| && n <= |rs|
    ensures FilledTo(old(m.mem), m.mem, space.pageTable.root, start, rs, n)
    ensures (forall i: nat | i < n :: PlaceOk(old(m.mem), space.pageTable.root, start, i))
            && (n < |rs| ==> !PlaceOk(old(m.mem), space.pageTable.root, start, n))
    ensures forall p | 0 <= p < |m.mem| && p !in space.owner :: m.mem[p] == old(m.mem)[p]
    ensures forall v: nat :: Translate(m.mem, space.pageTable.root, v) == Translate(old(m.mem), space.pageTable.root, v)
  {
    hide MemorySet.Valid, UA.WriteAll, UA.PhysRange, UA.RangeOk, Translate, EncodeRecord, FilledTo, AfterWrite;
    ghost var mem, root := m.mem, space.pageTable.root;
    RootIn(m, space);
    StartFill(mem, root, start, rs);
    n := 0;
    while n < |rs|
      invariant n <= |rs| && space.Valid(m) && |m.mem| == |mem|
      invariant FilledTo(mem, m.mem, root, start, rs, n)
      invariant forall i: nat | i < n :: PlaceOk(mem, root, start, i)
      invariant forall p | 0 <= p < |m.mem| && p !in space.owner :: m.mem[p] == mem[p]
      invariant forall v: nat :: Translate(m.mem, root, v) == Translate(mem, root, v)
    {
      var ptr := start + RECORD_SIZE * n;
      UA.SameRange(mem, m.mem, root, ptr, RECORD_SIZE);
      if PlaceOk(mem, root, start, n) {
        UserRangeIsData(m, space, ptr, RECORD_SIZE, true);
        FillOne(mem, m.mem, root, start, rs, n);
      }
      var r := CopyOut(m, space, ptr, EncodeRecord(rs[n]));
      if !r.Ok? {
        return;
      }
      n := n + 1;
    }
  }

  lemma StartFill(mem: seq<Frame>, root: nat, start: nat, rs: seq<AuditRecordV1>)
    requires root < |mem|
    ensures FilledTo(mem, mem, root, start, rs, 0)
  {
    assert rs[..0] == [];
  }

  /** A filled array is what the program finds there. */
  lemma FilledReads(m: Machine, space: MemorySet, mem: seq<Frame>, start: nat, rs: seq<AuditRecordV1>)
    requires space.Valid(m) && space.pageTable.root < |mem| == |m.mem|
    requires FilledTo(mem, m.mem, space.pageTable.root, start, rs, |rs|)
    requires forall v: nat :: Translate(m.mem, space.pageTable.root, v) == Translate(mem, space.pageTable.root, v)
    requires forall i: nat | i < |rs| :: PlaceOk(mem, space.pageTable.root, start, i)
    ensures Stored(m.mem, space.pageTable.root, start, Flat(rs))
  {
    hide MemorySet.Valid, UA.WriteAll, UA.PhysRange, Translate, EncodeRecord, UA.NoDuplicates, UA.PageOk, Stored;
    var root, len := space.pageTable.root, RECORD_SIZE * |rs|;
    assert rs[..|rs|] == rs;
    UA.SameRange(mem, m.mem, root, start, len);
    WholeArray(mem, root, start, |rs|);
    RangeDistinct(m, space, start, len, true);
    WriteStored(mem, m.mem, root, start, Flat(rs));
  }

  /** Places that may be written one by one form a range that may be written. */
  lemma {:induction false} WholeArray(mem: seq<Frame>, root: nat, start: nat, n: nat)
    requires root < |mem| && forall i: nat | i < n :: PlaceOk(mem, root, start, i)
    ensures UA.RangeOk(mem, root, start, RECORD_SIZE * n, true)
  {
    if n > 0 {
      assert PlaceOk(mem, root, start, n - 1);
      WholeArray(mem, root, start, n - 1);
    }
  }

  /** And the other way round. */
  lemma EachPlace(mem: seq<Frame>, root: nat, start: nat, n: nat)
    requires root < |mem| && UA.RangeOk(mem, root, start, RECORD_SIZE * n, true)
    ensures forall i: nat | i < n :: PlaceOk(mem, root, start, i)
  {
    hide UA.PageOk;
  }

  // ---------- call 602 ----------

  /** The whole batch can be written to the caller's array; nothing is asked for an empty one. */
  ghost predicate Writable(b: AuditBatch, mem: seq<Frame>, root: nat, start: nat) {
    |b.events| == 0 ||
    (OutputRangeOk(start, |b.events|, RECORD_SIZE) && forall i: nat | i < |b.events| :: PlaceOk(mem, root, start, i))
  }

  /** Call 602 on the ring and the caller's memory: permission, snapshot, range check, copies. */
  method ReadRecords(ring: AuditRing, m: Machine, space: MemorySet, s: IpcSubject, start: nat, capacity: nat,
                     after: nat)
    returns (r: IpcResult<nat>)
    requires ring.Valid() && after <= U64_MAX && space.Valid(m)
    modifies m`mem
    ensures ring.Valid() && space.Valid(m) && |m.mem| == |old(m.mem)|
    ensures var b := Visible(ring.history, after, capacity);
      && (r.Ok? <==> MayAudit(s) && Writable(b, old(m.mem), space.pageTable.root, start))
      && (r.Ok? ==> r.value == |b.events| && Stored(m.mem, space.pageTable.root, start, Flat(Records(b))))
      && (r.Err? ==> r.error == if MayAudit(s) then InvalidAddress else PermissionDenied)
    ensures forall p | 0 <= p < |m.mem| && p !in space.owner :: m.mem[p] == old(m.mem)[p]
    ensures forall v: nat :: Translate(m.mem, space.pageTable.root, v) == Translate(old(m.mem), space.pageTable.root, v)
  {
    hide AuditRing.Valid, MemorySet.Valid, Visible, Stored, FilledTo, PlaceOk, Translate, OutputRangeOk;
    ghost var root := space.pageTable.root;
    if !MayAudit(s) { return Err(PermissionDenied); }
    RootIn(m, space);
    NothingStored(m.mem, root, start);
    var batch := EMPTY_BATCH;
    if capacity == 0 {
      VisibleNone(ring.history, after, 0);
    } else {
      batch := ring.Snapshot(after, capacity);
    }
    if |batch.events| == 0 {
      assert Records(batch) == [];
      return Ok(0);
    }
    if !OutputRangeOk(start, |batch.events|, RECORD_SIZE) { return Err(InvalidAddress); }
    ghost var mem := m.mem;
    InRange(start, |batch.events|);
    var n := CopyRecords(m, space, start, Records(batch));
    if n < |batch.events| { return Err(InvalidAddress); }
    FilledReads(m, space, mem, start, Records(batch));
    r := Ok(|batch.events|);
  }

  lemma NothingStored(mem: seq<Frame>, root: nat, start: nat)
    requires root < |mem|
    ensures Stored(mem, root, start, [])
  {
  }

  lemma InRange(start: nat, count: nat)
    requires OutputRangeOk(start, count, RECORD_SIZE)
    ensures start + RECORD_SIZE * count < U64_LIMIT
  {
  }

  /** The whole call. On success the caller's array holds exactly the visible records in their
      80-byte layout and the log is unchanged; on failure one event says why. Memory of other
      processes is untouched either way. */
  method SysAuditRead(ring: AuditRing, m: Machine, space: MemorySet, s: IpcSubject, start: nat, capacity: nat,
                      after: nat, time: nat)
    returns (ret: int)
    requires ring.Valid() && after <= U64_MAX && space.Valid(m)
    modifies ring, ring.events, m`mem
    ensures ring.Valid() && space.Valid(m) && |m.mem| == |old(m.mem)|
    ensures var b := Visible(old(ring.history), after, capacity);
      && (ret >= 0 <==> MayAudit(s) && Writable(b, old(m.mem), space.pageTable.root, start))
      && (ret >= 0 ==> ret == |b.events| && Stored(m.mem, space.pageTable.root, start, Flat(Records(b)))
                       && ring.history == old(ring.history))
    ensures ret < 0 ==>
              var e := if MayAudit(s) then InvalidAddress else PermissionDenied;
              && ret == ErrorToRet(e)
              && ring.history == Append(old(ring.history), ControlEvent(ControlRead, s, capacity, e, time))
    ensures forall p | 0 <= p < |m.mem| && p !in space.owner :: m.mem[p] == old(m.mem)[p]
    ensures forall v: nat :: Translate(m.mem, space.pageTable.root, v) == Translate(old(m.mem), space.pageTable.root, v)
  {
    hide AuditRing.Valid, MemorySet.Valid, Visible, Stored, PlaceOk, OutputRangeOk;
    var r := ReadRecords(ring, m, space, s, start, capacity, after);
    ret := FinishControlCall(ring, ControlRead, s, capacity, r, time);
  }

  // ---------- call 603 ----------

  /** Permission first, then the arguments, then the address. */
  ghost function StatOutcome(s: IpcSubject, mem: seq<Frame>, root: nat, start: nat, outSize: nat, flags: nat):
    IpcResult<nat>
    requires root < |mem|
  {
    if !MayAudit(s) then Err(PermissionDenied)
    else if flags != 0 || outSize < RECORD_SIZE then Err(InvalidArgument)
    else if OutputRangeOk(start, 1, RECORD_SIZE) && UA.RangeOk(mem, root, start, RECORD_SIZE, true) then Ok(0)
    else Err(InvalidAddress)
  }

  /** Call 603 up to its return value: one consistent set of counters, in 80 bytes. */
  method ReadStats(ring: AuditRing, m: Machine, space: MemorySet, s: IpcSubject, start: nat, outSize: nat, flags: nat)
    returns (r: IpcResult<nat>)
    requires ring.Valid() && space.Valid(m)
    modifies m`mem
    ensures ring.Valid() && space.Valid(m) && |m.mem| == |old(m.mem)|
    ensures r == StatOutcome(s, old(m.mem), space.pageTable.root, start, outSize, flags)
    ensures r.Ok? ==> Stored(m.mem, space.pageTable.root, start, EncodeStats(StatsOf(ring.history)))
    ensures forall p | 0 <= p < |m.mem| && p !in space.owner :: m.mem[p] == old(m.mem)[p]
    ensures forall v: nat :: Translate(m.mem, space.pageTable.root, v) == Translate(old(m.mem), space.pageTable.root, v)
  {
    hide AuditRing.Valid, MemorySet.Valid, Stored, Translate, UA.RangeOk, UA.PhysRange, UA.WriteAll, UA.NoDuplicates;
    hide StatsOf, EncodeStats;
    if !MayAudit(s) { return Err(PermissionDenied); }
    if flags != 0 || outSize < RECORD_SIZE { return Err(InvalidArgument); }
    if !OutputRangeOk(start, 1, RECORD_SIZE) { return Err(InvalidAddress); }
    RootIn(m, space);
    ghost var mem, root := m.mem, space.pageTable.root;
    if UA.RangeOk(mem, root, start, RECORD_SIZE, true) {
      UserRangeIsData(m, space, start, RECORD_SIZE, true);
      RangeDistinct(m, space, start, RECORD_SIZE, true);
    }
    var stats := ring.Stats();
    var c := CopyOut(m, space, start, EncodeStats(stats));
    if !c.Ok? { return Err(InvalidAddress); }
    WriteStored(mem, m.mem, root, start, EncodeStats(stats));
    r := Ok(0);
  }

  /** The whole call: the counters of the log stand in the caller's memory and the log is
      unchanged, or one event says why not. */
  method SysIpcStat(ring: AuditRing, m: Machine, space: MemorySet, s: IpcSubject, start: nat, outSize: nat, flags: nat,
                    time: nat)
    returns (ret: int)
    requires ring.Valid() && space.Valid(m)
    modifies ring, ring.events, m`mem
    ensures ring.Valid() && space.Valid(m) && |m.mem| == |old(m.mem)|
    ensures var o := StatOutcome(s, old(m.mem), space.pageTable.root, start, outSize, flags);
      if o.Ok? then
        && ret == 0 && ring.history == old(ring.history)
        && Stored(m.mem, space.pageTable.root, start, EncodeStats(StatsOf(ring.history)))
      else
        && ret == ErrorToRet(o.error)
        && ring.history == Append(old(ring.history), ControlEvent(ControlStat, s, 0, o.error, time))
    ensures forall p | 0 <= p < |m.mem| && p !in space.owner :: m.mem[p] == old(m.mem)[p]
    ensures forall v: nat :: Translate(m.mem, space.pageTable.root, v) == Translate(old(m.mem), space.pageTable.root, v)
  {
    hide AuditRing.Valid, MemorySet.Valid, Stored, Translate, UA.RangeOk, StatsOf, EncodeStats, OutputRangeOk;
    var r := ReadStats(ring, m, space, s, start, outSize, flags);
    ret := FinishControlCall(ring, ControlStat, s, 0, r, time);
  }
}
