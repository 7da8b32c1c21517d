/** The paging log reader (user/src/bin/auditctl.rs) on the ring of this kernel, with its buffers
    in its own memory. */
module AuditPaging {
  import opened Audit
  import opened AuditLayout
  import opened AuditSyscalls
  import opened Frames
  import opened MemorySets
  import opened Numbers
  import opened PageTables
  import opened SecurityApi
  import opened Sv39
  import Reader = AuditReader
  import UA = UserAccess

  /** The log at call `k` when `batches(j)` are the events recorded between calls `j` and `j + 1`. */
  function LogAt(h: seq<AuditEvent>, batches: nat -> seq<AuditEvent>, k: nat): seq<AuditEvent> {
    if k == 0 then h else AppendAll(LogAt(h, batches, k - 1), batches(k - 1))
  }

  /** A log of numbered events whose fields fit. */
  ghost predicate GoodLog(h: seq<AuditEvent>) {
    Numbered(h) && AllFit(h) && |h| < U64_MAX
  }

  lemma {:induction false} LogGrows(h: seq<AuditEvent>, batches: nat -> seq<AuditEvent>, j: nat, k: nat)
    requires GoodLog(h) && j <= k && forall i: nat :: AllFit(batches(i))
    ensures GoodLog(LogAt(h, batches, k)) && LogAt(h, batches, j) <= LogAt(h, batches, k)
    decreases k
  {
    if k > 0 {
      LogGrows(h, batches, if j < k then j else k - 1, k - 1);
      AppendAllExtends(LogAt(h, batches, k - 1), batches(k - 1));
      AppendFits(LogAt(h, batches, k - 1), batches(k - 1));
    }
  }

  /** Both buffers lie in memory the process may write. */
  ghost predicate BuffersOk(mem: seq<Frame>, root: nat, statStart: nat, start: nat) {
    && root < |mem| && OutputRangeOk(statStart, 1, RECORD_SIZE) && OutputRangeOk(start, Reader.BATCH_SIZE, RECORD_SIZE)
    && UA.RangeOk(mem, root, statStart, RECORD_SIZE, true)
    && UA.RangeOk(mem, root, start, RECORD_SIZE * Reader.BATCH_SIZE, true)
  }

  /** A change of memory that leaves the caller's translations alone. */
  ghost predicate SameView(mem: seq<Frame>, mem': seq<Frame>, root: nat) {
    root < |mem| == |mem'| && forall v: nat :: Translate(mem', root, v) == Translate(mem, root, v)
  }

  lemma BuffersStayOk(mem: seq<Frame>, mem': seq<Frame>, root: nat, statStart: nat, start: nat)
    requires BuffersOk(mem, root, statStart, start) && SameView(mem, mem', root)
    ensures BuffersOk(mem', root, statStart, start)
  {
    hide Translate, UA.RangeOk, UA.PhysRange;
    UA.SameRange(mem, mem', root, statStart, RECORD_SIZE);
    UA.SameRange(mem, mem', root, start, RECORD_SIZE * Reader.BATCH_SIZE);
  }

  /** A buffer for a full batch takes every batch. */
  lemma BatchWritable(h: seq<AuditEvent>, cursor: nat, mem: seq<Frame>, root: nat, statStart: nat, start: nat)
    requires BuffersOk(mem, root, statStart, start)
    ensures Writable(Visible(h, cursor, Reader.BATCH_SIZE), mem, root, start)
  {
    hide UA.RangeOk, PlaceOk;
    EachPlace(mem, root, start, Reader.BATCH_SIZE);
  }

  /** What the program decodes from its array is what the log shows. */
  lemma ReadIsHonest(mem: seq<Frame>, root: nat, start: nat, h: seq<AuditEvent>, cursor: nat)
    requires GoodLog(h)
    requires Stored(mem, root, start, Flat(Records(Visible(h, cursor, Reader.BATCH_SIZE))))
    ensures var n := |Visible(h, cursor, Reader.BATCH_SIZE).events|;
      && UA.AddrsIn(mem, UA.PhysRange(mem, root, start, RECORD_SIZE * n))
      && Reader.HonestRead(Reader.ReadResponse(n, Unflat(Load(mem, root, start, RECORD_SIZE * n), n)), h, cursor)
  {
    hide Visible, Flat, Unflat, Fits, UA.ReadAll, UA.PhysRange, GoodLog;
    var b := Visible(h, cursor, Reader.BATCH_SIZE);
    assert forall i | 0 <= i < |b.events| :: Fits(RecordAt(b, i)) by { GoodShown(h, cursor); }
    FlatRoundTrip(Records(b));
  }

  lemma GoodShown(h: seq<AuditEvent>, cursor: nat)
    requires GoodLog(h)
    ensures var b := Visible(h, cursor, Reader.BATCH_SIZE); forall i | 0 <= i < |b.events| :: Fits(RecordAt(b, i))
  {
    ShownFits(h, cursor, Reader.BATCH_SIZE);
  }

  /** The counters of a log, decoded, are honest. */
  lemma StatIsHonest(h: seq<AuditEvent>)
    requires GoodLog(h)
    ensures var d := DecodeStats(EncodeStats(StatsOf(h)));
      Reader.HonestStat(Reader.StatResponse(0, d.abiVersion, d.structSize, d.stats), h)
  {
    hide EncodeStats, DecodeStats, Numbered, AllFit, Count;
    CountAll(h);
    StatsRoundTrip(StatsOf(h));
  }

  /** The reader's statistics call, decoded from its memory, is honest. */
  method ServeStat(ring: AuditRing, m: Machine, space: MemorySet, s: IpcSubject, statStart: nat, time: nat)
    returns (r: Reader.StatResponse)
    requires ring.Valid() && GoodLog(ring.history) && space.Valid(m)
    modifies ring, ring.events, m`mem
    ensures ring.Valid() && space.Valid(m) && Reader.HonestStat(r, old(ring.history))
    ensures r.ret >= 0 <==> StatOutcome(s, old(m.mem), space.pageTable.root, statStart, RECORD_SIZE, 0).Ok?
    ensures r.ret >= 0 ==> ring.history == old(ring.history)
    ensures SameView(old(m.mem), m.mem, space.pageTable.root)
    ensures forall p | 0 <= p < |m.mem| && p !in space.owner :: m.mem[p] == old(m.mem)[p]
  {
    hide AuditRing.Valid, MemorySet.Valid, GoodLog, Translate, StatOutcome, StatsOf, EncodeStats, DecodeStats;
    RootIn(m, space);
    StatIsHonest(ring.history);
    var ret := SysIpcStat(ring, m, space, s, statStart, RECORD_SIZE, 0, time);
    if ret < 0 {
      return Reader.StatResponse(ret, 0, 0, AuditStats(0, 0, 0, 0, 0, 0, 0, 0));
    }
    var d := DecodeStats(Load(m.mem, space.pageTable.root, statStart, RECORD_SIZE));
    r := Reader.StatResponse(ret, d.abiVersion, d.structSize, d.stats);
  }

  /** One read of the reader, after the events of others, decoded from its memory. The answer is
      honest for the log at that moment; a successful read adds nothing to the log. */
  method ServeRead(ring: AuditRing, m: Machine, space: MemorySet, s: IpcSubject, start: nat, ghost h: seq<AuditEvent>,
                   batches: nat -> seq<AuditEvent>, k: nat, cursor: nat, time: nat)
    returns (r: Reader.ReadResponse)
    requires ring.Valid() && cursor <= U64_MAX && space.Valid(m)
    requires ring.history == LogAt(h, batches, k) && GoodLog(LogAt(h, batches, k + 1))
    modifies ring, ring.events, m`mem
    ensures ring.Valid() && space.Valid(m) && Reader.HonestRead(r, LogAt(h, batches, k + 1), cursor)
    ensures r.ret >= 0 <==>
            && MayAudit(s)
            && Writable(Visible(LogAt(h, batches, k + 1), cursor, Reader.BATCH_SIZE), old(m.mem),
                        space.pageTable.root, start)
    ensures r.ret >= 0 ==> ring.history == LogAt(h, batches, k + 1)
    ensures SameView(old(m.mem), m.mem, space.pageTable.root)
    ensures forall p | 0 <= p < |m.mem| && p !in space.owner :: m.mem[p] == old(m.mem)[p]
  {
    hide AuditRing.Valid, MemorySet.Valid, GoodLog, Translate, Visible, Writable, Stored, Flat, Unflat, Records;
    hide UA.PhysRange, UA.AddrsIn, UA.ReadAll, Load;
    RootIn(m, space);
    ring.PushAll(batches(k));
    var ret := SysAuditRead(ring, m, space, s, start, Reader.BATCH_SIZE, cursor, time);
    if ret < 0 {
      return Reader.ReadResponse(ret, []);
    }
    ReadIsHonest(m.mem, space.pageTable.root, start, LogAt(h, batches, k + 1), cursor);
    r := Reader.ReadResponse(ret, Unflat(Load(m.mem, space.pageTable.root, start, RECORD_SIZE * ret), ret));
  }

  /** The reader, with any events recorded between its calls. It shows strictly increasing original
      records; on exit 0 every event up to the end the ring had at the start was shown or lies in a
      reported gap, and the reader itself left no event. It exits with 0 whenever it may audit and
      its buffers can be written. No memory of another process is touched. */
  method ReadFromRing(ring: AuditRing, m: Machine, space: MemorySet, s: IpcSubject, statStart: nat, start: nat,
                      cursor0: nat, batches: nat -> seq<AuditEvent>, time: nat)
    returns (exit: nat, p: Reader.Progress, through: nat, calls: nat)
    requires ring.Valid() && AllFit(ring.history) && space.Valid(m) && cursor0 <= U64_MAX
    requires forall i: nat :: AllFit(batches(i))
    modifies ring, ring.events, m`mem
    ensures ring.Valid() && space.Valid(m) && Reader.Increasing(p.shown, cursor0, through)
    ensures Reader.Original(p.shown, LogAt(old(ring.history), batches, calls))
    ensures Reader.Lost(p.gaps, LogAt(old(ring.history), batches, calls))
    ensures exit == 0 ==> through == |old(ring.history)| && Reader.Complete(p.shown, p.gaps, cursor0, through)
    ensures exit == 0 ==> MayAudit(s) && ring.history == LogAt(old(ring.history), batches, calls)
    ensures MayAudit(s) && BuffersOk(old(m.mem), space.pageTable.root, statStart, start) ==> exit == 0
    ensures |m.mem| == |old(m.mem)| && forall p | 0 <= p < |m.mem| && p !in space.owner :: m.mem[p] == old(m.mem)[p]
  {
    hide AuditRing.Valid, MemorySet.Valid, Visible, AppendAll, BuffersOk, SameView, Translate, GoodLog, AllFit;
    hide Reader.HonestRead, Reader.Original, Reader.Lost, Reader.Complete, Reader.Increasing, Reader.AnswerOf;
    ghost var h, mem, root := ring.history, m.mem, space.pageTable.root;
    RingLog(ring);
    exit, p, through, calls := 1, Reader.Progress(cursor0, [], []), 0, 0;
    Reader.Nothing(cursor0, h);
    MayStat(s, mem, root, statStart, start);
    var stat := ServeStat(ring, m, space, s, statStart, time);
    ViewSize(mem, m.mem, root);
    if stat.ret >= 0 { Reader.HonestStatsPass(stat, h); }
    if !Reader.StatsAccepted(stat) { return; }
    Reader.HonestStatsPass(stat, h);
    through := Reader.ThroughOf(stat);
    var v := Reader.Again;
    while p.cursor < through && v.Again?
      invariant ring.Valid() && space.Valid(m) && ring.history == LogAt(h, batches, calls)
      invariant SameView(mem, m.mem, root) && |m.mem| == |mem|
      invariant forall q | 0 <= q < |m.mem| && q !in space.owner :: m.mem[q] == mem[q]
      invariant cursor0 <= p.cursor && (p.shown != [] || v.Finish? ==> p.cursor <= through) && !v.Fail?
      invariant Reader.Increasing(p.shown, cursor0, p.cursor)
      invariant Reader.Faithful(p, LogAt(h, batches, calls), cursor0, if v.Finish? then through else p.cursor)
      decreases v.Again?, through - p.cursor
    {
      LogGrows(h, batches, calls, calls + 1);
      LogGrows(h, batches, 0, calls + 1);
      ghost var now := LogAt(h, batches, calls + 1);
      MayRead(now, p.cursor, mem, m.mem, root, statStart, start);
      ghost var before := m.mem;
      var r := ServeRead(ring, m, space, s, start, h, batches, calls, p.cursor, time);
      ViewOf(mem, before, m.mem, root);
      Reader.LogLonger(LogAt(h, batches, calls), now, p.shown, p.gaps);
      calls := calls + 1;
      AnswerHere(r, now, p.cursor, through);
      v, p := Reader.Consume(r, cursor0, through, p, now);
      if v.Fail? {
        ShownUpTo(p.shown, cursor0, p.cursor, through);
        return;
      }
    }
    exit := 0;
    ShownUpTo(p.shown, cursor0, p.cursor, through);
    if p.cursor > through { Reader.CompleteShorter(p.shown, p.gaps, cursor0, p.cursor, through); }
  }

  lemma RingLog(ring: AuditRing)
    requires ring.Valid() && AllFit(ring.history)
    ensures GoodLog(ring.history)
  {
  }

  lemma ViewSize(mem: seq<Frame>, mem': seq<Frame>, root: nat)
    requires SameView(mem, mem', root)
    ensures |mem'| == |mem|
  {
  }

  lemma ViewOf(mem: seq<Frame>, mid: seq<Frame>, mem': seq<Frame>, root: nat)
    requires SameView(mem, mid, root) && SameView(mid, mem', root)
    ensures SameView(mem, mem', root) && |mem'| == |mem|
  {
  }

  /** With such buffers the statistics call succeeds. */
  lemma MayStat(s: IpcSubject, mem: seq<Frame>, root: nat, statStart: nat, start: nat)
    ensures MayAudit(s) && BuffersOk(mem, root, statStart, start) ==>
              root < |mem| && StatOutcome(s, mem, root, statStart, RECORD_SIZE, 0).Ok?
  {
  }

  /** And so does every read. */
  lemma MayRead(h: seq<AuditEvent>, cursor: nat, mem: seq<Frame>, mem': seq<Frame>, root: nat, statStart: nat,
                start: nat)
    requires SameView(mem, mem', root)
    ensures BuffersOk(mem, root, statStart, start) ==>
              Writable(Visible(h, cursor, Reader.BATCH_SIZE), mem', root, start)
  {
    hide BuffersOk, SameView, Writable, Visible;
    if BuffersOk(mem, root, statStart, start) {
      BuffersStayOk(mem, mem', root, statStart, start);
      BatchWritable(h, cursor, mem', root, statStart, start);
    }
  }

  lemma AnswerHere(r: Reader.ReadResponse, h: seq<AuditEvent>, cursor: nat, through: nat)
    requires GoodLog(h) && through <= |h| && Reader.HonestRead(r, h, cursor)
    ensures Reader.AnswerOf(r, h, cursor, through)
  {
    hide Reader.HonestRead;
  }

  lemma ShownUpTo(shown: seq<AuditRecordV1>, from: nat, to: nat, through: nat)
    requires Reader.Increasing(shown, from, to) && (shown != [] ==> to <= through)
    ensures Reader.Increasing(shown, from, through)
  {
  }
}
