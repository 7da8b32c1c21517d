/** The paging log reader (user/src/bin/auditctl.rs).

    The kernel is an arbitrary function from calls to responses, so the reader is proved
    safe whatever it answers. It is honest when each answer is what the log shows at that
    moment; between two calls the log may have grown by any events. */
module AuditReader {
  import opened Audit
  import opened Numbers

  const BATCH_SIZE: nat := 32

  /** Return value and buffer of one read call. */
  datatype ReadResponse = ReadResponse(ret: int, buffer: seq<AuditRecordV1>)

  datatype StatResponse = StatResponse(ret: int, abiVersion: nat, structSize: nat, stats: AuditStats)

  /** Answers of the kernel: to the one stat call, and to the `k`-th read call at a cursor. */
  datatype Kernel = Kernel(stat: StatResponse, read: (nat, nat) -> ReadResponse)

  /** Error numbers of recorded events are never negative. */
  ghost predicate NonNegative(h: seq<AuditEvent>) {
    forall i | 0 <= i < |h| :: h[i].errno >= 0
  }

  /** The log as it stood at each call: call 0 is the stat call. */
  ghost predicate Growing(log: nat -> seq<AuditEvent>) {
    && (forall k: nat :: Numbered(log(k)) && NonNegative(log(k)) && |log(k)| < U64_MAX)
    && (forall j: nat, k: nat | j <= k :: log(j) <= log(k))
  }

  ghost predicate HonestRead(r: ReadResponse, h: seq<AuditEvent>, cursor: nat) {
    r.ret < 0 ||
    (var b := Visible(h, cursor, BATCH_SIZE);
     && r.ret == |b.events| <= |r.buffer|
     && forall i | 0 <= i < |b.events| :: r.buffer[i] == RecordAt(b, i))
  }

  ghost predicate HonestStat(r: StatResponse, h: seq<AuditEvent>) {
    r.ret < 0 ||
    (&& r.ret == 0 && r.abiVersion == 1 && r.structSize == 80
     && r.stats.nextSequence == |h| + 1 && r.stats.retained == Min(|h|, AUDIT_RING_CAPACITY) <= r.stats.capacity
     && r.stats.firstSequence + r.stats.retained == r.stats.nextSequence
     && r.stats.successfulEvents + r.stats.failedEvents == r.stats.totalEvents <= U64_MAX)
  }

  ghost predicate Honest(kernel: Kernel, log: nat -> seq<AuditEvent>) {
    && Growing(log) && HonestStat(kernel.stat, log(0))
    && forall k: nat, c: nat :: HonestRead(kernel.read(k, c), log(k + 1), c)
  }

  /** No call fails. */
  ghost predicate NoFailure(kernel: Kernel) {
    kernel.stat.ret >= 0 && forall k: nat, c: nat :: kernel.read(k, c).ret >= 0
  }

  /** Layout and consistency checks of `load_stats`. */
  predicate StatsAccepted(r: StatResponse) {
    && r.ret == 0 && r.abiVersion == 1 && r.structSize == 80
    && r.stats.retained <= r.stats.capacity
    && r.stats.successfulEvents + r.stats.failedEvents <= U64_MAX
    && r.stats.successfulEvents + r.stats.failedEvents == r.stats.totalEvents
    && r.stats.firstSequence != 0
    && r.stats.firstSequence <= r.stats.nextSequence
    && r.stats.nextSequence - r.stats.firstSequence == r.stats.retained
  }

  /** The end of the log when reading started. */
  function ThroughOf(r: StatResponse): nat
    requires StatsAccepted(r)
  {
    r.stats.nextSequence - 1
  }

  lemma StatsMean(r: StatResponse)
    requires StatsAccepted(r)
    ensures r.ret == 0 && r.abiVersion == 1 && r.structSize == 80 && r.stats.retained <= r.stats.capacity
    ensures r.stats.successfulEvents + r.stats.failedEvents == r.stats.totalEvents <= U64_MAX
    ensures 1 <= r.stats.firstSequence
            && r.stats.firstSequence + r.stats.retained == r.stats.nextSequence == ThroughOf(r) + 1
  {
  }

  /** A record the reader accepts: known layout, past the one before it, error number not
      negative, gap flag on the first of a batch only. */
  ghost predicate RecordAccepted(b: seq<AuditRecordV1>, cursor: nat, i: nat)
    requires i < |b|
  {
    && b[i].abiVersion == 1 && b[i].recordSize == 80
    && b[i].event.sequence > (if i == 0 then cursor else b[i - 1].event.sequence)
    && b[i].event.errno >= 0 && !(i != 0 && b[i].gapBefore)
  }

  ghost predicate BatchAccepted(b: seq<AuditRecordV1>, cursor: nat) {
    forall i: nat | i < |b| :: RecordAccepted(b, cursor, i)
  }

  lemma BatchMeans(b: seq<AuditRecordV1>, cursor: nat)
    ensures BatchAccepted(b, cursor) <==>
            forall i | 0 <= i < |b| ::
              && b[i].abiVersion == 1 && b[i].recordSize == 80 && b[i].event.errno >= 0
              && b[i].event.sequence > (if i == 0 then cursor else b[i - 1].event.sequence)
              && (b[i].gapBefore ==> i == 0)
  {
    if BatchAccepted(b, cursor) {
      forall i | 0 <= i < |b|
        ensures && b[i].abiVersion == 1 && b[i].recordSize == 80 && b[i].event.errno >= 0
                && b[i].event.sequence > (if i == 0 then cursor else b[i - 1].event.sequence)
                && (b[i].gapBefore ==> i == 0)
      {
        assert RecordAccepted(b, cursor, i);
      }
    } else {
      var i: nat :| i < |b| && !RecordAccepted(b, cursor, i);
    }
  }

  /** Check a whole batch before showing any of it. */
  method Validate(b: seq<AuditRecordV1>, cursor: nat) returns (ok: bool)
    ensures ok <==> BatchAccepted(b, cursor)
    ensures ok <==> forall i | 0 <= i < |b| ::
                      && b[i].abiVersion == 1 && b[i].recordSize == 80 && b[i].event.errno >= 0
                      && b[i].event.sequence > (if i == 0 then cursor else b[i - 1].event.sequence)
                      && (b[i].gapBefore ==> i == 0)
  {
    BatchMeans(b, cursor);
    var previous := cursor;
    var i := 0;
    while i < |b|
      invariant i <= |b| && forall j: nat | j < i :: RecordAccepted(b, cursor, j)
      invariant previous == if i == 0 then cursor else b[i - 1].event.sequence
    {
      var r := b[i];
      assert RecordAccepted(b, cursor, i) ==> r.event.sequence > previous;
      if r.abiVersion != 1 || r.recordSize != 80 || r.event.sequence <= previous || r.event.errno < 0
         || (i != 0 && r.gapBefore)
      {
        return false;
      }
      previous := r.event.sequence;
      i := i + 1;
    }
    ok := true;
  }

  // ---------------------------------------------------------------------------
  // What was shown
  // ---------------------------------------------------------------------------

  /** Shown records increase strictly within (from, to]. */
  ghost predicate Increasing(shown: seq<AuditRecordV1>, from: nat, to: nat) {
    && (forall i | 0 <= i < |shown| :: from < shown[i].event.sequence <= to)
    && (forall i, j | 0 <= i < j < |shown| :: shown[i].event.sequence < shown[j].event.sequence)
  }

  /** Sequence `q` was shown, or lies in a reported gap. */
  ghost predicate Accounted(shown: seq<AuditRecordV1>, gaps: seq<(nat, nat)>, q: nat) {
    || (exists i :: 0 <= i < |shown| && shown[i].event.sequence == q)
    || (exists g :: 0 <= g < |gaps| && gaps[g].0 < q < gaps[g].1)
  }

  /** Shown records are the original events. */
  ghost predicate Original(shown: seq<AuditRecordV1>, h: seq<AuditEvent>) {
    forall i | 0 <= i < |shown| ::
      1 <= shown[i].event.sequence <= |h| && shown[i].event == h[shown[i].event.sequence - 1]
  }

  /** Every event inside a reported gap had been overwritten. */
  ghost predicate Lost(gaps: seq<(nat, nat)>, h: seq<AuditEvent>) {
    forall g | 0 <= g < |gaps| :: gaps[g].1 + AUDIT_RING_CAPACITY <= |h| + 1
  }

  /** Nothing between `from` and `to` is unaccounted for. */
  ghost predicate Complete(shown: seq<AuditRecordV1>, gaps: seq<(nat, nat)>, from: nat, to: nat) {
    forall q: nat | from < q <= to :: Accounted(shown, gaps, q)
  }

  /** Show the records of an accepted batch up to `through`; report a gap first. */
  method ShowBatch(b: seq<AuditRecordV1>, cursor0: nat, through: nat) returns
      (cursor: nat, shown: seq<AuditRecordV1>, gaps: seq<(nat, nat)>, stop: bool)
    requires BatchAccepted(b, cursor0) && b != [] && cursor0 < through
    ensures Increasing(shown, cursor0, cursor) && cursor0 <= cursor <= through
    ensures shown <= b && |gaps| <= 1
    ensures gaps == if b[0].gapBefore then [(cursor0, b[0].event.sequence)] else []
    ensures cursor == if shown == [] then cursor0 else b[|shown| - 1].event.sequence
    ensures (shown != [] ==> cursor0 < cursor) && (stop <==> |shown| < |b|)
    ensures stop ==> b[|shown|].event.sequence > through
  {
    hide Increasing;
    cursor, shown, gaps, stop := cursor0, [], [], false;
    Nothing(cursor0, []);
    var i := 0;
    while i < |b|
      invariant i <= |b| && shown == b[..i] && !stop && (i > 0 ==> cursor0 < cursor)
      invariant cursor == (if i == 0 then cursor0 else b[i - 1].event.sequence) && cursor0 <= cursor <= through
      invariant Increasing(shown, cursor0, cursor)
      invariant gaps == if i > 0 && b[0].gapBefore then [(cursor0, b[0].event.sequence)] else []
    {
      assert RecordAccepted(b, cursor0, i);
      if b[i].gapBefore {
        gaps := gaps + [(cursor, b[i].event.sequence)];
      }
      if b[i].event.sequence > through {
        stop := true;
        return;
      }
      ShownNext(shown, b[i], cursor0, cursor);
      shown := shown + [b[i]];
      cursor := b[i].event.sequence;
      i := i + 1;
    }
  }

  // ---------------------------------------------------------------------------
  // Honest batches
  // ---------------------------------------------------------------------------

  ghost predicate FromLog(b: seq<AuditRecordV1>, h: seq<AuditEvent>, cursor: nat) {
    var v := Visible(h, cursor, BATCH_SIZE);
    |b| == |v.events| && forall i | 0 <= i < |b| :: b[i] == RecordAt(v, i)
  }

  /** What the log shows at a cursor behind its end: events in a row, starting right after the
      cursor or, flagged, at the oldest event kept. */
  lemma HonestBatch(b: seq<AuditRecordV1>, h: seq<AuditEvent>, cursor: nat)
    requires Numbered(h) && NonNegative(h) && cursor < |h| && FromLog(b, h, cursor)
    ensures b != [] && BatchAccepted(b, cursor)
    ensures forall i | 0 <= i < |b| :: b[i].event.sequence == b[0].event.sequence + i <= |h|
    ensures Original(b, h)
    ensures !b[0].gapBefore ==> b[0].event.sequence == cursor + 1
    ensures b[0].gapBefore ==> b[0].event.sequence + AUDIT_RING_CAPACITY <= |h| + 1
  {
    hide Visible, RecordAccepted, FromLog;
    assert |b| > 0 by { NotEmpty(b, h, cursor); }
    forall i: nat | i < |b| ensures RecordAccepted(b, cursor, i) { RowAccepted(b, h, cursor, i); }
    RowEvent(b, h, cursor, 0);
    forall i | 0 <= i < |b|
      ensures b[i].event.sequence == b[0].event.sequence + i <= |h|
      ensures 1 <= b[i].event.sequence && b[i].event == h[b[i].event.sequence - 1]
    {
      RowEvent(b, h, cursor, i);
    }
  }

  lemma NotEmpty(b: seq<AuditRecordV1>, h: seq<AuditEvent>, cursor: nat)
    requires cursor < |h| && FromLog(b, h, cursor)
    ensures b != []
  {
    hide Visible;
    VisibleSize(h, cursor);
  }

  /** Record `i` is an event of the log, `i` places after the first one shown. */
  lemma RowEvent(b: seq<AuditRecordV1>, h: seq<AuditEvent>, cursor: nat, i: nat)
    requires Numbered(h) && FromLog(b, h, cursor) && i < |b|
    ensures var first := if cursor + AUDIT_RING_CAPACITY >= |h| then cursor else |h| - AUDIT_RING_CAPACITY;
      && first + i < |h| && b[i].event.sequence == first + i + 1
      && b[i] == ToRecord(h[first + i], i == 0 && first > cursor)
  {
    hide Visible;
    VisibleMeans(h, cursor, BATCH_SIZE);
  }

  lemma RowAccepted(b: seq<AuditRecordV1>, h: seq<AuditEvent>, cursor: nat, i: nat)
    requires Numbered(h) && NonNegative(h) && FromLog(b, h, cursor) && i < |b|
    ensures RecordAccepted(b, cursor, i)
  {
    hide Visible, FromLog;
    RowEvent(b, h, cursor, i);
    if i > 0 { RowEvent(b, h, cursor, i - 1); }
  }

  /** Appending what a batch showed keeps every account. */
  lemma AccountsKept(shown: seq<AuditRecordV1>, gaps: seq<(nat, nat)>, more: seq<AuditRecordV1>,
                     moreGaps: seq<(nat, nat)>, q: nat)
    requires Accounted(shown, gaps, q) || Accounted(more, moreGaps, q)
    ensures Accounted(shown + more, gaps + moreGaps, q)
  {
    if Accounted(shown, gaps, q) {
      if i :| 0 <= i < |shown| && shown[i].event.sequence == q {
        assert (shown + more)[i].event.sequence == q;
      } else {
        var g :| 0 <= g < |gaps| && gaps[g].0 < q < gaps[g].1;
        assert (gaps + moreGaps)[g] == gaps[g];
      }
    } else {
      if i :| 0 <= i < |more| && more[i].event.sequence == q {
        assert (shown + more)[|shown| + i].event.sequence == q;
      } else {
        var g :| 0 <= g < |moreGaps| && moreGaps[g].0 < q < moreGaps[g].1;
        assert (gaps + moreGaps)[|gaps| + g] == moreGaps[g];
      }
    }
  }

  /** A batch from the log accounts for everything up to where it leaves the cursor, and for
      everything up to `through` when it stops. */
  lemma BatchAccounts(b: seq<AuditRecordV1>, h: seq<AuditEvent>, cursor0: nat, through: nat,
                      cursor: nat, shown: seq<AuditRecordV1>, gaps: seq<(nat, nat)>, stop: bool, q: nat)
    requires Numbered(h) && NonNegative(h) && cursor0 < through <= |h| && FromLog(b, h, cursor0)
    requires shown <= b && cursor == (if shown == [] then cursor0 else b[|shown| - 1].event.sequence)
    requires b != [] && gaps == if b[0].gapBefore then [(cursor0, b[0].event.sequence)] else []
    requires (stop <==> |shown| < |b|) && (stop ==> b[|shown|].event.sequence > through)
    requires cursor0 < q <= (if stop then through else cursor)
    ensures Accounted(shown, gaps, q)
  {
    HonestBatch(b, h, cursor0);
    var first := b[0].event.sequence;
    if q < first {
      assert gaps[0].0 < q < gaps[0].1;
    } else {
      assert q - first < |shown|;
      assert shown[q - first].event.sequence == q;
    }
  }

  /** Statistics from the log pass the checks and name its end. */
  lemma HonestStatsPass(stat: StatResponse, h: seq<AuditEvent>)
    requires HonestStat(stat, h) && (stat.ret >= 0 || StatsAccepted(stat))
    ensures StatsAccepted(stat) && ThroughOf(stat) == |h|
  {
  }

  lemma HonestStats(kernel: Kernel, log: nat -> seq<AuditEvent>)
    requires Honest(kernel, log) && (kernel.stat.ret >= 0 || StatsAccepted(kernel.stat))
    ensures StatsAccepted(kernel.stat) && ThroughOf(kernel.stat) == |log(0)|
  {
    HonestStatsPass(kernel.stat, log(0));
  }

  /** What was shown and reported stays right as the log grows. */
  lemma LogLonger(h: seq<AuditEvent>, h': seq<AuditEvent>, shown: seq<AuditRecordV1>, gaps: seq<(nat, nat)>)
    requires h <= h' && Original(shown, h) && Lost(gaps, h)
    ensures Original(shown, h') && Lost(gaps, h')
  {
  }

  /** An honest answer to a reader behind the end of the log is a non-empty accepted batch. */
  lemma HonestAnswer(r: ReadResponse, h: seq<AuditEvent>, cursor: nat)
    requires Numbered(h) && NonNegative(h) && HonestRead(r, h, cursor) && r.ret >= 0 && cursor < |h|
    ensures 0 < r.ret <= BATCH_SIZE && r.ret <= |r.buffer|
    ensures FromLog(r.buffer[..r.ret], h, cursor) && BatchAccepted(r.buffer[..r.ret], cursor)
  {
    hide Visible, BatchAccepted;
    VisibleSize(h, cursor);
    HonestBatch(r.buffer[..r.ret], h, cursor);
  }

  lemma VisibleSize(h: seq<AuditEvent>, cursor: nat)
    requires cursor < |h|
    ensures 0 < |Visible(h, cursor, BATCH_SIZE).events| <= BATCH_SIZE
  {
  }

  /** One more batch from the log: originals, real gaps, and nothing unaccounted for. */
  lemma Advance(b: seq<AuditRecordV1>, h: seq<AuditEvent>, before: nat, through: nat, cursor: nat,
                shown: seq<AuditRecordV1>, gaps: seq<(nat, nat)>, more: seq<AuditRecordV1>, moreGaps: seq<(nat, nat)>,
                stop: bool, from: nat)
    requires Numbered(h) && NonNegative(h) && before < through <= |h| && FromLog(b, h, before)
    requires more <= b && cursor == (if more == [] then before else b[|more| - 1].event.sequence)
    requires b != [] && moreGaps == if b[0].gapBefore then [(before, b[0].event.sequence)] else []
    requires (stop <==> |more| < |b|) && (stop ==> b[|more|].event.sequence > through)
    requires Original(shown, h) && Lost(gaps, h) && Complete(shown, gaps, from, before)
    ensures Original(shown + more, h) && Lost(gaps + moreGaps, h)
    ensures Complete(shown + more, gaps + moreGaps, from, if stop then through else cursor)
  {
    hide Visible, BatchAccepted, Accounted, FromLog;
    HonestBatch(b, h, before);
    var end := if stop then through else cursor;
    forall q: nat | from < q <= end ensures Accounted(shown + more, gaps + moreGaps, q) {
      if q > before {
        BatchAccounts(b, h, before, through, cursor, more, moreGaps, stop, q);
      }
      AccountsKept(shown, gaps, more, moreGaps, q);
    }
  }

  // ---------------------------------------------------------------------------
  // The reader
  // ---------------------------------------------------------------------------

  /** Where the reader is and what it has shown and reported. */
  datatype Progress = Progress(cursor: nat, shown: seq<AuditRecordV1>, gaps: seq<(nat, nat)>)

  datatype Verdict = Again | Finish | Fail

  /** Shown records are originals, reported gaps are lost and nothing up to `to` is missing. */
  ghost predicate Faithful(p: Progress, h: seq<AuditEvent>, from: nat, to: nat) {
    Original(p.shown, h) && Lost(p.gaps, h) && Complete(p.shown, p.gaps, from, to)
  }

  /** An answer of the log `h`, which reaches at least to `through`. */
  ghost predicate AnswerOf(r: ReadResponse, h: seq<AuditEvent>, cursor: nat, through: nat) {
    Numbered(h) && NonNegative(h) && through <= |h| && HonestRead(r, h, cursor)
  }

  /** One round of the loop, given the answer of a read call. A whole batch is checked before any
      of it is shown. */
  method Consume(r: ReadResponse, from: nat, through: nat, p: Progress, ghost h: seq<AuditEvent>)
    returns (v: Verdict, q: Progress)
    requires from <= p.cursor < through && Increasing(p.shown, from, p.cursor)
    ensures Increasing(q.shown, from, q.cursor) && p.cursor <= q.cursor <= through
    ensures v.Again? ==> p.cursor < q.cursor
    ensures v.Fail? ==> q == p
    ensures AnswerOf(r, h, p.cursor, through) ==> (v.Fail? <==> r.ret < 0)
    ensures AnswerOf(r, h, p.cursor, through) && Faithful(p, h, from, p.cursor) && !v.Fail? ==>
              Faithful(q, h, from, if v.Finish? then through else q.cursor)
  {
    hide Visible, BatchAccepted, Accounted, FromLog, Original, Lost, Complete, Increasing;
    q := p;
    if AnswerOf(r, h, p.cursor, through) && r.ret >= 0 { HonestAnswer(r, h, p.cursor); }
    if r.ret < 0 { return Fail, q; }
    if r.ret == 0 { return Finish, q; }
    if r.ret > BATCH_SIZE || r.ret > |r.buffer| { return Fail, q; }
    var batch := r.buffer[..r.ret];
    var ok := Validate(batch, p.cursor);
    if !ok { return Fail, q; }
    var cursor, more, moreGaps, stop := ShowBatch(batch, p.cursor, through);
    if AnswerOf(r, h, p.cursor, through) && Faithful(p, h, from, p.cursor) {
      Advance(batch, h, p.cursor, through, cursor, p.shown, p.gaps, more, moreGaps, stop, from);
    }
    ShownMore(p.shown, more, from, p.cursor, cursor);
    q := Progress(cursor, p.shown + more, p.gaps + moreGaps);
    v := if stop then Finish else Again;
  }

  /** Read from a cursor to the end the log had at the start.
      For every kernel: the reader stops, and shows strictly increasing records inside the
      interval. For an honest one: records are originals, reported gaps are really lost, and
      on exit 0 every event of the interval was shown or lies in a reported gap. */
  method ReadRecords(cursor0: nat, kernel: Kernel, ghost log: nat -> seq<AuditEvent>)
    returns (exit: nat, p: Progress, through: nat, calls: nat)
    requires cursor0 <= U64_MAX
    ensures exit == 0 || exit == 1
    ensures Increasing(p.shown, cursor0, through) && cursor0 <= p.cursor
    ensures exit == 0 ==> StatsAccepted(kernel.stat) && through == ThroughOf(kernel.stat)
    ensures exit == 0 ==>
              var r := kernel.stat;
              && r.ret == 0 && r.abiVersion == 1 && r.structSize == 80 && r.stats.retained <= r.stats.capacity
              && r.stats.successfulEvents + r.stats.failedEvents == r.stats.totalEvents <= U64_MAX
              && 1 <= r.stats.firstSequence
              && r.stats.firstSequence + r.stats.retained == r.stats.nextSequence == through + 1
    ensures Honest(kernel, log) ==> Original(p.shown, log(calls)) && Lost(p.gaps, log(calls))
    ensures Honest(kernel, log) && exit == 0 ==> Complete(p.shown, p.gaps, cursor0, through)
    ensures Honest(kernel, log) && NoFailure(kernel) ==> exit == 0
  {
    hide Visible, Growing, Honest, NoFailure, Accounted, Original, Lost, Complete, Increasing, StatsAccepted, AnswerOf;
    exit, p, through, calls := 1, Progress(cursor0, [], []), 0, 0;
    Nothing(cursor0, log(0));
    if !StatsAccepted(kernel.stat) {
      if Honest(kernel, log) && NoFailure(kernel) { Answered(kernel, 0, cursor0); HonestStats(kernel, log); }
      return;
    }
    through := ThroughOf(kernel.stat);
    StatsMean(kernel.stat);
    if Honest(kernel, log) { HonestStats(kernel, log); }
    var v := Again;
    while p.cursor < through && v.Again?
      invariant cursor0 <= p.cursor && (p.shown != [] || v.Finish? ==> p.cursor <= through) && !v.Fail?
      invariant Increasing(p.shown, cursor0, p.cursor)
      invariant Honest(kernel, log) ==> Faithful(p, log(calls), cursor0, if v.Finish? then through else p.cursor)
      decreases v.Again?, through - p.cursor
    {
      var r := kernel.read(calls, p.cursor);
      if Honest(kernel, log) { HonestCall(kernel, log, calls, p.cursor, p.shown, p.gaps); }
      if NoFailure(kernel) { Answered(kernel, calls, p.cursor); }
      calls := calls + 1;
      ghost var before := p;
      v, p := Consume(r, cursor0, through, p, log(calls));
      if v.Fail? {
        if p.shown != [] { ShownWithin(p.shown, cursor0, p.cursor, through); } else { Nothing(cursor0, []); }
        return;
      }
    }
    exit := 0;
    if p.shown != [] { ShownWithin(p.shown, cursor0, p.cursor, through); } else { Nothing(cursor0, []); }
    if Honest(kernel, log) && p.cursor > through { CompleteShorter(p.shown, p.gaps, cursor0, p.cursor, through); }
  }

  /** What an honest kernel's next answer comes from. */
  lemma HonestCall(kernel: Kernel, log: nat -> seq<AuditEvent>, k: nat, cursor: nat, shown: seq<AuditRecordV1>,
                   gaps: seq<(nat, nat)>)
    requires Honest(kernel, log) && Original(shown, log(k)) && Lost(gaps, log(k))
    ensures AnswerOf(kernel.read(k, cursor), log(k + 1), cursor, |log(0)|)
    ensures Original(shown, log(k + 1)) && Lost(gaps, log(k + 1))
  {
    hide HonestRead, Original, Lost;
    assert HonestRead(kernel.read(k, cursor), log(k + 1), cursor) && log(0) <= log(k + 1);
    assert log(k) <= log(k + 1);
    LogLonger(log(k), log(k + 1), shown, gaps);
  }

  lemma Nothing(from: nat, h: seq<AuditEvent>)
    ensures Original([], h) && Lost([], h) && Complete([], [], from, from)
    ensures forall to :: Increasing([], from, to)
  {
  }

  lemma ShownMore(shown: seq<AuditRecordV1>, more: seq<AuditRecordV1>, from: nat, mid: nat, to: nat)
    requires Increasing(shown, from, mid) && Increasing(more, mid, to) && from <= mid <= to
    ensures Increasing(shown + more, from, to)
  {
  }

  lemma ShownNext(shown: seq<AuditRecordV1>, r: AuditRecordV1, from: nat, to: nat)
    requires Increasing(shown, from, to) && from <= to < r.event.sequence
    ensures Increasing(shown + [r], from, r.event.sequence)
  {
  }

  lemma ShownWithin(shown: seq<AuditRecordV1>, from: nat, to: nat, through: nat)
    requires Increasing(shown, from, to) && to <= through
    ensures Increasing(shown, from, through)
  {
  }

  lemma CompleteShorter(shown: seq<AuditRecordV1>, gaps: seq<(nat, nat)>, from: nat, to: nat, less: nat)
    requires Complete(shown, gaps, from, to) && less <= to
    ensures Complete(shown, gaps, from, less)
  {
  }

  lemma Answered(kernel: Kernel, k: nat, cursor: nat)
    requires NoFailure(kernel)
    ensures kernel.stat.ret >= 0 && kernel.read(k, cursor).ret >= 0
  {
  }
}
