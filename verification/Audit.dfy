/** The bounded audit log (os/src/security/audit.rs): a ring of the latest 256 events that
    stands for an unbounded history. Time stamps are inputs. */
module Audit {
  import opened Numbers

  const AUDIT_RING_CAPACITY: nat := 256
  const AUDIT_READ_MAX_RECORDS: nat := 32

  datatype AuditEvent = AuditEvent(sequence: nat, timestampMs: nat, operation: nat, errno: int, subjectPid: nat,
                                   subjectUid: nat, objectId: nat, objectOwnerUid: nat, requestedAmount: nat,
                                   resultValue: nat)

  const EMPTY := AuditEvent(0, 0, 0, 0, 0, 0, 0, 0, 0, 0)

  datatype AuditRecordV1 = AuditRecordV1(abiVersion: nat, recordSize: nat, gapBefore: bool, event: AuditEvent)

  /** Record copied to the user; the gap flag concerns this copy only. */
  function ToRecord(e: AuditEvent, gapBefore: bool): AuditRecordV1 {
    AuditRecordV1(1, 80, gapBefore, e)
  }

  datatype AuditBatch = AuditBatch(events: seq<AuditEvent>, gapBefore: bool)

  const EMPTY_BATCH := AuditBatch([], false)

  /** The gap flag stands on the first record of a batch only. */
  function RecordAt(b: AuditBatch, i: nat): AuditRecordV1
    requires i < |b.events|
  {
    ToRecord(b.events[i], i == 0 && b.gapBefore)
  }

  datatype AuditStats = AuditStats(capacity: nat, retained: nat, firstSequence: nat, nextSequence: nat,
                                   totalEvents: nat, successfulEvents: nat, failedEvents: nat, overwrittenEvents: nat)

  /** Number of events with the given kind of outcome. */
  ghost function Count(h: seq<AuditEvent>, success: bool): nat {
    if h == [] then 0
    else Count(h[..|h| - 1], success) + (if (h[|h| - 1].errno == 0) == success then 1 else 0)
  }

  lemma CountOne(h: seq<AuditEvent>, e: AuditEvent)
    ensures forall success ::
              Count(h + [e], success) == Count(h, success) + (if (e.errno == 0) == success then 1 else 0)
  {
    assert (h + [e])[..|h|] == h;
  }

  lemma {:induction false} CountAll(h: seq<AuditEvent>)
    ensures Count(h, true) + Count(h, false) == |h|
  {
    if h != [] { CountAll(h[..|h| - 1]); }
  }

  /** The counters a history calls for. */
  ghost function StatsOf(h: seq<AuditEvent>): AuditStats {
    var retained := Min(|h|, AUDIT_RING_CAPACITY);
    AuditStats(AUDIT_RING_CAPACITY, retained, |h| + 1 - retained, |h| + 1, |h|, Count(h, true), Count(h, false),
               |h| - retained)
  }

  /** Events are numbered from 1 without gaps. */
  ghost predicate Numbered(h: seq<AuditEvent>) {
    forall i | 0 <= i < |h| :: h[i].sequence == i + 1
  }

  /** Accept an event, unless sequence numbers are exhausted. */
  function Append(h: seq<AuditEvent>, e: AuditEvent): seq<AuditEvent> {
    if |h| + 1 < U64_MAX then h + [e.(sequence := |h| + 1)] else h
  }

  function AppendAll(h: seq<AuditEvent>, es: seq<AuditEvent>): seq<AuditEvent> {
    if es == [] then h else Append(AppendAll(h, es[..|es| - 1]), es[|es| - 1])
  }

  /** A history only grows. */
  lemma {:induction false} AppendAllExtends(h: seq<AuditEvent>, es: seq<AuditEvent>)
    requires Numbered(h)
    ensures h <= AppendAll(h, es) && Numbered(AppendAll(h, es))
    ensures |h| < U64_MAX ==> |AppendAll(h, es)| < U64_MAX
  {
    if es != [] { AppendAllExtends(h, es[..|es| - 1]); }
  }

  /** What a reader at cursor `after` gets: the first of the latest 256 events past it, at most
      `capacity` and at most 32, flagged when the event it wanted next was overwritten. */
  function Visible(h: seq<AuditEvent>, after: nat, capacity: nat): AuditBatch {
    var oldest := |h| - Min(|h|, AUDIT_RING_CAPACITY);
    var from := Max(after, oldest);
    var n := Min(Min(capacity, AUDIT_READ_MAX_RECORDS), if from < |h| then |h| - from else 0);
    if n == 0 then EMPTY_BATCH else AuditBatch(h[from..from + n], after < oldest)
  }

  lemma VisibleNone(h: seq<AuditEvent>, after: nat, capacity: nat)
    ensures Visible(h, after, capacity) == EMPTY_BATCH <==> capacity == 0 || after >= |h|
  {
  }

  lemma VisibleFrom(h: seq<AuditEvent>, after: nat, capacity: nat, from: nat)
    requires from == Max(after, |h| - Min(|h|, AUDIT_RING_CAPACITY)) < |h| && capacity > 0
    ensures var n := Min(|h| - from, Min(capacity, AUDIT_READ_MAX_RECORDS));
      Visible(h, after, capacity) == AuditBatch(h[from..from + n], after < |h| - Min(|h|, AUDIT_RING_CAPACITY))
  {
  }

  /** What a batch is, without the arithmetic: events in a row of the history, none before the
      cursor and none older than the latest 256, starting with the first such; as many as there
      are, up to `capacity` and 32; flagged exactly when events past the cursor are no longer kept. */
  lemma VisibleMeans(h: seq<AuditEvent>, after: nat, capacity: nat)
    ensures var b, first := Visible(h, after, capacity), if after + 256 >= |h| then after else |h| - 256;
      && |b.events| <= capacity && |b.events| <= 32
      && (|b.events| == capacity || |b.events| == 32 || first + |b.events| >= |h|)
      && (forall i | 0 <= i < |b.events| :: first + i < |h| && b.events[i] == h[first + i])
      && (b.gapBefore <==> b.events != [] && first > after)
  {
  }

  /** Array index of the `i`-th oldest event. */
  function Slot(head: nat, i: nat): (k: nat)
    ensures k < AUDIT_RING_CAPACITY
  {
    (head + i) % AUDIT_RING_CAPACITY
  }

  lemma SlotApart(head: nat, i: nat, j: nat)
    requires i < j < i + AUDIT_RING_CAPACITY
    ensures Slot(head, i) != Slot(head, j)
  {
  }

  lemma SlotShift(head: nat, i: nat)
    requires head < AUDIT_RING_CAPACITY
    ensures Slot((head + 1) % AUDIT_RING_CAPACITY, i) == Slot(head, i + 1)
    ensures Slot(head, 0) == Slot(head, AUDIT_RING_CAPACITY) == head
  {
  }

  /** The ring holds the last `len` events of a history, oldest at `head`. */
  ghost predicate Holds(ring: seq<AuditEvent>, head: nat, len: nat, h: seq<AuditEvent>) {
    && |ring| == AUDIT_RING_CAPACITY && len <= |h|
    && forall i: nat | i < len :: ring[Slot(head, i)] == h[|h| - len + i]
  }

  lemma PushWithRoom(ring: seq<AuditEvent>, head: nat, len: nat, h: seq<AuditEvent>, e: AuditEvent)
    requires Holds(ring, head, len, h) && len < AUDIT_RING_CAPACITY
    ensures Holds(ring[Slot(head, len) := e], head, len + 1, h + [e])
  {
    hide Slot;
    forall i: nat | i < len ensures Slot(head, i) != Slot(head, len) { SlotApart(head, i, len); }
  }

  lemma PushWhenFull(ring: seq<AuditEvent>, head: nat, h: seq<AuditEvent>, e: AuditEvent)
    requires Holds(ring, head, AUDIT_RING_CAPACITY, h) && head < AUDIT_RING_CAPACITY
    ensures Holds(ring[head := e], (head + 1) % AUDIT_RING_CAPACITY, AUDIT_RING_CAPACITY, h + [e])
  {
    hide Slot;
    var head' := (head + 1) % AUDIT_RING_CAPACITY;
    var ring' := ring[head := e];
    forall i: nat | i < AUDIT_RING_CAPACITY
      ensures ring'[Slot(head', i)] == (h + [e])[|h| + 1 - AUDIT_RING_CAPACITY + i]
    {
      SlotShift(head, i);
      if i + 1 < AUDIT_RING_CAPACITY { SlotApart(head, i + 1, AUDIT_RING_CAPACITY); }
    }
  }

  class AuditRing {
    const events: array<AuditEvent>
    var head: nat
    var len: nat
    var nextSequence: nat
    var totalEvents: nat
    var successfulEvents: nat
    var failedEvents: nat
    var overwrittenEvents: nat
    /** Every event ever accepted. */
    ghost var history: seq<AuditEvent>

    ghost predicate Valid()
      reads this, events
    {
      && events.Length == AUDIT_RING_CAPACITY && head < AUDIT_RING_CAPACITY
      && len == Min(|history|, AUDIT_RING_CAPACITY)
      && nextSequence == |history| + 1 <= U64_MAX
      && Numbered(history)
      && Holds(events[..], head, len, history)
      && totalEvents == |history| && overwrittenEvents == |history| - len
      && successfulEvents == Count(history, true) && failedEvents == Count(history, false)
    }

    constructor ()
      ensures Valid() && history == [] && fresh(events)
    {
      events := new AuditEvent[AUDIT_RING_CAPACITY](_ => EMPTY);
      head, len, nextSequence, totalEvents := 0, 0, 1, 0;
      successfulEvents, failedEvents, overwrittenEvents, history := 0, 0, 0, [];
    }

    /** Store an event in the ring: in a free slot, or over the oldest event. */
    method Insert(event: AuditEvent)
      requires events.Length == AUDIT_RING_CAPACITY && head < AUDIT_RING_CAPACITY
      requires Holds(events[..], head, len, history) && len <= AUDIT_RING_CAPACITY
      modifies this`head, this`len, this`overwrittenEvents, events
      ensures head < AUDIT_RING_CAPACITY && len == Min(old(len) + 1, AUDIT_RING_CAPACITY)
      ensures Holds(events[..], head, len, history + [event])
      ensures overwrittenEvents == old(overwrittenEvents) + old(len) + 1 - len
    {
      hide Slot, Holds;
      ghost var ring := events[..];
      if len < AUDIT_RING_CAPACITY {
        PushWithRoom(ring, head, len, history, event);
        var k := Slot(head, len);
        events[k] := event;
        assert events[..] == ring[k := event];
        len := len + 1;
      } else {
        PushWhenFull(ring, head, history, event);
        events[head] := event;
        assert events[..] == ring[head := event];
        head := (head + 1) % AUDIT_RING_CAPACITY;
        overwrittenEvents := overwrittenEvents + 1;
      }
    }

    /** Record an event, dropping the oldest when full. */
    method Push(e: AuditEvent)
      requires Valid()
      modifies this, events
      ensures Valid() && history == Append(old(history), e)
    {
      hide Holds, Slot, Count;
      if nextSequence == U64_MAX { return; }
      var event := e.(sequence := nextSequence);
      nextSequence := nextSequence + 1;
      Insert(event);
      totalEvents := totalEvents + 1;
      if event.errno == 0 {
        successfulEvents := successfulEvents + 1;
      } else {
        failedEvents := failedEvents + 1;
      }
      CountOne(history, event);
      history := history + [event];
    }

    /** Events recorded by others. */
    method PushAll(es: seq<AuditEvent>)
      requires Valid()
      modifies this, events
      ensures Valid() && history == AppendAll(old(history), es)
    {
      var i := 0;
      assert es[..0] == [];
      while i < |es|
        invariant i <= |es| && Valid() && history == AppendAll(old(history), es[..i])
      {
        assert es[..i + 1][..i] == es[..i];
        Push(es[i]);
        i := i + 1;
      }
      assert es[..i] == es;
    }

    /** Sequence number of the oldest event kept, or the next one when there is none. */
    function FirstSequence(): (s: nat)
      requires Valid()
      reads this, events
      ensures s == |history| - len + 1
    {
      if len == 0 then nextSequence
      else
        assert Slot(head, 0) == head && events[..][Slot(head, 0)] == history[|history| - len];
        events[head].sequence
    }

    /** Copy out what a reader at a cursor gets; nothing is removed. */
    method Snapshot(afterSequence: nat, requestedCapacity: nat) returns (batch: AuditBatch)
      requires Valid() && afterSequence <= U64_MAX
      ensures batch == Visible(history, afterSequence, requestedCapacity)
    {
      hide Count, Numbered, Visible, Slot;
      VisibleNone(history, afterSequence, requestedCapacity);
      var limit := Min(requestedCapacity, AUDIT_READ_MAX_RECORDS);
      if limit == 0 || len == 0 || afterSequence == U64_MAX {
        return EMPTY_BATCH;
      }
      var wanted := afterSequence + 1;
      var first := FirstSequence();
      var start := Max(wanted, first);
      if start >= nextSequence {
        return EMPTY_BATCH;
      }
      var count := Min(nextSequence - start, limit);
      var offset := start - first;
      var copied: seq<AuditEvent> := [];
      var i := 0;
      while i < count
        invariant i <= count && copied == history[start - 1..start - 1 + i]
      {
        assert events[..][Slot(head, offset + i)] == history[|history| - len + (offset + i)];
        copied := copied + [events[Slot(head, offset + i)]];
        i := i + 1;
      }
      batch := AuditBatch(copied, wanted < first);
      VisibleFrom(history, afterSequence, requestedCapacity, start - 1);
    }

    /** All counters, from one state. */
    method Stats() returns (s: AuditStats)
      requires Valid()
      ensures s == StatsOf(history)
      ensures s.capacity == AUDIT_RING_CAPACITY && s.retained == Min(|history|, AUDIT_RING_CAPACITY)
      ensures s.nextSequence == |history| + 1 && s.firstSequence + s.retained == s.nextSequence
      ensures s.totalEvents == |history| == s.successfulEvents + s.failedEvents == s.retained + s.overwrittenEvents
      ensures s.successfulEvents == Count(history, true)
    {
      CountAll(history);
      s := AuditStats(AUDIT_RING_CAPACITY, len, FirstSequence(), nextSequence, totalEvents, successfulEvents,
                      failedEvents, overwrittenEvents);
    }
  }
}
