/** The two 80-byte structures of the audit interface, as the kernel stores them and as a user
    program reads them (os/src/security/audit.rs, user/src/audit.rs). */
module AuditLayout {
  import opened Audit
  import opened Bytes
  import opened Numbers
  import opened SecurityApi

  const RECORD_SIZE: nat := 80

  /** Numbers of `w` bytes each, one after the other. */
  function Words(ws: seq<nat>, w: nat): (b: seq<byte>)
    ensures |b| == |ws| * w
  {
    if ws == [] then [] else Words(ws[..|ws| - 1], w) + ToLE(ws[|ws| - 1], w)
  }

  function ReadWords(b: seq<byte>, w: nat, n: nat): (ws: seq<nat>)
    decreases n
  {
    if n == 0 || |b| < w then [] else ReadWords(b[..|b| - w], w, n - 1) + [FromLE(b[|b| - w..])]
  }

  lemma {:induction false} WordsRoundTrip(ws: seq<nat>, w: nat)
    requires forall i | 0 <= i < |ws| :: ws[i] < Pow256(w)
    ensures ReadWords(Words(ws, w), w, |ws|) == ws
  {
    if ws != [] {
      var n := |ws| - 1;
      var front, last := Words(ws[..n], w), ToLE(ws[n], w);
      assert (front + last)[..|front|] == front && (front + last)[|front|..] == last;
      WordsRoundTrip(ws[..n], w);
      LERoundTrip(ws[n], w);
    }
  }

  /** A signed 32-bit number as a word. */
  function Unsigned32(x: int): nat
    requires -0x8000_0000 <= x < 0x8000_0000
  {
    if x < 0 then x + U32_LIMIT else x
  }

  function Signed32(w: nat): int {
    if w < 0x8000_0000 then w else w - U32_LIMIT
  }

  /** Every field fits its place. */
  ghost predicate Fits(r: AuditRecordV1) {
    var e := r.event;
    && r.abiVersion < U16_LIMIT && r.recordSize < U16_LIMIT && e.operation < U16_LIMIT
    && -0x8000_0000 <= e.errno < 0x8000_0000 && e.subjectUid < U32_LIMIT && e.objectOwnerUid < U32_LIMIT
    && e.sequence < U64_LIMIT && e.timestampMs < U64_LIMIT && e.subjectPid < U64_LIMIT && e.objectId < U64_LIMIT
    && e.requestedAmount < U64_LIMIT && e.resultValue < U64_LIMIT
  }

  function Halves(r: AuditRecordV1): seq<nat> {
    [r.abiVersion, r.recordSize, r.event.operation, if r.gapBefore then 1 else 0]
  }

  function Singles(r: AuditRecordV1): seq<nat> {
    var e := r.event;
    [if -0x8000_0000 <= e.errno < 0x8000_0000 then Unsigned32(e.errno) else 0, e.subjectUid, e.objectOwnerUid, 0]
  }

  function Doubles(r: AuditRecordV1): seq<nat> {
    var e := r.event;
    [e.sequence, e.timestampMs, e.subjectPid, e.objectId, e.requestedAmount, e.resultValue, 0]
  }

  function EncodeRecord(r: AuditRecordV1): (b: seq<byte>)
    ensures |b| == RECORD_SIZE
  {
    Words(Halves(r), 2) + Words(Singles(r), 4) + Words(Doubles(r), 8)
  }

  function DecodeRecord(b: seq<byte>): AuditRecordV1
    requires |b| == RECORD_SIZE
  {
    var h, s, d := ReadWords(b[..8], 2, 4), ReadWords(b[8..24], 4, 4), ReadWords(b[24..], 8, 7);
    if |h| == 4 && |s| == 4 && |d| == 7 then
      AuditRecordV1(h[0], h[1], h[3] % 2 == 1,
                    AuditEvent(d[0], d[1], h[2], Signed32(s[0]), d[2], s[1], d[3], s[2], d[4], d[5]))
    else ToRecord(EMPTY, false)
  }

  /** A user program that reads the 80 bytes gets the record back. */
  lemma RecordRoundTrip(r: AuditRecordV1)
    requires Fits(r)
    ensures DecodeRecord(EncodeRecord(r)) == r
  {
    hide Words, ReadWords, Pow256;
    var b := EncodeRecord(r);
    assert b[..8] == Words(Halves(r), 2) && b[8..24] == Words(Singles(r), 4) && b[24..] == Words(Doubles(r), 8);
    Limits();
    WordsRoundTrip(Halves(r), 2);
    WordsRoundTrip(Singles(r), 4);
    WordsRoundTrip(Doubles(r), 8);
  }

  lemma Limits()
    ensures Pow256(2) == U16_LIMIT && Pow256(4) == U32_LIMIT && Pow256(8) == U64_LIMIT
  {
    WordSizes();
  }

  /** The number at an offset, `w` bytes wide. */
  function Field(b: seq<byte>, off: nat, w: nat): nat
    requires off + w <= |b|
  {
    FromLE(b[off..off + w])
  }

  lemma {:induction false} WordAt(ws: seq<nat>, w: nat, i: nat)
    requires i < |ws| && ws[i] < Pow256(w)
    ensures w * (i + 1) <= |Words(ws, w)| && FromLE(Words(ws, w)[w * i..w * (i + 1)]) == ws[i]
  {
    hide Pow256, FromLE, ToLE;
    var n := |ws| - 1;
    var front, last := Words(ws[..n], w), ToLE(ws[n], w);
    Multiples(w, i + 1, |ws|);
    if i < n {
      Multiples(w, i + 1, n);
      WordAt(ws[..n], w, i);
      SliceOf(front, last, w * i, w * (i + 1));
    } else {
      SliceOf(front, last, w * i, w * (i + 1));
      LERoundTrip(ws[n], w);
    }
  }

  lemma SliceOf(a: seq<byte>, b: seq<byte>, lo: nat, hi: nat)
    requires lo <= hi <= |a| + |b| && (hi <= |a| || (lo == |a| && hi == |a| + |b|))
    ensures (a + b)[lo..hi] == if hi <= |a| then a[lo..hi] else b
  {
  }

  /** Where each field of a record stands. Reserved bytes are zero and only bit 0 of the flags is used. */
  lemma RecordOffsets(r: AuditRecordV1)
    requires Fits(r)
    ensures var b, e := EncodeRecord(r), r.event;
      && Field(b, 0, 2) == r.abiVersion && Field(b, 2, 2) == r.recordSize && Field(b, 4, 2) == e.operation
      && Field(b, 6, 2) == (if r.gapBefore then 1 else 0)
      && Field(b, 8, 4) == (if e.errno >= 0 then e.errno else 0x1_0000_0000 + e.errno)
      && Field(b, 12, 4) == e.subjectUid && Field(b, 16, 4) == e.objectOwnerUid && Field(b, 20, 4) == 0
      && Field(b, 24, 8) == e.sequence && Field(b, 32, 8) == e.timestampMs && Field(b, 40, 8) == e.subjectPid
      && Field(b, 48, 8) == e.objectId && Field(b, 56, 8) == e.requestedAmount && Field(b, 64, 8) == e.resultValue
      && Field(b, 72, 8) == 0
  {
    hide Words, Pow256, FromLE;
    var b := EncodeRecord(r);
    Limits();
    forall i: nat | i < 4 ensures Field(b, 2 * i, 2) == Halves(r)[i] {
      WordAt(Halves(r), 2, i);
      assert b[2 * i..2 * i + 2] == Words(Halves(r), 2)[2 * i..2 * (i + 1)];
    }
    forall i: nat | i < 4 ensures Field(b, 8 + 4 * i, 4) == Singles(r)[i] {
      WordAt(Singles(r), 4, i);
      assert b[8 + 4 * i..8 + 4 * i + 4] == Words(Singles(r), 4)[4 * i..4 * (i + 1)];
    }
    forall i: nat | i < 7 ensures Field(b, 24 + 8 * i, 8) == Doubles(r)[i] {
      WordAt(Doubles(r), 8, i);
      assert b[24 + 8 * i..24 + 8 * i + 8] == Words(Doubles(r), 8)[8 * i..8 * (i + 1)];
    }
    FieldsApart(b, Halves(r), Singles(r), Doubles(r));
  }

  lemma FieldsApart(b: seq<byte>, h: seq<nat>, s: seq<nat>, d: seq<nat>)
    requires |b| == RECORD_SIZE && |h| == 4 && |s| == 4 && |d| == 7
    requires forall i: nat | i < 4 :: Field(b, 2 * i, 2) == h[i]
    requires forall i: nat | i < 4 :: Field(b, 8 + 4 * i, 4) == s[i]
    requires forall i: nat | i < 7 :: Field(b, 24 + 8 * i, 8) == d[i]
    ensures [Field(b, 0, 2), Field(b, 2, 2), Field(b, 4, 2), Field(b, 6, 2)] == h
    ensures [Field(b, 8, 4), Field(b, 12, 4), Field(b, 16, 4), Field(b, 20, 4)] == s
    ensures [Field(b, 24, 8), Field(b, 32, 8), Field(b, 40, 8), Field(b, 48, 8), Field(b, 56, 8), Field(b, 64, 8),
             Field(b, 72, 8)] == d
  {
    hide Field;
    assert Field(b, 2 * 0, 2) == h[0] && Field(b, 2 * 1, 2) == h[1] && Field(b, 2 * 2, 2) == h[2]
           && Field(b, 2 * 3, 2) == h[3];
    assert Field(b, 8 + 4 * 0, 4) == s[0] && Field(b, 8 + 4 * 1, 4) == s[1];
    assert Field(b, 8 + 4 * 2, 4) == s[2] && Field(b, 8 + 4 * 3, 4) == s[3];
    assert Field(b, 24 + 8 * 0, 8) == d[0] && Field(b, 24 + 8 * 1, 8) == d[1] && Field(b, 24 + 8 * 2, 8) == d[2];
    assert Field(b, 24 + 8 * 3, 8) == d[3] && Field(b, 24 + 8 * 4, 8) == d[4];
    assert Field(b, 24 + 8 * 5, 8) == d[5] && Field(b, 24 + 8 * 6, 8) == d[6];
  }

  /** Records one after the other, as in an array. */
  function Flat(rs: seq<AuditRecordV1>): (b: seq<byte>)
    ensures |b| == RECORD_SIZE * |rs|
  {
    if rs == [] then [] else Flat(rs[..|rs| - 1]) + EncodeRecord(rs[|rs| - 1])
  }

  /** The program's view of an array of records. */
  function Unflat(b: seq<byte>, n: nat): (rs: seq<AuditRecordV1>)
    requires |b| == RECORD_SIZE * n
    ensures |rs| == n
  {
    seq(n, i requires 0 <= i < n => DecodeRecord(b[RECORD_SIZE * i..RECORD_SIZE * (i + 1)]))
  }

  /** Record `i` stands at byte 80 * i. */
  lemma {:induction false} FlatSlice(rs: seq<AuditRecordV1>, i: nat)
    requires i < |rs|
    ensures Flat(rs)[RECORD_SIZE * i..RECORD_SIZE * (i + 1)] == EncodeRecord(rs[i])
  {
    hide EncodeRecord;
    var n := |rs| - 1;
    var front, last := Flat(rs[..n]), EncodeRecord(rs[n]);
    if i < n {
      FlatSlice(rs[..n], i);
      assert (front + last)[RECORD_SIZE * i..RECORD_SIZE * (i + 1)] == front[RECORD_SIZE * i..RECORD_SIZE * (i + 1)];
    } else {
      assert (front + last)[|front|..] == last;
    }
  }

  /** A program that reads an array of records gets every record back. */
  lemma FlatRoundTrip(rs: seq<AuditRecordV1>)
    requires forall i | 0 <= i < |rs| :: Fits(rs[i])
    ensures Unflat(Flat(rs), |rs|) == rs
  {
    hide EncodeRecord, DecodeRecord, Flat, Fits;
    forall i | 0 <= i < |rs| ensures Unflat(Flat(rs), |rs|)[i] == rs[i] {
      FlatSlice(rs, i);
      RecordRoundTrip(rs[i]);
    }
  }

  // ---------- what is recorded fits ----------

  /** Every field but the sequence number, which the ring assigns. Error numbers are not negative. */
  ghost predicate EventFits(e: AuditEvent) {
    && e.operation < U16_LIMIT && 0 <= e.errno < 0x8000_0000 && e.subjectUid < U32_LIMIT
    && e.objectOwnerUid < U32_LIMIT && e.timestampMs < U64_LIMIT && e.subjectPid < U64_LIMIT
    && e.objectId < U64_LIMIT && e.requestedAmount < U64_LIMIT && e.resultValue < U64_LIMIT
  }

  ghost predicate AllFit(es: seq<AuditEvent>) {
    forall i | 0 <= i < |es| :: EventFits(es[i])
  }

  /** Whoever finishes a request or fails an audit call, with 32-bit user identifiers and 64-bit
      numbers, leaves an event that fits. */
  lemma RecordedFits(r: IpcRequest, o: IpcResult<nat>, op: ControlOperation, s: IpcSubject, amount: nat, e: IpcError,
                     time: nat)
    requires r.subject.uid < U32_LIMIT && r.target.ownerUid < U32_LIMIT && s.uid < U32_LIMIT
    requires r.subject.pid < U64_LIMIT && r.target.id < U64_LIMIT && s.pid < U64_LIMIT && time < U64_LIMIT
    requires r.amount < U64_LIMIT && amount < U64_LIMIT && (o.Ok? ==> o.value < U64_LIMIT)
    ensures EventFits(EventOf(r, o, time)) && EventFits(ControlEvent(op, s, amount, e, time))
    ensures EventOf(r, o, time).errno == 0 <==> o.Ok?
  {
  }

  lemma {:induction false} AppendFits(h: seq<AuditEvent>, es: seq<AuditEvent>)
    requires AllFit(h) && AllFit(es)
    ensures AllFit(AppendAll(h, es))
  {
    if es != [] { AppendFits(h, es[..|es| - 1]); }
  }

  /** Every record of a batch shown from such a log fits its 80 bytes. */
  lemma ShownFits(h: seq<AuditEvent>, after: nat, capacity: nat)
    requires Numbered(h) && AllFit(h) && |h| < U64_MAX
    ensures var b := Visible(h, after, capacity); forall i | 0 <= i < |b.events| :: Fits(RecordAt(b, i))
  {
    var b := Visible(h, after, capacity);
    forall i | 0 <= i < |b.events| ensures Fits(RecordAt(b, i)) {
      var from := Max(after, |h| - Min(|h|, AUDIT_RING_CAPACITY));
      assert b.events[i] == h[from + i] && EventFits(h[from + i]);
    }
  }

  // ---------- counters ----------

  /** The counters with the header of their structure. */
  datatype IpcStatsV1 = IpcStatsV1(abiVersion: nat, structSize: nat, stats: AuditStats)

  function Counters(s: AuditStats): seq<nat> {
    [s.capacity, s.retained, s.firstSequence, s.nextSequence, s.totalEvents, s.successfulEvents, s.failedEvents,
     s.overwrittenEvents, 0]
  }

  ghost predicate StatsFit(s: AuditStats) {
    forall i | 0 <= i < |Counters(s)| :: Counters(s)[i] < U64_LIMIT
  }

  function EncodeStats(s: AuditStats): (b: seq<byte>)
    ensures |b| == RECORD_SIZE
  {
    Words([1, RECORD_SIZE], 2) + Words([0], 4) + Words(Counters(s), 8)
  }

  function DecodeStats(b: seq<byte>): IpcStatsV1
    requires |b| == RECORD_SIZE
  {
    var h, c := ReadWords(b[..4], 2, 2), ReadWords(b[8..], 8, 9);
    if |h| == 2 && |c| == 9 then
      IpcStatsV1(h[0], h[1], AuditStats(c[0], c[1], c[2], c[3], c[4], c[5], c[6], c[7]))
    else IpcStatsV1(0, 0, AuditStats(0, 0, 0, 0, 0, 0, 0, 0))
  }

  /** A program that reads the 80 bytes gets version 1, size 80 and the counters. */
  lemma StatsRoundTrip(s: AuditStats)
    requires StatsFit(s)
    ensures DecodeStats(EncodeStats(s)) == IpcStatsV1(1, RECORD_SIZE, s)
  {
    hide Words, ReadWords, Pow256;
    var b := EncodeStats(s);
    assert b[..4] == Words([1, RECORD_SIZE], 2) && b[8..] == Words(Counters(s), 8);
    Limits();
    WordsRoundTrip([1, RECORD_SIZE], 2);
    WordsRoundTrip(Counters(s), 8);
  }

  /** Where each counter stands: from byte 8 on, eight bytes each; the flags and the last are zero. */
  lemma StatsOffsets(s: AuditStats)
    requires StatsFit(s)
    ensures var b := EncodeStats(s);
      && Field(b, 0, 2) == 1 && Field(b, 2, 2) == 80 && Field(b, 4, 4) == 0
      && Field(b, 8, 8) == s.capacity && Field(b, 16, 8) == s.retained && Field(b, 24, 8) == s.firstSequence
      && Field(b, 32, 8) == s.nextSequence && Field(b, 40, 8) == s.totalEvents && Field(b, 48, 8) == s.successfulEvents
      && Field(b, 56, 8) == s.failedEvents && Field(b, 64, 8) == s.overwrittenEvents && Field(b, 72, 8) == 0
  {
    hide Words, Pow256, FromLE;
    var b, head := EncodeStats(s), [1, RECORD_SIZE];
    Limits();
    forall i: nat | i < 2 ensures Field(b, 2 * i, 2) == head[i] {
      WordAt(head, 2, i);
      assert b[2 * i..2 * i + 2] == Words(head, 2)[2 * i..2 * (i + 1)];
    }
    WordAt([0], 4, 0);
    assert b[4..8] == Words([0], 4)[4 * 0..4 * (0 + 1)];
    forall i: nat | i < 9 ensures Field(b, 8 + 8 * i, 8) == Counters(s)[i] {
      WordAt(Counters(s), 8, i);
      assert b[8 + 8 * i..8 + 8 * i + 8] == Words(Counters(s), 8)[8 * i..8 * (i + 1)];
    }
    CountersApart(b, Counters(s));
    assert Field(b, 2 * 0, 2) == 1 && Field(b, 2 * 1, 2) == 80;
  }

  lemma CountersApart(b: seq<byte>, c: seq<nat>)
    requires |b| == RECORD_SIZE && |c| == 9 && forall i: nat | i < 9 :: Field(b, 8 + 8 * i, 8) == c[i]
    ensures [Field(b, 8, 8), Field(b, 16, 8), Field(b, 24, 8), Field(b, 32, 8), Field(b, 40, 8), Field(b, 48, 8),
             Field(b, 56, 8), Field(b, 64, 8), Field(b, 72, 8)] == c
  {
    hide Field;
    assert Field(b, 8 + 8 * 0, 8) == c[0] && Field(b, 8 + 8 * 1, 8) == c[1] && Field(b, 8 + 8 * 2, 8) == c[2];
    assert Field(b, 8 + 8 * 3, 8) == c[3] && Field(b, 8 + 8 * 4, 8) == c[4] && Field(b, 8 + 8 * 5, 8) == c[5];
    assert Field(b, 8 + 8 * 6, 8) == c[6] && Field(b, 8 + 8 * 7, 8) == c[7] && Field(b, 8 + 8 * 8, 8) == c[8];
  }
}
