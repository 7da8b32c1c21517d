/** The 32-byte pipe ring and the blocking read and write loops over it (os/src/fs/pipe.rs).
    Steps of different processes interleave at the suspend points of those loops. */
module Pipes {
  import opened Bytes
  import opened Numbers

  const RING_BUFFER_SIZE: nat := 32

  datatype Status = Full | Empty | Normal

  /** Array index `i` places after `head`. */
  function At(head: nat, i: nat): (k: nat)
    ensures k < RING_BUFFER_SIZE
  {
    (head + i) % RING_BUFFER_SIZE
  }

  /** Number of bytes between head and tail. */
  function Size(head: nat, tail: nat, status: Status): (n: nat)
    requires head < RING_BUFFER_SIZE && tail < RING_BUFFER_SIZE
  {
    match status
    case Empty => 0
    case _ => if tail > head then tail - head else tail + RING_BUFFER_SIZE - head
  }

  /** The `n` bytes from `head`, oldest first. */
  function Window(arr: seq<byte>, head: nat, n: nat): (s: seq<byte>)
    requires |arr| == RING_BUFFER_SIZE
    ensures |s| == n
  {
    seq(n, i requires 0 <= i => arr[At(head, i)])
  }

  lemma AtApart(head: nat, i: nat, j: nat)
    requires i < j < i + RING_BUFFER_SIZE
    ensures At(head, i) != At(head, j)
  {
  }

  lemma WindowPut(arr: seq<byte>, head: nat, n: nat, b: byte)
    requires |arr| == RING_BUFFER_SIZE && n < RING_BUFFER_SIZE
    ensures Window(arr[At(head, n) := b], head, n + 1) == Window(arr, head, n) + [b]
  {
    hide At;
    forall i: nat | i < n ensures At(head, i) != At(head, n) { AtApart(head, i, n); }
  }

  lemma WindowTake(arr: seq<byte>, head: nat, n: nat)
    requires |arr| == RING_BUFFER_SIZE && 0 < n && head < RING_BUFFER_SIZE
    ensures Window(arr, head, n) == [arr[head]] + Window(arr, At(head, 1), n - 1)
  {
    assert At(head, 0) == head;
    assert forall i: nat :: At(At(head, 1), i) == At(head, i + 1);
  }

  class PipeRingBuffer {
    const arr: array<byte>
    var head: nat
    var tail: nat
    var status: Status

    ghost predicate Valid()
      reads this
    {
      && arr.Length == RING_BUFFER_SIZE && head < RING_BUFFER_SIZE && tail < RING_BUFFER_SIZE
      && (status.Normal? <==> head != tail)
    }

    /** Bytes written and not yet read, oldest first. */
    ghost function Contents(): seq<byte>
      requires Valid()
      reads this, arr
    {
      Window(arr[..], head, Size(head, tail, status))
    }

    lemma Bounded()
      requires Valid()
      ensures |Contents()| <= RING_BUFFER_SIZE
    {
    }

    constructor ()
      ensures Valid() && Contents() == [] && fresh(arr)
    {
      arr := new byte[RING_BUFFER_SIZE](_ => 0);
      head, tail, status := 0, 0, Empty;
    }

    method WriteByte(b: byte)
      requires Valid() && |Contents()| < RING_BUFFER_SIZE
      modifies this`tail, this`status, arr
      ensures Valid() && Contents() == old(Contents()) + [b]
    {
      ghost var n := Size(head, tail, status);
      assert tail == At(head, n);
      WindowPut(arr[..], head, n, b);
      ghost var before := arr[..];
      status := Normal;
      arr[tail] := b;
      assert arr[..] == before[tail := b];
      tail := (tail + 1) % RING_BUFFER_SIZE;
      if tail == head {
        status := Full;
      }
      assert Size(head, tail, status) == n + 1;
    }

    method ReadByte() returns (c: byte)
      requires Valid() && Contents() != []
      modifies this`head, this`status
      ensures Valid() && old(Contents()) == [c] + Contents()
    {
      ghost var n := Size(head, tail, status);
      WindowTake(arr[..], head, n);
      status := Normal;
      c := arr[head];
      head := (head + 1) % RING_BUFFER_SIZE;
      if head == tail {
        status := Empty;
      }
      assert Size(head, tail, status) == n - 1;
    }

    method AvailableRead() returns (n: nat)
      requires Valid()
      ensures n == |Contents()| <= RING_BUFFER_SIZE
    {
      if status.Empty? {
        n := 0;
      } else if tail > head {
        n := tail - head;
      } else {
        n := tail + RING_BUFFER_SIZE - head;
      }
    }

    method AvailableWrite() returns (n: nat)
      requires Valid()
      ensures n + |Contents()| == RING_BUFFER_SIZE
    {
      if status.Full? {
        return 0;
      }
      var r := AvailableRead();
      n := RING_BUFFER_SIZE - r;
    }
  }

  // ---------- the blocking calls, one uninterrupted turn at a time ----------

  /** One turn of a blocking read that still wants `room` bytes: it runs until it returns or
      suspends, going round its loop as the source does, and reports whether it returned. */
  method ReadTurn(ring: PipeRingBuffer, room: nat, closed: bool) returns (bytes: seq<byte>, done: bool)
    requires ring.Valid()
    modifies ring`head, ring`status
    ensures ring.Valid() && old(ring.Contents()) == bytes + ring.Contents()
    ensures |bytes| == Min(room, |old(ring.Contents())|)
    ensures done == ((old(ring.Contents()) != [] && |bytes| == room) || closed)
  {
    hide PipeRingBuffer.Valid, PipeRingBuffer.Contents;
    bytes := [];
    while true
      modifies ring`head, ring`status
      invariant ring.Valid() && old(ring.Contents()) == bytes + ring.Contents()
      invariant |bytes| <= room && (bytes == [] || (ring.Contents() == [] && |bytes| < room))
      decreases |ring.Contents()|
    {
      var loopRead := ring.AvailableRead();
      if loopRead == 0 {
        return bytes, closed;
      }
      var more;
      ghost var before := bytes;
      more, done := ReadPass(ring, room - |bytes|, loopRead);
      bytes := bytes + more;
      assert before + (more + ring.Contents()) == bytes + ring.Contents();
      if done { return; }
    }
  }

  /** One round: as many bytes as were available, unless the buffer fills up first. */
  method ReadPass(ring: PipeRingBuffer, room: nat, loopRead: nat) returns (bytes: seq<byte>, done: bool)
    requires ring.Valid() && loopRead == |ring.Contents()| > 0
    modifies ring`head, ring`status
    ensures ring.Valid() && old(ring.Contents()) == bytes + ring.Contents()
    ensures |bytes| == Min(room, loopRead) && done == (|bytes| == room)
  {
    bytes := [];
    for i := 0 to loopRead
      modifies ring`head, ring`status
      invariant ring.Valid() && |bytes| == i <= room && (i == room ==> i == 0)
      invariant old(ring.Contents()) == bytes + ring.Contents()
    {
      if |bytes| == room {
        return bytes, true;
      }
      ghost var rest := ring.Contents();
      var b := ring.ReadByte();
      assert bytes + rest == bytes + [b] + ring.Contents();
      bytes := bytes + [b];
      if |bytes| == room {
        return bytes, true;
      }
    }
    done := false;
  }

  /** One turn of a blocking write that still has `data` to send. */
  method WriteTurn(ring: PipeRingBuffer, data: seq<byte>) returns (n: nat, done: bool)
    requires ring.Valid()
    modifies ring`tail, ring`status, ring.arr
    ensures ring.Valid() && n == Min(|data|, RING_BUFFER_SIZE - |old(ring.Contents())|) <= |data|
    ensures ring.Contents() == old(ring.Contents()) + data[..n]
    ensures done == (|old(ring.Contents())| < RING_BUFFER_SIZE && n == |data|)
  {
    hide PipeRingBuffer.Valid, PipeRingBuffer.Contents;
    ring.Bounded();
    n := 0;
    assert ring.Contents() == ring.Contents() + data[..0];
    while true
      modifies ring`tail, ring`status, ring.arr
      invariant ring.Valid() && n <= |data| && |old(ring.Contents())| + n <= RING_BUFFER_SIZE
      invariant ring.Contents() == old(ring.Contents()) + data[..n]
      invariant n == 0 || (n < |data| && |ring.Contents()| == RING_BUFFER_SIZE)
      decreases RING_BUFFER_SIZE - |ring.Contents()|
    {
      var loopWrite := ring.AvailableWrite();
      if loopWrite == 0 {
        return n, false;
      }
      var k;
      k, done := WritePass(ring, data[n..], loopWrite);
      assert data[..n] + data[n..][..k] == data[..n + k];
      n := n + k;
      if done { return; }
    }
  }

  /** One round: as many bytes as fit, unless the data ends first. */
  method WritePass(ring: PipeRingBuffer, data: seq<byte>, loopWrite: nat) returns (n: nat, done: bool)
    requires ring.Valid() && loopWrite + |ring.Contents()| == RING_BUFFER_SIZE && loopWrite > 0
    modifies ring`tail, ring`status, ring.arr
    ensures ring.Valid() && n == Min(|data|, loopWrite) <= |data| && done == (n == |data|)
    ensures ring.Contents() == old(ring.Contents()) + data[..n]
  {
    n := 0;
    assert ring.Contents() == ring.Contents() + data[..0];
    for i := 0 to loopWrite
      modifies ring`tail, ring`status, ring.arr
      invariant ring.Valid() && n == i <= |data| && (i == |data| ==> i == 0)
      invariant ring.Contents() == old(ring.Contents()) + data[..n]
    {
      if n == |data| {
        return n, true;
      }
      ring.WriteByte(data[n]);
      assert data[..n + 1] == data[..n] + [data[n]];
      n := n + 1;
      if n == |data| {
        return n, true;
      }
    }
    done := false;
  }

  // ---------- every interleaving of those turns ----------

  datatype Reader = Reader(want: nat, got: seq<byte>, done: bool)
  datatype Writer = Writer(data: seq<byte>, sent: nat, done: bool)

  /** A byte with the call that put it in or took it out. */
  datatype Tagged = Tagged(call: nat, value: byte)

  /** `writeEnds` counts the descriptors; a write in progress holds one more reference. */
  datatype PipeState = PipeState(buffer: seq<byte>, writeEnds: nat, readers: map<nat, Reader>,
                                 writers: map<nat, Writer>, accepted: seq<Tagged>,
                                 delivered: seq<Tagged>)

  datatype Event =
    | StartRead(call: nat, want: nat) | StartWrite(call: nat, data: seq<byte>)
    | TurnRead(call: nat) | TurnWrite(call: nat)
    | DupWriteEnd | CloseWriteEnd

  const Initial := PipeState([], 1, map[], map[], [], [])

  /** No descriptor and no running write refers to the write end any more. */
  predicate AllClosed(writeEnds: nat, writers: map<nat, Writer>) {
    writeEnds == 0 && forall w | w in writers :: writers[w].done
  }

  function Tag(call: nat, bytes: seq<byte>): (t: seq<Tagged>)
    ensures |t| == |bytes|
  {
    seq(|bytes|, i requires 0 <= i < |bytes| => Tagged(call, bytes[i]))
  }

  function Values(t: seq<Tagged>): (s: seq<byte>)
    ensures |s| == |t|
  {
    seq(|t|, i requires 0 <= i < |t| => t[i].value)
  }

  /** The bytes of `t` that belong to one call, in order. */
  function Of(t: seq<Tagged>, call: nat): (s: seq<byte>) {
    if t == [] then []
    else
      var last := t[|t| - 1];
      if last.call == call then Of(t[..|t| - 1], call) + [last.value] else Of(t[..|t| - 1], call)
  }

  ghost predicate Enabled(s: PipeState, e: Event) {
    match e
    case StartRead(c, _) => c !in s.readers
    case StartWrite(c, _) => c !in s.writers && s.writeEnds > 0
    case TurnRead(c) => c in s.readers && !s.readers[c].done
    case TurnWrite(c) => c in s.writers && !s.writers[c].done && s.writers[c].sent <= |s.writers[c].data|
    case DupWriteEnd => s.writeEnds > 0
    case CloseWriteEnd => s.writeEnds > 0
  }

  ghost function Next(s: PipeState, e: Event): PipeState
    requires Enabled(s, e)
  {
    match e
    case StartRead(c, want) => s.(readers := s.readers[c := Reader(want, [], false)])
    case StartWrite(c, data) => s.(writers := s.writers[c := Writer(data, 0, false)])
    case TurnRead(c) =>
      var r := s.readers[c];
      var n := Min(if |r.got| <= r.want then r.want - |r.got| else 0, |s.buffer|);
      var done := (s.buffer != [] && |r.got| + n >= r.want) || AllClosed(s.writeEnds, s.writers);
      s.(readers := s.readers[c := r.(got := r.got + s.buffer[..n], done := done)],
         buffer := s.buffer[n..], delivered := s.delivered + Tag(c, s.buffer[..n]))
    case TurnWrite(c) =>
      var w := s.writers[c];
      var room := if |s.buffer| <= RING_BUFFER_SIZE then RING_BUFFER_SIZE - |s.buffer| else 0;
      var n := Min(|w.data| - w.sent, room);
      var bytes := w.data[w.sent..w.sent + n];
      s.(writers := s.writers[c := w.(sent := w.sent + n, done := room > 0 && w.sent + n == |w.data|)],
         buffer := s.buffer + bytes, accepted := s.accepted + Tag(c, bytes))
    case DupWriteEnd => s.(writeEnds := s.writeEnds + 1)
    case CloseWriteEnd => s.(writeEnds := s.writeEnds - 1)
  }

  /** Every event of the schedule is possible where it occurs. */
  ghost predicate Possible(s: PipeState, es: seq<Event>)
    decreases |es|
  {
    es != [] ==> Enabled(s, es[0]) && Possible(Next(s, es[0]), es[1..])
  }

  ghost function Run(s: PipeState, es: seq<Event>): PipeState
    requires Possible(s, es)
    decreases |es|
  {
    if es == [] then s else Run(Next(s, es[0]), es[1..])
  }

  ghost predicate ReaderOk(s: PipeState, c: nat)
    requires c in s.readers
  {
    var r := s.readers[c];
    && r.got == Of(s.delivered, c) && |r.got| <= r.want
    && (r.done && |r.got| < r.want ==> AllClosed(s.writeEnds, s.writers) && s.buffer == [])
    && (r.want > 0 && |r.got| == r.want ==> r.done)
  }

  ghost predicate WriterOk(s: PipeState, c: nat)
    requires c in s.writers
  {
    var w := s.writers[c];
    && w.sent <= |w.data| && Of(s.accepted, c) == w.data[..w.sent]
    && (w.done ==> w.sent == |w.data|)
    && (w.data != [] && w.sent == |w.data| ==> w.done)
  }

  /** What the pipe promises at every point of every schedule: the ring holds exactly the bytes
      accepted and not delivered, each call's share is in its own order, a write has returned
      exactly if it was accepted whole, a read that has all it asked for has returned, and a short
      read means end of file. */
  ghost predicate StreamOk(s: PipeState) {
    && |s.buffer| <= RING_BUFFER_SIZE
    && Values(s.delivered) + s.buffer == Values(s.accepted)
    && (forall c | c in s.readers :: ReaderOk(s, c))
    && (forall c | c in s.writers :: WriterOk(s, c))
    && (forall t | t in s.delivered :: t.call in s.readers)
    && (forall t | t in s.accepted :: t.call in s.writers)
  }

  lemma {:induction false} OfAppend(t: seq<Tagged>, c: nat, bytes: seq<byte>, d: nat)
    ensures Of(t + Tag(c, bytes), d) == Of(t, d) + (if c == d then bytes else [])
    decreases |bytes|
  {
    if bytes == [] {
      assert t + Tag(c, bytes) == t;
    } else {
      var n := |bytes| - 1;
      var whole := t + Tag(c, bytes);
      assert whole[..|whole| - 1] == t + Tag(c, bytes[..n]);
      assert bytes == bytes[..n] + [bytes[n]];
      OfAppend(t, c, bytes[..n], d);
    }
  }

  lemma ValuesAppend(t: seq<Tagged>, c: nat, bytes: seq<byte>)
    ensures Values(t + Tag(c, bytes)) == Values(t) + bytes
  {
  }

  lemma {:induction false} OfAbsent(t: seq<Tagged>, c: nat)
    requires forall x | x in t :: x.call != c
    ensures Of(t, c) == []
  {
    if t != [] {
      assert t[|t| - 1] in t;
      OfAbsent(t[..|t| - 1], c);
    }
  }

  lemma ReadKeepsStream(s: PipeState, c: nat)
    requires StreamOk(s) && Enabled(s, TurnRead(c))
    ensures StreamOk(Next(s, TurnRead(c)))
  {
    hide Of, Values, Tag, AllClosed;
    var s' := Next(s, TurnRead(c));
    var r, r' := s.readers[c], s'.readers[c];
    assert ReaderOk(s, c);
    var n := |r'.got| - |r.got|;
    var bytes := s.buffer[..n];
    assert s'.delivered == s.delivered + Tag(c, bytes);
    ValuesAppend(s.delivered, c, bytes);
    assert s.buffer == bytes + s'.buffer;
    forall d | d in s'.readers ensures ReaderOk(s', d) {
      OfAppend(s.delivered, c, bytes, d);
      assert d in s.readers && ReaderOk(s, d);
    }
    forall d | d in s'.writers ensures WriterOk(s', d) {
      assert WriterOk(s, d);
    }
    TagCalls(c, bytes);
  }

  lemma TagCalls(c: nat, bytes: seq<byte>)
    ensures forall t | t in Tag(c, bytes) :: t.call == c
  {
  }

  lemma WriteKeepsStream(s: PipeState, c: nat)
    requires StreamOk(s) && Enabled(s, TurnWrite(c))
    ensures StreamOk(Next(s, TurnWrite(c)))
  {
    hide Of, Values, Tag;
    var s' := Next(s, TurnWrite(c));
    var w, w' := s.writers[c], s'.writers[c];
    assert WriterOk(s, c);
    var bytes := w.data[w.sent..w'.sent];
    assert s'.accepted == s.accepted + Tag(c, bytes);
    ValuesAppend(s.accepted, c, bytes);
    assert Values(s.delivered) + (s.buffer + bytes) == (Values(s.delivered) + s.buffer) + bytes;
    assert !AllClosed(s.writeEnds, s.writers);
    forall d | d in s'.writers ensures WriterOk(s', d) {
      OfAppend(s.accepted, c, bytes, d);
      assert d in s.writers && WriterOk(s, d);
      assert w.data[..w'.sent] == w.data[..w.sent] + bytes;
    }
    forall d | d in s'.readers ensures ReaderOk(s', d) {
      assert ReaderOk(s, d);
    }
    TagCalls(c, bytes);
  }

  lemma StartKeepsStream(s: PipeState, e: Event)
    requires StreamOk(s) && Enabled(s, e) && !e.TurnRead? && !e.TurnWrite?
    ensures StreamOk(Next(s, e))
  {
    hide Of, Values;
    var s' := Next(s, e);
    forall d | d in s'.readers ensures ReaderOk(s', d) {
      if d in s.readers {
        assert ReaderOk(s, d);
      } else {
        OfAbsent(s.delivered, d);
      }
    }
    forall d | d in s'.writers ensures WriterOk(s', d) {
      if d in s.writers {
        assert WriterOk(s, d);
      } else {
        OfAbsent(s.accepted, d);
      }
    }
  }

  lemma StepKeepsStream(s: PipeState, e: Event)
    requires StreamOk(s) && Enabled(s, e)
    ensures StreamOk(Next(s, e))
  {
    hide StreamOk;
    if e.TurnRead? {
      ReadKeepsStream(s, e.call);
    } else if e.TurnWrite? {
      WriteKeepsStream(s, e.call);
    } else {
      StartKeepsStream(s, e);
    }
  }

  /** The promise holds after every schedule of reads, writes, closes and duplications. */
  lemma {:induction false} EveryScheduleKeepsStream(s: PipeState, es: seq<Event>)
    requires StreamOk(s) && Possible(s, es)
    ensures StreamOk(Run(s, es))
    decreases |es|
  {
    hide StreamOk;
    if es != [] {
      StepKeepsStream(s, es[0]);
      EveryScheduleKeepsStream(Next(s, es[0]), es[1..]);
    }
  }

  // ---------- the schedule alone ----------

  /** How often an event occurs in a schedule. */
  ghost function Times(es: seq<Event>, e: Event): nat {
    if es == [] then 0 else (if es[0] == e then 1 else 0) + Times(es[1..], e)
  }

  /** The count of write ends is the number of duplications and closes that happened. */
  lemma {:induction false} WriteEndsCounted(s: PipeState, es: seq<Event>)
    requires Possible(s, es)
    ensures Run(s, es).writeEnds + Times(es, CloseWriteEnd) == s.writeEnds + Times(es, DupWriteEnd)
    decreases |es|
  {
    if es != [] { WriteEndsCounted(Next(s, es[0]), es[1..]); }
  }

  /** Reads are the ones started, each with the length it was started with. */
  ghost predicate ReadsStarted(s: PipeState, es: seq<Event>, s': PipeState) {
    && s.readers.Keys <= s'.readers.Keys
    && (forall c | c in s'.readers :: if c in s.readers then s'.readers[c].want == s.readers[c].want
                                      else StartRead(c, s'.readers[c].want) in es)
    && (forall e | e in es && e.StartRead? :: e.call in s'.readers && s'.readers[e.call].want == e.want)
  }

  /** Writes are the ones started, each with the data it was started with. */
  ghost predicate WritesStarted(s: PipeState, es: seq<Event>, s': PipeState) {
    && s.writers.Keys <= s'.writers.Keys
    && (forall c | c in s'.writers :: if c in s.writers then s'.writers[c].data == s.writers[c].data
                                      else StartWrite(c, s'.writers[c].data) in es)
    && (forall e | e in es && e.StartWrite? :: e.call in s'.writers && s'.writers[e.call].data == e.data)
  }

  lemma {:induction false} CallsAsStarted(s: PipeState, es: seq<Event>)
    requires Possible(s, es)
    ensures ReadsStarted(s, es, Run(s, es)) && WritesStarted(s, es, Run(s, es))
    decreases |es|
  {
    hide Enabled, Next;
    if es != [] {
      var s' := Next(s, es[0]);
      CallsAsStarted(s', es[1..]);
      hide ReadsStarted, WritesStarted;
      ReadStartedFirst(s, es, s', Run(s, es));
      WriteStartedFirst(s, es, s', Run(s, es));
    }
  }

  lemma ReadStartedFirst(s: PipeState, es: seq<Event>, s': PipeState, s'': PipeState)
    requires es != [] && Enabled(s, es[0]) && s' == Next(s, es[0]) && ReadsStarted(s', es[1..], s'')
    ensures ReadsStarted(s, es, s'')
  {
    hide Enabled, Next;
    NextCalls(s, es[0]);
    assert es[0] in es && forall e | e in es[1..] :: e in es;
    assert forall e | e in es :: e == es[0] || e in es[1..];
  }

  lemma WriteStartedFirst(s: PipeState, es: seq<Event>, s': PipeState, s'': PipeState)
    requires es != [] && Enabled(s, es[0]) && s' == Next(s, es[0]) && WritesStarted(s', es[1..], s'')
    ensures WritesStarted(s, es, s'')
  {
    hide Enabled, Next;
    NextCalls(s, es[0]);
    assert es[0] in es && forall e | e in es[1..] :: e in es;
    assert forall e | e in es :: e == es[0] || e in es[1..];
  }

  /** One event starts at most the call it names. */
  lemma NextCalls(s: PipeState, e: Event)
    requires Enabled(s, e)
    ensures var s' := Next(s, e);
      && s'.readers.Keys == s.readers.Keys + (if e.StartRead? then {e.call} else {})
      && s'.writers.Keys == s.writers.Keys + (if e.StartWrite? then {e.call} else {})
      && (forall c | c in s.readers :: s'.readers[c].want == s.readers[c].want)
      && (forall c | c in s.writers :: s'.writers[c].data == s.writers[c].data)
      && (e.StartRead? ==> e.call !in s.readers && s'.readers[e.call].want == e.want)
      && (e.StartWrite? ==> e.call !in s.writers && s'.writers[e.call].data == e.data)
  {
  }

  /** What a turn of a read amounts to: it goes on until it returns or the ring is empty, it returns
      only with data in the ring or at end of file, and nothing else is touched. */
  lemma ReadGoesOn(s: PipeState, c: nat)
    requires StreamOk(s) && Enabled(s, TurnRead(c))
    ensures var s', ended := Next(s, TurnRead(c)), s.writeEnds == 0 && forall w | w in s.writers :: s.writers[w].done;
      && s'.readers == s.readers[c := s'.readers[c]] && s'.writers == s.writers && s'.writeEnds == s.writeEnds
      && s'.accepted == s.accepted && s'.readers[c].want == s.readers[c].want
      && (s'.readers[c].done || s'.buffer == []) && (s'.readers[c].done ==> s.buffer != [] || ended)
      && (ended ==> s'.readers[c].done)
  {
    hide Of, Values, Tag, WriterOk;
    assert ReaderOk(s, c);
  }

  /** A write goes on until it returns or the ring is full, and touches nothing else. */
  lemma WriteGoesOn(s: PipeState, c: nat)
    requires StreamOk(s) && Enabled(s, TurnWrite(c))
    ensures var s' := Next(s, TurnWrite(c));
      && s'.writers == s.writers[c := s'.writers[c]] && s'.readers == s.readers && s'.writeEnds == s.writeEnds
      && s'.delivered == s.delivered && s'.writers[c].data == s.writers[c].data
      && (s'.writers[c].done || |s'.buffer| == 32) && (s'.writers[c].done ==> |s.buffer| < 32)
  {
    hide Of, Values, Tag, ReaderOk;
    assert WriterOk(s, c);
  }

  /** A read returns fewer bytes than it asked for only once every write has completed, every byte
      of it has been delivered and as many write ends were closed as there ever were. */
  lemma ShortReadIsEndOfFile(es: seq<Event>, r: nat)
    requires Possible(Initial, es)
    requires r in Run(Initial, es).readers
    ensures var s := Run(Initial, es);
      s.readers[r].done && |s.readers[r].got| < s.readers[r].want ==>
        && Times(es, CloseWriteEnd) == 1 + Times(es, DupWriteEnd)
        && Values(s.delivered) == Values(s.accepted)
        && (forall w | w in s.writers :: s.writers[w].done && Of(s.accepted, w) == s.writers[w].data)
        && (forall e | e in es && e.StartWrite? :: Of(s.accepted, e.call) == e.data)
  {
    hide Of, Values;
    var s := Run(Initial, es);
    InitialOk();
    WriteEndsCounted(Initial, es);
    CallsAsStarted(Initial, es);
    EveryScheduleKeepsStream(Initial, es);
    assert ReaderOk(s, r);
    if s.readers[r].done && |s.readers[r].got| < s.readers[r].want {
      assert Values(s.delivered) + s.buffer == Values(s.delivered);
      forall w | w in s.writers ensures s.writers[w].done && Of(s.accepted, w) == s.writers[w].data {
        assert WriterOk(s, w);
      }
    }
  }

  /** A schedule without a turn of any reader. */
  ghost predicate NobodyReads(es: seq<Event>) {
    forall e | e in es :: !e.TurnRead?
  }

  /** The write returns in some schedule without a reader's turn. */
  ghost predicate ReturnsUnread(s: PipeState, w: nat, es: seq<Event>) {
    Possible(s, es) && NobodyReads(es) && w in Run(s, es).writers && Run(s, es).writers[w].done
  }

  /** The rest of a write fits in a ring that is not full. */
  ghost predicate FitsNow(s: PipeState, w: nat)
    requires w in s.writers
  {
    |s.writers[w].data| - s.writers[w].sent <= RING_BUFFER_SIZE - |s.buffer| && |s.buffer| < RING_BUFFER_SIZE
  }

  lemma {:induction false} WriteNeedsReader(s: PipeState, es: seq<Event>, w: nat)
    requires StreamOk(s) && Possible(s, es) && NobodyReads(es)
    requires w in s.writers && !s.writers[w].done && !FitsNow(s, w)
    ensures w in Run(s, es).writers && !Run(s, es).writers[w].done
    decreases |es|
  {
    assert WriterOk(s, w);
    if es != [] {
      StepKeepsStream(s, es[0]);
      assert es[0] in es;
      WriteNeedsReader(Next(s, es[0]), es[1..], w);
    }
  }

  /** When a write can return although nobody reads, whatever else happens: exactly when what is
      left of it fits in the ring, and the ring is not full. The write loop looks at nothing else;
      in particular it never asks whether a reader is left. */
  lemma WriteReturnsUnread(s: PipeState, w: nat)
    requires StreamOk(s) && w in s.writers && !s.writers[w].done
    ensures (exists es :: ReturnsUnread(s, w, es)) <==> FitsNow(s, w)
  {
    if FitsNow(s, w) {
      assert WriterOk(s, w);
      var es := [TurnWrite(w)];
      assert es[1..] == [];
      assert Possible(Next(s, es[0]), es[1..]);
      assert Run(s, es) == Next(s, es[0]);
      assert ReturnsUnread(s, w, es);
    } else {
      forall es | Possible(s, es) && NobodyReads(es) ensures !ReturnsUnread(s, w, es) {
        WriteNeedsReader(s, es, w);
      }
    }
  }

  /** A first write of 33 bytes waits as long as nobody reads. */
  lemma LongWriteWaits(es: seq<Event>)
    requires Possible(Initial, [StartWrite(0, Zeros(33))] + es) && NobodyReads(es)
    ensures var s := Run(Initial, [StartWrite(0, Zeros(33))] + es); 0 in s.writers && !s.writers[0].done
  {
    var first := StartWrite(0, Zeros(33));
    var run := [first] + es;
    assert run[0] == first && run[1..] == es;
    InitialOk();
    StepKeepsStream(Initial, first);
    WriteNeedsReader(Next(Initial, first), es, 0);
  }

  /** Runs a schedule on a real ring; each call keeps its own progress between its turns. */
  method Execute(es: seq<Event>)
    returns (ring: PipeRingBuffer, writeEnds: nat, readers: map<nat, Reader>, writers: map<nat, Writer>)
    requires Possible(Initial, es)
    ensures fresh(ring) && ring.Valid()
    ensures var s := Run(Initial, es);
      ring.Contents() == s.buffer && writeEnds == s.writeEnds && readers == s.readers && writers == s.writers
      && StreamOk(s)
    ensures writeEnds + Times(es, CloseWriteEnd) == 1 + Times(es, DupWriteEnd)
    ensures forall e | e in es && e.StartRead? :: e.call in readers && readers[e.call].want == e.want
    ensures forall e | e in es && e.StartWrite? :: e.call in writers && writers[e.call].data == e.data
  {
    hide StreamOk, PipeRingBuffer.Valid, PipeRingBuffer.Contents, AllClosed, Times;
    ring := new PipeRingBuffer();
    writeEnds, readers, writers := 1, map[], map[];
    ghost var s := Initial;
    InitialOk();
    for i := 0 to |es|
      invariant fresh(ring) && fresh(ring.arr) && ring.Valid() && StreamOk(s)
      invariant ring.Contents() == s.buffer && writeEnds == s.writeEnds && readers == s.readers && writers == s.writers
      invariant Possible(s, es[i..]) && Run(s, es[i..]) == Run(Initial, es)
    {
      assert es[i..][0] == es[i] && es[i..][1..] == es[i + 1..];
      StepKeepsStream(s, es[i]);
      match es[i] {
        case StartRead(c, want) => readers := readers[c := Reader(want, [], false)];
        case StartWrite(c, data) => writers := writers[c := Writer(data, 0, false)];
        case TurnRead(c) =>
          var r := readers[c];
          ReaderBound(s, c);
          var bytes, done := ReadTurn(ring, r.want - |r.got|, AllClosed(writeEnds, writers));
          assert bytes == s.buffer[..|bytes|] && ring.Contents() == s.buffer[|bytes|..];
          readers := readers[c := r.(got := r.got + bytes, done := done)];
        case TurnWrite(c) =>
          var w := writers[c];
          WriterBound(s, c);
          var n, done := WriteTurn(ring, w.data[w.sent..]);
          assert w.data[w.sent..][..n] == w.data[w.sent..w.sent + n];
          writers := writers[c := w.(sent := w.sent + n, done := done)];
        case DupWriteEnd => writeEnds := writeEnds + 1;
        case CloseWriteEnd => writeEnds := writeEnds - 1;
      }
      s := Next(s, es[i]);
    }
    WriteEndsCounted(Initial, es);
    CallsAsStarted(Initial, es);
  }

  lemma InitialOk()
    ensures StreamOk(Initial)
  {
    assert Values([]) + [] == Values([]);
  }

  lemma ReaderBound(s: PipeState, c: nat)
    requires StreamOk(s) && c in s.readers
    ensures |s.readers[c].got| <= s.readers[c].want && |s.buffer| <= RING_BUFFER_SIZE
  {
    assert ReaderOk(s, c);
  }

  lemma WriterBound(s: PipeState, c: nat)
    requires StreamOk(s) && c in s.writers
    ensures s.writers[c].sent <= |s.writers[c].data| && |s.buffer| <= RING_BUFFER_SIZE
  {
    assert WriterOk(s, c);
  }
}
