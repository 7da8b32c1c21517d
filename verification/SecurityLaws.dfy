/** What each call of the plain description amounts to, on numbers and table slots: return values
    as a user program sees them, descriptors one by one, and the event field by field. */
module SecurityLaws {
  import opened Audit
  import opened Numbers
  import opened Options
  import opened Quota
  import opened SecurityApi
  import opened SecuritySpec

  /** What descriptor `fd` refers to. */
  function At(t: FdTable, fd: int): Option<File> {
    if 0 <= fd < |t| then t[fd] else None
  }

  /** All descriptors but these refer to what they did. */
  ghost predicate OthersSame(t: FdTable, t': FdTable, fds: set<int>) {
    forall fd: nat | fd !in fds :: At(t', fd) == At(t, fd)
  }

  /** The count of descriptors is the size of the set of open ones. */
  ghost function OpenSet(t: FdTable, pipesOnly: bool): set<nat> {
    set fd: nat | fd < |t| && t[fd].Some? && (pipesOnly ==> t[fd].value.pipe.Some?)
  }

  lemma {:induction false} HeldCounts(t: FdTable, pipesOnly: bool)
    ensures Held(t, pipesOnly) == |OpenSet(t, pipesOnly)|
  {
    if t != [] {
      var n := |t| - 1;
      var front, last := t[..n], t[n];
      HeldCounts(front, pipesOnly);
      assert t == front + [last];
      HeldConcat(front, [last], pipesOnly);
      assert Held([last], pipesOnly) == Weight(last, pipesOnly) + Held([], pipesOnly);
      var counts := last.Some? && (pipesOnly ==> last.value.pipe.Some?);
      assert OpenSet(t, pipesOnly) == OpenSet(front, pipesOnly) + (if counts then {n} else {});
    }
  }

  // ---------- descriptors ----------

  /** The result is the lowest closed descriptor, and it is the only one that changes. */
  ghost predicate Opens(t: FdTable, t': FdTable, fd: int, f: File) {
    && 0 <= fd && At(t, fd).None? && At(t', fd) == Some(f) && OthersSame(t, t', {fd})
    && forall lower: nat | lower < fd :: At(t, lower).Some?
  }

  lemma InstallOpens(t: FdTable, f: File)
    ensures Opens(t, Install(t, f), FirstFree(t), f)
  {
  }

  lemma OpenLaw(s: Sys, pid: nat, c: Call)
    requires Enabled(s, pid, c) && c.Open?
    ensures var t, t', ret := s.procs[pid].table, Procs(s, pid, c)[pid].table, Returns(s, pid, c);
      && pid in Procs(s, pid, c)
      && (ret == Some(-14) <==> !c.pathOk)
      && (ret == Some(-22) <==> c.pathOk && !c.flagsOk)
      && (ret == Some(-1) <==> c.pathOk && c.flagsOk && c.found.None?)
      && (ret == Some(-24) <==> c.pathOk && c.flagsOk && c.found.Some? && Held(t, false) >= 32)
      && ret.Some?
      && (if ret.value < 0 then t' == t
          else c.found.Some? && Opens(t, t', ret.value, File(c.found.value.0, c.found.value.1, None)))
  {
    hide Opens, Held, Install;
    if c.found.Some? { InstallOpens(s.procs[pid].table, File(c.found.value.0, c.found.value.1, None)); }
  }

  lemma CloseLaw(s: Sys, pid: nat, c: Call)
    requires Enabled(s, pid, c) && c.Close?
    ensures var t, t' := s.procs[pid].table, Procs(s, pid, c)[pid].table;
      if At(t, c.fd).Some? then
        Returns(s, pid, c) == Some(0) && At(t', c.fd).None? && OthersSame(t, t', {c.fd})
      else Returns(s, pid, c) == Some(-1) && t' == t
  {
  }

  lemma DupLaw(s: Sys, pid: nat, c: Call)
    requires Enabled(s, pid, c) && c.Dup?
    ensures var t, t', ret := s.procs[pid].table, Procs(s, pid, c)[pid].table, Returns(s, pid, c);
      && pid in Procs(s, pid, c)
      && (ret == Some(-1) <==> At(t, c.fd).None?)
      && (ret == Some(-24) <==> At(t, c.fd).Some? && Held(t, false) >= 32)
      && (ret == Some(-28) <==>
            At(t, c.fd).Some? && Held(t, false) < 32 && At(t, c.fd).value.pipe.Some? && Held(t, true) >= 16)
      && ret.Some?
      && (if ret.value < 0 then t' == t else At(t, c.fd).Some? && Opens(t, t', ret.value, At(t, c.fd).value))
  {
    hide Opens, Held, Install;
    if At(s.procs[pid].table, c.fd).Some? { InstallOpens(s.procs[pid].table, At(s.procs[pid].table, c.fd).value); }
  }

  /** A pipe: the two lowest closed descriptors become its read end and its write end, or every
      descriptor is as it was. */
  ghost predicate OpensPipe(t: FdTable, t': FdTable, r: int, w: int, id: nat, uid: nat) {
    && 0 <= r < w && At(t, r).None? && At(t, w).None? && OthersSame(t, t', {r, w})
    && At(t', r) == Some(File(true, false, Some(IpcObject(id, uid))))
    && At(t', w) == Some(File(false, true, Some(IpcObject(id, uid))))
    && forall lower: nat | lower < w && lower != r :: At(t, lower).Some?
  }

  lemma PipeOpens(t: FdTable, id: nat, uid: nat)
    ensures var r := FirstFree(t);
      OpensPipe(t, WithPipe(t, id, uid), r, FirstFree(Install(t, ReadEnd(id, uid))), id, uid)
  {
    hide Install, FirstFree;
    var t1 := Install(t, ReadEnd(id, uid));
    InstallOpens(t, ReadEnd(id, uid));
    InstallOpens(t1, WriteEnd(id, uid));
    var r, w := FirstFree(t), FirstFree(t1);
    assert At(t1, r).Some? && At(t1, w).None?;
  }

  lemma MakePipeLaw(s: Sys, pid: nat, c: Call)
    requires Enabled(s, pid, c) && c.MakePipe?
    ensures var p, t', ret := s.procs[pid], Procs(s, pid, c)[pid].table, Returns(s, pid, c);
      var files, pipes := Held(p.table, false), Held(p.table, true);
      && pid in Procs(s, pid, c)
      && (ret == Some(-24) <==> files + 2 > 32)
      && (ret == Some(-28) <==> files + 2 <= 32 && (pipes + 2 > 16 || s.nextPipe >= 0xFFFF_FFFF_FFFF_FFFF))
      && (ret == Some(-14) <==> files + 2 <= 32 && pipes + 2 <= 16 && s.nextPipe < 0xFFFF_FFFF_FFFF_FFFF
                                && !(c.copyRead && c.copyWrite))
      && (ret == Some(0) || ret == Some(-24) || ret == Some(-28) || ret == Some(-14))
      && (if ret == Some(0) then exists r, w :: OpensPipe(p.table, t', r, w, s.nextPipe, p.subject.uid)
          else OthersSame(p.table, t', {}))
      && Step(s, pid, c, 0).nextPipe == s.nextPipe + (if ret == Some(0) || ret == Some(-14) then 1 else 0)
  {
    hide Held, OpensPipe, WithPipe;
    var p := s.procs[pid];
    PipeOpens(p.table, s.nextPipe, p.subject.uid);
    PadSame(p.table, FirstFree(Install(p.table, ReadEnd(s.nextPipe, p.subject.uid))) + 1);
  }

  lemma PadSame(t: FdTable, n: nat)
    ensures OthersSame(t, Pad(t, n), {}) && OthersSame(t, t, {})
  {
  }

  // ---------- transfers ----------

  /** A read or write is refused with -1 unless its descriptor is open with that right, then with
      -14 unless the buffer is good; an empty one returns 0; otherwise a file transfers at once and
      a pipe blocks, holding the request it will report. */
  lemma TransferLaw(s: Sys, pid: nat, c: Call)
    requires Enabled(s, pid, c) && c.BeginTransfer?
    ensures var p, ret := s.procs[pid], Returns(s, pid, c);
      var f := At(p.table, c.fd);
      var right := f.Some? && (if c.write then f.value.writable else f.value.readable);
      && (!right ==> ret == Some(-1))
      && (right && !c.bufferOk ==> ret == Some(-14))
      && (right && c.bufferOk && c.len == 0 ==> ret == Some(0))
      && (right && c.bufferOk && c.len > 0 && f.value.pipe.None? ==> ret == Some(c.transferred))
      && (right && c.bufferOk && c.len > 0 && f.value.pipe.Some? ==> ret == None)
      && Procs(s, pid, c)[pid] ==
           if ret.Some? then p
           else
             var operation := if c.write then PipeWrite else PipeRead;
             p.(blocked := Some(IpcRequest(p.subject, f.value.pipe.value, operation, c.len)))
  {
  }

  lemma FinishLaw(s: Sys, pid: nat, c: Call)
    requires Enabled(s, pid, c) && c.FinishTransfer?
    ensures Returns(s, pid, c) == Some(c.transferred)
    ensures Procs(s, pid, c) == s.procs[pid := s.procs[pid].(blocked := None)]
  {
  }

  // ---------- signals and identity ----------

  lemma KillLaw(s: Sys, pid: nat, c: Call)
    requires Enabled(s, pid, c) && c.Kill?
    ensures var p, ret := s.procs[pid].subject, Returns(s, pid, c);
      var known := 0 <= c.signum <= 31 && c.target in s.procs;
      var may := known && (|| p.pid == c.target || p.uid == s.procs[c.target].subject.uid
                           || p.uid == 0 || p.capabilities.kill);
      && (ret == Some(-22) <==> !(0 <= c.signum <= 31))
      && (ret == Some(-3) <==> 0 <= c.signum <= 31 && c.target !in s.procs)
      && (ret == Some(-1) <==> known && !may)
      && (ret == Some(-11) <==> may && c.signum in s.procs[c.target].signals)
      && (ret == Some(0) <==> may && c.signum !in s.procs[c.target].signals)
      && ret.Some? && ret.value in {0, -1, -3, -11, -22}
      && Procs(s, pid, c) ==
           if ret == Some(0) then
             s.procs[c.target := s.procs[c.target].(signals := s.procs[c.target].signals + {c.signum})]
           else s.procs
  {
    assert s.procs[pid := s.procs[pid]] == s.procs;
  }

  lemma TakeSignalLaw(s: Sys, pid: nat, c: Call)
    requires Enabled(s, pid, c) && c.TakeSignal?
    ensures Returns(s, pid, c) == None
    ensures Procs(s, pid, c) == s.procs[pid := s.procs[pid].(signals := s.procs[pid].signals - {c.signum})]
  {
  }

  /** Only root changes its identity, and a process that stops being root keeps no capability. */
  lemma SetUidLaw(s: Sys, pid: nat, c: Call)
    requires Enabled(s, pid, c) && c.SetUid?
    ensures var p, ret := s.procs[pid], Returns(s, pid, c);
      && (ret == Some(-1) <==> p.subject.uid != 0)
      && (ret == Some(-22) <==> p.subject.uid == 0 && c.uid >= 0x1_0000_0000)
      && (ret == Some(0) <==> p.subject.uid == 0 && c.uid < 0x1_0000_0000)
      && (ret != Some(0) ==> Procs(s, pid, c)[pid] == p)
      && (ret == Some(0) ==> var q := Procs(s, pid, c)[pid];
                             && q == p.(subject := q.subject) && q.subject.pid == p.subject.pid
                             && q.subject.uid == c.uid
                             && q.subject.capabilities ==
                                  if c.uid == 0 then p.subject.capabilities else CapabilitySet(false, false, false))
  {
  }

  lemma ForkLaw(s: Sys, pid: nat, c: Call)
    requires Enabled(s, pid, c) && c.Fork?
    ensures Returns(s, pid, c) == Some(c.child)
    ensures var p := s.procs[pid];
      Procs(s, pid, c) ==
        s.procs[c.child := Proc(IpcSubject(c.child, p.subject.uid, p.subject.capabilities), p.table, {}, None)]
  {
    assert s.procs[pid := s.procs[pid]] == s.procs;
  }

  lemma ExitLaw(s: Sys, pid: nat, c: Call)
    requires Enabled(s, pid, c) && c.Exit?
    ensures Returns(s, pid, c) == None && Procs(s, pid, c) == s.procs - {pid}
  {
  }

  /** A call by one process leaves every other as it is, but for the target of a signal and the child
      of a fork. */
  lemma OthersLaw(s: Sys, pid: nat, c: Call, q: nat)
    requires Enabled(s, pid, c) && q != pid && !(c.Kill? && c.target == q) && !(c.Fork? && c.child == q)
    ensures q in Procs(s, pid, c) <==> q in s.procs
    ensures q in s.procs ==> Procs(s, pid, c)[q] == s.procs[q]
  {
  }

  /** At the start there is one process, root with every capability, with a console to read from and
      two to write to; no pipe has been made and nothing has been logged. */
  lemma InitialLaw(pid: nat)
    ensures var s := InitialSys(pid);
      && s.procs.Keys == {pid} && s.nextPipe == 1 && s.log == []
      && s.procs[pid].subject == IpcSubject(pid, 0, CapabilitySet(true, true, true))
      && s.procs[pid].signals == {} && s.procs[pid].blocked.None?
      && At(s.procs[pid].table, 0) == Some(File(true, false, None))
      && At(s.procs[pid].table, 1) == At(s.procs[pid].table, 2) == Some(File(false, true, None))
      && forall fd | fd > 2 :: At(s.procs[pid].table, fd).None?
  {
  }

  // ---------- events ----------

  /** The event agrees with what the call returns. */
  ghost predicate AgreesWith(e: AuditEvent, once: bool, ret: int) {
    if ret < 0 then e.errno == -ret && e.resultValue == 0
    else e.errno == 0 && e.resultValue == if once then 1 else ret
  }

  /** Who asked what of whom. */
  ghost predicate Names(e: AuditEvent, operation: nat, pid: nat, uid: nat, objectId: nat, ownerUid: nat, amount: nat) {
    && e.operation == operation && e.subjectPid == pid && e.subjectUid == uid
    && e.objectId == objectId && e.objectOwnerUid == ownerUid && e.requestedAmount == amount
  }

  /** The log after a call. A pipe call always leaves an event; so does a signal with a known number
      to a known process, and a transfer when it finishes or, on a pipe with the right, ends at
      once. Nothing else does. The event is numbered next, carries the time and the names of what
      was asked, and agrees with what the call returns. */
  lemma EventLaw(s: Sys, pid: nat, c: Call, time: nat)
    requires SysOk(s) && Enabled(s, pid, c) && |s.log| + 1 < U64_MAX
    ensures var p, log, ret := s.procs[pid], Step(s, pid, c, time).log, Returns(s, pid, c);
      var leaves :=
        match c
        case MakePipe(_, _) => true
        case Kill(target, signum) => 0 <= signum <= 31 && target in s.procs
        case BeginTransfer(write, fd, len, bufferOk, _) =>
          && At(p.table, fd).Some? && (if write then At(p.table, fd).value.writable else At(p.table, fd).value.readable)
          && At(p.table, fd).value.pipe.Some? && (!bufferOk || len == 0)
        case FinishTransfer(_) => true
        case _ => false;
      if !leaves then log == s.log
      else
        && ret.Some? && |log| == |s.log| + 1 && log[..|s.log|] == s.log
        && var e := log[|s.log|];
        && e.sequence == |s.log| + 1 && e.timestampMs == time && AgreesWith(e, c.MakePipe? || c.Kill?, ret.value)
        && match c
           case MakePipe(_, _) => Names(e, 2, pid, p.subject.uid, 0, p.subject.uid, 1)
           case Kill(target, _) => Names(e, 1, pid, p.subject.uid, target, s.procs[target].subject.uid, 1)
           case BeginTransfer(write, fd, len, _, _) =>
             var o := At(p.table, fd).value.pipe.value;
             Names(e, if write then 4 else 3, pid, p.subject.uid, o.id, o.ownerUid, len)
           case FinishTransfer(_) =>
             var r := p.blocked.value;
             Names(e, if r.operation.PipeWrite? then 4 else 3, r.subject.pid, r.subject.uid,
                   r.target.id, r.target.ownerUid, r.amount)
  {
    hide Held, FirstFree, NoForeignPrivilege, LogAllowed, PipesKnown, Procs;
    var p := s.procs[pid];
    assert p.subject.pid == pid by { OwnPid(s, pid); }
    assert BlockedOk(p);
  }

  lemma OwnPid(s: Sys, pid: nat)
    requires SysOk(s) && pid in s.procs
    ensures s.procs[pid].subject.pid == pid
  {
  }
}
