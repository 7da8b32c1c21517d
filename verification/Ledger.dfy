/** The security facade (os/src/security/mod.rs) and the system calls that go through it
    (os/src/syscall/fs.rs, os/src/syscall/process.rs), on real counters, bitmaps, reservations
    and the audit ring, against the plain description in SecuritySpec. */
module Ledger {
  import Bits
  import opened Audit
  import opened Numbers
  import opened Options
  import opened Quota
  import opened SecurityApi
  import opened Spec = SecuritySpec

  datatype ReservationKind = NoReservation | PipeFds

  datatype QuotaReservation = QuotaReservation(kind: ReservationKind, amount: nat)

  /** A request that passed policy and quota, with what it has been charged. */
  datatype IpcPermit = IpcPermit(request: IpcRequest, reservation: QuotaReservation)

  /** The charge a request makes. */
  function ChargeOf(op: IpcOperation): QuotaReservation {
    if op.PipeCreate? then QuotaReservation(PipeFds, PIPE_ENDPOINTS_PER_PIPE) else QuotaReservation(NoReservation, 0)
  }

  method Reserve(q: QuotaState, request: IpcRequest) returns (r: IpcResult<QuotaReservation>)
    modifies q
    ensures r.Err? <==> request.operation.PipeCreate? && PipeQuota(old(q.openFiles), old(q.openPipes)).Err?
    ensures r.Err? ==> q.Value() == old(q.Value()) && PipeQuota(old(q.openFiles), old(q.openPipes)) == Err(r.error)
    ensures r.Ok? ==> r.value == ChargeOf(request.operation)
                      && q.Value() ==
                           Usage(old(q.openFiles) + r.value.amount, old(q.openPipes) + r.value.amount,
                                 old(q.pipeFdMask))
  {
    match request.operation
    case PipeCreate =>
      var reserved := q.ReservePipeFds(PIPE_ENDPOINTS_PER_PIPE);
      r := match reserved
           case Ok(_) => Ok(QuotaReservation(PipeFds, PIPE_ENDPOINTS_PER_PIPE))
           case Err(e) => Err(e);
    case _ => r := Ok(QuotaReservation(NoReservation, 0));
  }

  /** Keep the charge on success, give it back on failure. */
  method Finish(q: QuotaState, reservation: QuotaReservation, success: bool)
    requires reservation.kind.NoReservation? ==> reservation.amount == 0
    requires q.openFiles >= reservation.amount && q.openPipes >= reservation.amount
    modifies q
    ensures success ==> q.Value() == old(q.Value())
    ensures !success ==>
              old(q.Value()) == Usage(q.openFiles + reservation.amount, q.openPipes + reservation.amount, q.pipeFdMask)
  {
    if success { return; }
    match reservation.kind
    case NoReservation =>
    case PipeFds => q.ReleasePipeFds(reservation.amount);
  }

  /** A refused request leaves the quota as it was and one event with the refusal; a permitted
      one is charged and leaves no event yet. */
  method Preflight(q: QuotaState, ring: AuditRing, request: IpcRequest, time: nat) returns (r: IpcResult<IpcPermit>)
    requires ring.Valid()
    modifies q, ring, ring.events
    ensures ring.Valid()
    ensures r.Err? <==>
              Authorize(request).Err?
              || (request.operation.PipeCreate? && PipeQuota(old(q.openFiles), old(q.openPipes)).Err?)
    ensures r.Err? ==>
              q.Value() == old(q.Value())
              && ring.history == Append(old(ring.history), EventOf(request, Err(r.error), time))
    ensures r.Err? ==> if Authorize(request).Err? then r.error == Authorize(request).error
                       else PipeQuota(old(q.openFiles), old(q.openPipes)) == Err(r.error)
    ensures r.Ok? ==> r.value == IpcPermit(request, ChargeOf(request.operation)) && ring.history == old(ring.history)
                      && q.Value() ==
                           Usage(old(q.openFiles) + r.value.reservation.amount,
                                 old(q.openPipes) + r.value.reservation.amount, old(q.pipeFdMask))
  {
    hide AuditRing.Valid;
    var authorized := Authorize(request);
    if authorized.Err? {
      ring.Push(EventOf(request, Err(authorized.error), time));
      return Err(authorized.error);
    }
    var reserved := Reserve(q, request);
    match reserved
    case Ok(reservation) => r := Ok(IpcPermit(request, reservation));
    case Err(e) =>
      ring.Push(EventOf(request, Err(e), time));
      r := Err(e);
  }

  /** Settle the charge and leave one event with the outcome. */
  method Complete(q: QuotaState, ring: AuditRing, permit: IpcPermit, outcome: IpcResult<nat>, time: nat)
    returns (ret: IpcResult<nat>)
    requires ring.Valid() && permit.reservation == ChargeOf(permit.request.operation)
    requires q.openFiles >= permit.reservation.amount && q.openPipes >= permit.reservation.amount
    modifies q, ring, ring.events
    ensures ring.Valid() && ret == outcome
            && ring.history == Append(old(ring.history), EventOf(permit.request, outcome, time))
    ensures outcome.Ok? ==> q.Value() == old(q.Value())
    ensures outcome.Err? ==>
              old(q.Value()) ==
                Usage(q.openFiles + permit.reservation.amount, q.openPipes + permit.reservation.amount, q.pipeFdMask)
  {
    hide AuditRing.Valid;
    Finish(q, permit.reservation, outcome.Ok?);
    ring.Push(EventOf(permit.request, outcome, time));
    ret := outcome;
  }

  /** Source of pipe identifiers. */
  class PipeIds {
    var next: nat

    constructor ()
      ensures next == 1
    {
      next := 1;
    }

    method Allocate() returns (r: IpcResult<nat>)
      modifies this
      ensures r == if old(next) < U64_MAX then Ok(old(next)) else Err(ResourceExhausted)
      ensures next == if r.Ok? then old(next) + 1 else old(next)
    {
      if next >= U64_MAX { return Err(ResourceExhausted); }
      r := Ok(next);
      next := next + 1;
    }
  }

  class Process {
    var subject: IpcSubject
    var table: FdTable
    const quota: QuotaState
    var signals: set<int>
    var blocked: Option<IpcPermit>

    ghost predicate Valid()
      reads this`table, this`blocked, quota
    {
      && Balanced(table, quota.Value())
      && (blocked.Some? ==>
            blocked.value.reservation == ChargeOf(blocked.value.request.operation)
            && (blocked.value.request.operation.PipeRead? || blocked.value.request.operation.PipeWrite?))
    }

    ghost function View(): Proc
      reads this
    {
      Proc(subject, table, signals, if blocked.Some? then Some(blocked.value.request) else None)
    }

    constructor Initial(pid: nat)
      ensures Valid() && fresh(quota) && View() == InitialProc(pid)
    {
      subject := IpcSubject(pid, 0, ALL_CAPABILITIES);
      table := CONSOLE;
      quota := new QuotaState.Initial();
      signals, blocked := {}, None;
      new;
      InitialBalanced(table);
    }

    /** A forked child: the same files, credentials and usage, no signals. */
    constructor ForkFrom(parent: Process, pid: nat)
      requires parent.Valid()
      ensures Valid() && fresh(quota)
      ensures View() == Proc(parent.subject.(pid := pid), parent.table, {}, None)
    {
      var copied: FdTable := [];
      for i := 0 to |parent.table|
        invariant copied == parent.table[..i]
      {
        match parent.table[i] {
          case Some(file) => copied := copied + [Some(file)];
          case None => copied := copied + [None];
        }
      }
      assert copied == parent.table;
      subject := parent.subject.(pid := pid);
      table := copied;
      quota := new QuotaState.ForkFrom(parent.quota);
      signals, blocked := {}, None;
    }

    /** The lowest free descriptor, growing the table when there is none. */
    method AllocFd() returns (fd: nat)
      modifies this`table
      ensures fd == FirstFree(old(table)) && fd < |table|
      ensures table == if fd < |old(table)| then old(table) else old(table) + [None]
    {
      for i := 0 to |table|
        modifies {}
        invariant forall j | 0 <= j < i :: table[j].Some?
      {
        if table[i].None? { return i; }
      }
      fd := |table|;
      table := table + [None];
    }

    method InstallFile(f: File) returns (fd: nat)
      modifies this`table
      ensures fd == FirstFree(old(table)) && table == Install(old(table), f)
    {
      fd := AllocFd();
      table := table[fd := Some(f)];
    }

    method SysOpen(c: Call) returns (ret: int)
      requires Valid() && c.Open?
      modifies this`table, quota
      ensures Valid() && ret == RetOf(OpenOutcome(old(table), c))
      ensures table == if ret >= 0 then Install(old(table), File(c.found.value.0, c.found.value.1, None))
                       else old(table)
    {
      hide Balanced;
      BalancedCounts(table, quota.Value());
      if !c.pathOk { return ErrorToRet(InvalidAddress); }
      if !c.flagsOk { return ErrorToRet(InvalidArgument); }
      if c.found.None? { return -1; }
      ghost var u := quota.Value();
      var reserved := quota.ReserveFiles(1);
      if reserved.Err? { return ErrorToRet(reserved.error); }
      var f := File(c.found.value.0, c.found.value.1, None);
      InstallBalanced(table, u, f);
      ret := InstallFile(f);
    }

    method SysClose(fd: nat) returns (ret: int)
      requires Valid()
      modifies this`table, quota
      ensures Valid() && ret == if IsOpen(old(table), fd) then 0 else -1
      ensures table == if ret == 0 then old(table)[fd := None] else old(table)
    {
      hide Balanced;
      if fd >= |table| { return -1; }
      if table[fd].None? { return -1; }
      BalancedMark(table, quota.Value(), fd);
      RemoveBalanced(table, quota.Value(), fd);
      table := table[fd := None];
      quota.ReleaseFd(fd);
      ret := 0;
    }

    method SysDup(fd: nat) returns (ret: int)
      requires Valid()
      modifies this`table, quota
      ensures Valid() && ret == RetOf(DupOutcome(old(table), fd))
      ensures table == if ret >= 0 && IsOpen(old(table), fd) then Install(old(table), old(table)[fd].value)
                       else old(table)
    {
      hide Balanced;
      if fd >= |table| { return -1; }
      if table[fd].None? { return -1; }
      var file := table[fd].value;
      BalancedCounts(table, quota.Value());
      BalancedMark(table, quota.Value(), fd);
      ghost var u := quota.Value();
      var reserved := quota.ReserveDupFd(fd);
      if reserved.Err? { return ErrorToRet(reserved.error); }
      InstallBalanced(table, u, file);
      ret := InstallFile(file);
      if reserved.value {
        quota.RegisterPipeFd(ret);
      }
    }

    /** Both descriptors, the charge, the identifier and the event in one call: whatever fails,
        the quota is back where it was and no descriptor stays open. */
    method SysPipe(ring: AuditRing, ids: PipeIds, c: Call, time: nat) returns (ret: int)
      requires Valid() && ring.Valid() && c.MakePipe?
      modifies this`table, quota, ring, ring.events, ids
      ensures Valid() && ring.Valid()
      ensures var o := MakePipeOutcome(old(table), old(ids.next), c);
        && ret == RetOf(o) && table == MakePipeTable(old(table), subject.uid, old(ids.next), o)
        && ring.history == Append(old(ring.history), EventOf(MakePipeRequest(subject), o, time))
        && (o.Err? ==> quota.Value() == old(quota.Value()))
      ensures ids.next == if PipeQuota(Held(old(table), false), Held(old(table), true)).Ok? && old(ids.next) < U64_MAX
                          then old(ids.next) + 1 else old(ids.next)
    {
      hide Balanced, AuditRing.Valid, Install, Pad, FirstFree, Held, Bits.SetBit, EventOf, Append;
      ghost var t, u := table, quota.Value();
      BalancedCounts(t, u);
      var preflight := Preflight(quota, ring, MakePipeRequest(subject), time);
      if preflight.Err? { return ErrorToRet(preflight.error); }
      var permit := preflight.value;
      var made := ids.Allocate();
      if made.Err? {
        var outcome := Complete(quota, ring, permit, Err(made.error), time);
        return RetOf(outcome);
      }
      var readEnd, writeEnd := ReadEnd(made.value, subject.uid), WriteEnd(made.value, subject.uid);
      InstallBalanced(t, u, readEnd);
      InstallBalanced(Install(t, readEnd), Charge(t, u, readEnd), writeEnd);
      var readFd := InstallFile(readEnd);
      var writeFd := InstallFile(writeEnd);
      if c.copyRead && c.copyWrite {
        quota.RegisterPipeFd(readFd);
        quota.RegisterPipeFd(writeFd);
        var outcome := Complete(quota, ring, permit, Ok(0), time);
        return RetOf(outcome);
      }
      UndoInstall(t, readEnd, writeEnd);
      PadBalanced(t, u, writeFd + 1);
      if readFd < |table| { table := table[readFd := None]; }
      if writeFd < |table| { table := table[writeFd := None]; }
      var outcome := Complete(quota, ring, permit, Err(InvalidAddress), time);
      ret := RetOf(outcome);
    }

    /** Reading and writing up to the point where a pipe may block. */
    method SysTransfer(ring: AuditRing, c: Call, time: nat) returns (ret: Option<int>)
      requires Valid() && ring.Valid() && c.BeginTransfer? && blocked.None?
      modifies this`blocked, quota, ring, ring.events
      ensures Valid() && ring.Valid() && quota.Value() == old(quota.Value())
      ensures var o, r := TransferOutcome(old(View()), c), TransferRequest(old(View()), c);
        && ret == (if o.Some? then Some(RetOf(o.value)) else None)
        && ring.history ==
             (if o.Some? && r.Some? then Append(old(ring.history), EventOf(r.value, o.value, time))
              else old(ring.history))
        && (if o.Some? then blocked.None? else blocked == Some(IpcPermit(r.value, ChargeOf(r.value.operation))))
    {
      hide Balanced, AuditRing.Valid;
      if c.fd >= |table| { return Some(-1); }
      if table[c.fd].None? { return Some(-1); }
      var file := table[c.fd].value;
      if !(if c.write then file.writable else file.readable) { return Some(-1); }
      if file.pipe.None? {
        if !c.bufferOk { return Some(ErrorToRet(InvalidAddress)); }
        return Some(if c.len == 0 then 0 else c.transferred);
      }
      var request := IpcRequest(subject, file.pipe.value, if c.write then PipeWrite else PipeRead, c.len);
      if !c.bufferOk {
        ring.Push(EventOf(request, Err(InvalidAddress), time));
        return Some(ErrorToRet(InvalidAddress));
      }
      var preflight := Preflight(quota, ring, request, time);
      if c.len == 0 {
        var outcome := Complete(quota, ring, preflight.value, Ok(0), time);
        return Some(RetOf(outcome));
      }
      blocked := Some(preflight.value);
      ret := None;
    }

    /** The rest of a read or write, once the pipe has moved its bytes. */
    method FinishTransfer(ring: AuditRing, transferred: nat, time: nat) returns (ret: int)
      requires Valid() && ring.Valid() && blocked.Some?
      modifies this`blocked, quota, ring, ring.events
      ensures Valid() && ring.Valid() && ret == transferred && blocked.None? && quota.Value() == old(quota.Value())
      ensures ring.history == Append(old(ring.history), EventOf(old(blocked).value.request, Ok(transferred), time))
      ensures |old(ring.history)| + 1 < U64_MAX ==>
                && |ring.history| == |old(ring.history)| + 1
                && var e, r := ring.history[|old(ring.history)|], old(blocked).value.request;
                && e.errno == 0 && e.resultValue == ret && e.requestedAmount == r.amount && e.timestampMs == time
                && e.subjectPid == r.subject.pid && e.subjectUid == r.subject.uid
                && e.objectId == r.target.id && e.objectOwnerUid == r.target.ownerUid
                && e.operation == if r.operation.PipeWrite? then 4 else 3
    {
      hide Balanced, AuditRing.Valid;
      var permit := blocked.value;
      blocked := None;
      var outcome := Complete(quota, ring, permit, Ok(transferred), time);
      ret := RetOf(outcome);
    }

    /** Sends a signal to the process a pid resolves to, possibly to itself. */
    method SysKill(ring: AuditRing, ghost s: Sys, pid: nat, found: Option<Process>, c: Call, time: nat)
      returns (ret: int)
      requires Valid() && ring.Valid() && c.Kill? && pid in s.procs && s.procs[pid] == View()
      requires found.Some? <==> c.target in s.procs
      requires found.Some? ==> s.procs[c.target] == found.value.View()
      modifies quota, ring, ring.events, (match found case Some(t) => {t} case None => {})`signals
      ensures Valid() && ring.Valid() && quota.Value() == old(quota.Value())
      ensures var o, r := KillOutcome(s, pid, c), KillRequest(s, pid, c);
        && ret == (if o.Ok? then 0 else RetOf(o))
        && ring.history == (if r.Some? then Append(old(ring.history), EventOf(r.value, o, time)) else old(ring.history))
        && (found.Some? ==>
              found.value.View() ==
                (if o.Ok? then Signalled(old(found.value.View()), c.signum) else old(found.value.View())))
    {
      hide Balanced, AuditRing.Valid;
      if c.signum < 0 || c.signum > MAX_SIG { return ErrorToRet(InvalidArgument); }
      if found.None? { return ErrorToRet(ProcessNotFound); }
      var target := found.value;
      var request := IpcRequest(subject, IpcObject(c.target, target.subject.uid), SignalSend, 1);
      var preflight := Preflight(quota, ring, request, time);
      if preflight.Err? { return ErrorToRet(preflight.error); }
      var outcome: IpcResult<nat>;
      if c.signum in target.signals {
        outcome := Err(TryAgain);
      } else {
        target.signals := target.signals + {c.signum};
        outcome := Ok(1);
      }
      var completed := Complete(quota, ring, preflight.value, outcome, time);
      match completed
      case Ok(_) => ret := 0;
      case Err(e) => ret := ErrorToRet(e);
    }

    /** A pending signal is taken up before the return to user mode. */
    method TakeSignal(signum: int)
      requires Valid()
      modifies this`signals
      ensures Valid() && View() == old(View()).(signals := old(signals) - {signum})
    {
      signals := signals - {signum};
    }

    method SysSetUid(uid: nat) returns (ret: int)
      modifies this`subject
      ensures ret == RetOf(SetUidOutcome(old(subject), uid))
      ensures subject == if ret == 0 then WithUid(old(subject), uid) else old(subject)
    {
      if subject.uid != 0 { return ErrorToRet(PermissionDenied); }
      if uid >= U32_LIMIT { return ErrorToRet(InvalidArgument); }
      subject := subject.(uid := uid);
      if uid != 0 {
        subject := subject.(capabilities := NO_CAPABILITIES);
      }
      ret := 0;
    }
  }

  lemma InitialBalanced(t: FdTable)
    requires |t| == 3 && forall i | 0 <= i < 3 :: t[i].Some? && !IsPipe(t[i])
    ensures Balanced(t, Usage(3, 0, 0))
  {
    forall fd: nat ensures !Bits.Bit(0, fd) { Bits.ZeroBits(fd); }
    assert Held(t[1..][1..], false) == 1 && Held(t[1..][1..], true) == 0;
  }

  /** Between calls the counters are the open descriptors, the bitmap is the set of pipe ends
      and both limits hold. */
  lemma LedgerAgrees(p: Process)
    requires p.Valid()
    ensures p.quota.openFiles == Held(p.table, false) <= |p.table| <= MAX_OPEN_FILES
    ensures p.quota.openPipes == Held(p.table, true) == Ones(p.quota.pipeFdMask) <= MAX_OPEN_PIPE_FDS
    ensures forall fd: nat :: p.quota.IsPipeFd(fd) <==> fd < |p.table| && IsPipe(p.table[fd])
  {
    MaskCount(p.quota.pipeFdMask, p.table);
    HeldBound(p.table);
  }

  lemma BalancedCounts(t: FdTable, u: Usage)
    requires Balanced(t, u)
    ensures u.files == Held(t, false) && u.pipes == Held(t, true)
  {
  }

  lemma BalancedMark(t: FdTable, u: Usage, fd: nat)
    requires Balanced(t, u) && fd < |t|
    ensures fd < U64_BITS && (Bits.Bit(u.mask, fd) <==> IsPipe(t[fd]))
  {
  }

  /** Only the target of a signal and the log change. */
  lemma KillStep(s: Sys, pid: nat, c: Call, time: nat)
    requires Enabled(s, pid, c) && c.Kill?
    ensures var o, r := KillOutcome(s, pid, c), KillRequest(s, pid, c);
      && (o.Ok? ==> c.target in s.procs)
      && Step(s, pid, c, time) ==
           Sys(if o.Ok? then s.procs[c.target := Signalled(s.procs[c.target], c.signum)] else s.procs, s.nextPipe,
               if r.Some? then Append(s.log, EventOf(r.value, o, time)) else s.log)
      && Returns(s, pid, c) == Some(if o.Ok? then 0 else RetOf(o))
  {
    assert s.procs[pid := s.procs[pid]] == s.procs;
  }

  /** Every process, the audit ring and the pipe identifiers. */
  class System {
    var procs: map<nat, Process>
    const ring: AuditRing
    const ids: PipeIds

    ghost predicate Apart()
      reads this
    {
      forall i, j | i in procs && j in procs && i != j :: procs[i] != procs[j] && procs[i].quota != procs[j].quota
    }

    ghost predicate Valid()
      reads this, ring, ring.events, ids, procs.Values, set p | p in procs.Values :: p.quota
    {
      && ring.Valid() && Apart()
      && forall i | i in procs :: procs[i].Valid()
    }

    ghost function View(): Sys
      reads this, ring, ids, procs.Values
    {
      Sys(map i | i in procs :: procs[i].View(), ids.next, ring.history)
    }

    /** The state after the first process is created. */
    constructor (pid: nat)
      ensures Valid() && fresh(ring) && fresh(ring.events) && fresh(ids) && View() == InitialSys(pid) && SysOk(View())
      ensures fresh(procs.Values) && fresh(Quotas())
    {
      hide SysOk, AuditRing.Valid, Process.Valid, Process.View, InitialProc;
      InitialOk(pid);
      var p := new Process.Initial(pid);
      ring := new AuditRing();
      ids := new PipeIds();
      procs := map[pid := p];
      new;
      assert View().procs == map[pid := InitialProc(pid)];
    }

    /** Calls that change nothing but their caller, the log and the identifiers. */
    method OnCaller(pid: nat, p: Process, ghost s: Sys, c: Call, time: nat) returns (ret: Option<int>)
      requires p.Valid() && ring.Valid() && Enabled(s, pid, c) && s.procs[pid] == p.View()
      requires s.log == ring.history && s.nextPipe == ids.next && !c.Kill? && !c.Fork? && !c.Exit?
      modifies p, p.quota, ring, ring.events, ids
      ensures p.Valid() && ring.Valid() && p.View() == Caller(s, pid, c)
      ensures ring.history == Step(s, pid, c, time).log && ids.next == Step(s, pid, c, time).nextPipe
      ensures ret == Returns(s, pid, c)
    {
      hide Balanced, AuditRing.Valid, Install, Held, FirstFree, EventOf, Append, MakePipeTable, Procs;
      var r: int;
      match c
      case Open(_, _, _) => r := p.SysOpen(c); ret := Some(r);
      case Close(fd) => r := p.SysClose(fd); ret := Some(r);
      case Dup(fd) => r := p.SysDup(fd); ret := Some(r);
      case MakePipe(_, _) => r := p.SysPipe(ring, ids, c, time); ret := Some(r);
      case BeginTransfer(_, _, _, _, _) => ret := p.SysTransfer(ring, c, time);
      case FinishTransfer(n) => r := p.FinishTransfer(ring, n, time); ret := Some(r);
      case TakeSignal(n) => p.TakeSignal(n); ret := None;
      case SetUid(uid) => r := p.SysSetUid(uid); ret := Some(r);
    }

    ghost function Quotas(): set<QuotaState>
      reads this
    {
      set p | p in procs.Values :: p.quota
    }

    method DoCaller(pid: nat, c: Call, time: nat) returns (ret: Option<int>)
      requires Valid() && Enabled(View(), pid, c) && !c.Kill? && !c.Fork? && !c.Exit?
      modifies ring, ring.events, ids, procs.Values, Quotas()
      ensures Valid() && View() == Step(old(View()), pid, c, time) && ret == Returns(old(View()), pid, c)
    {
      hide Process.Valid, Process.View, AuditRing.Valid, Caller, Completes, Returns;
      var p := procs[pid];
      ghost var s := View();
      assert p in procs.Values && p.quota in Quotas();
      ret := OnCaller(pid, p, s, c, time);
      assert View().procs == Step(s, pid, c, time).procs;
    }

    method DoKill(pid: nat, c: Call, time: nat) returns (ret: Option<int>)
      requires Valid() && Enabled(View(), pid, c) && c.Kill?
      modifies ring, ring.events, procs.Values, Quotas()
      ensures Valid() && View() == Step(old(View()), pid, c, time) && ret == Returns(old(View()), pid, c)
    {
      hide AuditRing.Valid, Process.Valid, Process.View, Signalled, KillOutcome, KillRequest, Step, Returns, RetOf;
      hide Append, EventOf;
      var p := procs[pid];
      ghost var s := View();
      KillStep(s, pid, c, time);
      var found := if c.target in procs then Some(procs[c.target]) else None;
      assert p in procs.Values && p.quota in Quotas();
      var r := p.SysKill(ring, s, pid, found, c, time);
      ret := Some(r);
      assert View().procs == Step(s, pid, c, time).procs;
    }

    method DoFork(pid: nat, c: Call, time: nat) returns (ret: Option<int>)
      requires Valid() && Enabled(View(), pid, c) && c.Fork?
      modifies this`procs
      ensures Valid() && View() == Step(old(View()), pid, c, time) && ret == Returns(old(View()), pid, c)
      ensures exists p: Process :: fresh(p) && fresh(p.quota) && procs == old(procs)[c.child := p]
    {
      hide Process.Valid, AuditRing.Valid;
      var child := new Process.ForkFrom(procs[pid], c.child);
      procs := procs[c.child := child];
      ret := Some(c.child);
      assert View().procs == Step(old(View()), pid, c, time).procs;
    }

    method DoExit(pid: nat, c: Call, time: nat) returns (ret: Option<int>)
      requires Valid() && Enabled(View(), pid, c) && c.Exit?
      modifies this`procs
      ensures Valid() && View() == Step(old(View()), pid, c, time) && ret == Returns(old(View()), pid, c)
      ensures procs == old(procs) - {pid}
    {
      hide Process.Valid, Process.View, AuditRing.Valid;
      procs := procs - {pid};
      ret := None;
      assert View().procs == Step(old(View()), pid, c, time).procs;
    }

    /** Carries out one call of one process. */
    method Do(e: Entry) returns (ret: Option<int>)
      requires Valid() && Enabled(View(), e.pid, e.call)
      modifies this`procs, ring, ring.events, ids, procs.Values, Quotas()
      ensures Valid() && View() == Step(old(View()), e.pid, e.call, e.time)
              && ret == Returns(old(View()), e.pid, e.call)
      ensures fresh(procs.Values - old(procs.Values)) && fresh(Quotas() - old(Quotas()))
    {
      hide Valid, View, Step, Returns;
      match e.call
      case Kill(_, _) => ret := DoKill(e.pid, e.call, e.time);
      case Fork(_) => ret := DoFork(e.pid, e.call, e.time);
      case Exit => ret := DoExit(e.pid, e.call, e.time);
      case _ => ret := DoCaller(e.pid, e.call, e.time);
    }

    /** Carries out any run of calls by any processes: the calls return what the plain description
        says, and counters, bitmaps, reservations and the ring end up exactly where it says. */
    method Execute(run: seq<Entry>) returns (results: seq<Option<int>>)
      requires Valid() && SysOk(View()) && Possible(View(), run)
      modifies this`procs, ring, ring.events, ids, procs.Values, Quotas()
      ensures Valid() && View() == Run(old(View()), run) && SysOk(View()) && results == Results(old(View()), run)
      ensures |ring.history| == Min(|old(ring.history)| + Completed(old(View()), run), U64_MAX - 1)
    {
      hide Valid, View, Step, Returns, SysOk, Enabled, Completes, Possible, Run, Results, Completed;
      ghost var start := View();
      LogIsHistory();
      EveryRunKeeps(start, run);
      assert run[0..] == run;
      results := [];
      for i := 0 to |run|
        invariant Valid() && Possible(View(), run[i..]) && Run(View(), run[i..]) == Run(start, run)
        invariant results + Results(View(), run[i..]) == Results(start, run)
        invariant fresh(procs.Values - old(procs.Values)) && fresh(Quotas() - old(Quotas()))
      {
        assert run[i..][0] == run[i] && run[i..][1..] == run[i + 1..];
        RunFirst(View(), run[i..]);
        ghost var before := results;
        var r := Do(run[i]);
        results := results + [r];
        assert before + ([r] + Results(View(), run[i + 1..])) == results + Results(View(), run[i + 1..]);
      }
      RunDone(View());
      assert run[|run|..] == [] && results + [] == results;
      LogIsHistory();
    }

    lemma LogIsHistory()
      ensures View().log == ring.history
    {
    }
  }
}
