/** What the descriptor, pipe and signal system calls promise, without quota counters, bitmaps
    or reservations: limits are checked by counting descriptor-table slots, and a request leaves
    one event built from its outcome. */
module SecuritySpec {
  import opened Audit
  import opened Numbers
  import opened Options
  import opened Quota
  import opened SecurityApi

  const MAX_SIG: int := 31

  /** One process: its identity, open files, undelivered signals and the request of the read or
      write it is blocked in. */
  datatype Proc = Proc(subject: IpcSubject, table: FdTable, signals: set<int>, blocked: Option<IpcRequest>)

  datatype Sys = Sys(procs: map<nat, Proc>, nextPipe: nat, log: seq<AuditEvent>)

  /** A system call with the outcomes of what lies outside this model: path lookup, user memory
      checks and the byte count of a transfer. `TakeSignal` is no call: on its way back to user
      mode the process takes up a signal, if it is pending. */
  datatype Call =
    | Open(pathOk: bool, flagsOk: bool, found: Option<(bool, bool)>)
    | Close(fd: nat)
    | Dup(fd: nat)
    | MakePipe(copyRead: bool, copyWrite: bool)
    | BeginTransfer(write: bool, fd: nat, len: nat, bufferOk: bool, transferred: nat)
    | FinishTransfer(transferred: nat)
    | Kill(target: nat, signum: int)
    | TakeSignal(signum: int)
    | SetUid(uid: nat)
    | Fork(child: nat)
    | Exit

  function RetOf(outcome: IpcResult<nat>): int {
    match outcome
    case Ok(v) => v
    case Err(e) => ErrorToRet(e)
  }

  // ---------- descriptors ----------

  function OpenOutcome(t: FdTable, c: Call): IpcResult<nat>
    requires c.Open?
  {
    if !c.pathOk then Err(InvalidAddress)
    else if !c.flagsOk then Err(InvalidArgument)
    else if c.found.None? then Err(PermissionDenied)
    else if Held(t, false) >= MAX_OPEN_FILES then Err(TooManyFiles)
    else Ok(FirstFree(t))
  }

  predicate IsOpen(t: FdTable, fd: nat) {
    fd < |t| && t[fd].Some?
  }

  function DupOutcome(t: FdTable, fd: nat): IpcResult<nat> {
    if !IsOpen(t, fd) then Err(PermissionDenied)
    else if Held(t, false) >= MAX_OPEN_FILES then Err(TooManyFiles)
    else if IsPipe(t[fd]) && Held(t, true) >= MAX_OPEN_PIPE_FDS then Err(ResourceExhausted)
    else Ok(FirstFree(t))
  }

  function MakePipeRequest(s: IpcSubject): IpcRequest {
    IpcRequest(s, IpcObject(0, s.uid), PipeCreate, 1)
  }

  /** Outcome of checking the limits for a new pipe. */
  function PipeQuota(files: nat, pipes: nat): IpcResult<()> {
    if files + PIPE_ENDPOINTS_PER_PIPE > MAX_OPEN_FILES then Err(TooManyFiles)
    else if pipes + PIPE_ENDPOINTS_PER_PIPE > MAX_OPEN_PIPE_FDS then Err(ResourceExhausted)
    else Ok(())
  }

  function MakePipeOutcome(t: FdTable, nextPipe: nat, c: Call): IpcResult<nat>
    requires c.MakePipe?
  {
    match PipeQuota(Held(t, false), Held(t, true))
    case Err(e) => Err(e)
    case Ok(_) =>
      if nextPipe >= U64_MAX then Err(ResourceExhausted)
      else if !(c.copyRead && c.copyWrite) then Err(InvalidAddress)
      else Ok(0)
  }

  function ReadEnd(id: nat, uid: nat): File { File(true, false, Some(IpcObject(id, uid))) }
  function WriteEnd(id: nat, uid: nat): File { File(false, true, Some(IpcObject(id, uid))) }

  /** Both ends of a new pipe installed. */
  function WithPipe(t: FdTable, id: nat, uid: nat): FdTable {
    Install(Install(t, ReadEnd(id, uid)), WriteEnd(id, uid))
  }

  /** The table after a pipe call: on a failed copy the slots it grew stay, empty. */
  function MakePipeTable(t: FdTable, uid: nat, nextPipe: nat, outcome: IpcResult<nat>): FdTable {
    match outcome
    case Ok(_) => WithPipe(t, nextPipe, uid)
    case Err(e) => if e.InvalidAddress? then Pad(t, FirstFree(Install(t, ReadEnd(nextPipe, uid))) + 1) else t
  }

  // ---------- transfers ----------

  predicate MayTransfer(t: FdTable, fd: nat, write: bool) {
    IsOpen(t, fd) && (if write then t[fd].value.writable else t[fd].value.readable)
  }

  /** A transfer forms a request only when it concerns a pipe. */
  function TransferRequest(p: Proc, c: Call): Option<IpcRequest>
    requires c.BeginTransfer?
  {
    if MayTransfer(p.table, c.fd, c.write) && p.table[c.fd].value.pipe.Some? then
      Some(IpcRequest(p.subject, p.table[c.fd].value.pipe.value, if c.write then PipeWrite else PipeRead, c.len))
    else None
  }

  /** How a transfer ends at once, if it does: it may block only on a pipe and only for data. */
  function TransferOutcome(p: Proc, c: Call): Option<IpcResult<nat>>
    requires c.BeginTransfer?
  {
    if !MayTransfer(p.table, c.fd, c.write) then Some(Err(PermissionDenied))
    else if !c.bufferOk then Some(Err(InvalidAddress))
    else if c.len == 0 then Some(Ok(0))
    else if TransferRequest(p, c).None? then Some(Ok(c.transferred))
    else None
  }

  // ---------- signals ----------

  function KillRequest(s: Sys, pid: nat, c: Call): Option<IpcRequest>
    requires c.Kill? && pid in s.procs
  {
    if c.signum < 0 || c.signum > MAX_SIG || c.target !in s.procs then None
    else Some(IpcRequest(s.procs[pid].subject, IpcObject(c.target, s.procs[c.target].subject.uid), SignalSend, 1))
  }

  function KillOutcome(s: Sys, pid: nat, c: Call): IpcResult<nat>
    requires c.Kill? && pid in s.procs
  {
    match KillRequest(s, pid, c)
    case None => if c.signum < 0 || c.signum > MAX_SIG then Err(InvalidArgument) else Err(ProcessNotFound)
    case Some(r) =>
      if !MaySignal(r) then Err(PermissionDenied)
      else if c.signum in s.procs[c.target].signals then Err(TryAgain)
      else Ok(1)
  }

  function Signalled(p: Proc, signum: int): Proc {
    p.(signals := p.signals + {signum})
  }

  // ---------- identity ----------

  function SetUidOutcome(subject: IpcSubject, uid: nat): IpcResult<nat> {
    if subject.uid != 0 then Err(PermissionDenied)
    else if uid >= U32_LIMIT then Err(InvalidArgument)
    else Ok(0)
  }

  const NO_CAPABILITIES := CapabilitySet(false, false, false)

  function WithUid(subject: IpcSubject, uid: nat): IpcSubject {
    subject.(uid := uid, capabilities := if uid != 0 then NO_CAPABILITIES else subject.capabilities)
  }

  // ---------- the whole system ----------

  /** Which calls a process can make: a blocked process only finishes its transfer. */
  predicate Enabled(s: Sys, pid: nat, c: Call) {
    && pid in s.procs && (s.procs[pid].blocked.Some? <==> c.FinishTransfer?)
    && (c.Fork? ==> c.child !in s.procs)
  }

  /** The request a call completes, and how it ends. A call outside this list completes none. */
  function Completes(s: Sys, pid: nat, c: Call): Option<(IpcRequest, IpcResult<nat>)>
    requires Enabled(s, pid, c)
  {
    var p := s.procs[pid];
    match c
    case MakePipe(_, _) => Some((MakePipeRequest(p.subject), MakePipeOutcome(p.table, s.nextPipe, c)))
    case BeginTransfer(_, _, _, _, _) =>
      if TransferRequest(p, c).Some? && TransferOutcome(p, c).Some? then
        Some((TransferRequest(p, c).value, TransferOutcome(p, c).value))
      else None
    case FinishTransfer(n) => Some((p.blocked.value, Ok(n)))
    case Kill(_, _) =>
      if KillRequest(s, pid, c).Some? then Some((KillRequest(s, pid, c).value, KillOutcome(s, pid, c))) else None
    case _ => None
  }

  /** What a call returns; nothing yet for a transfer that blocks, nothing at all for an exit
      or a signal taken up. */
  function Returns(s: Sys, pid: nat, c: Call): Option<int>
    requires Enabled(s, pid, c)
  {
    var p := s.procs[pid];
    match c
    case Open(_, _, _) => Some(RetOf(OpenOutcome(p.table, c)))
    case Close(fd) => Some(if IsOpen(p.table, fd) then 0 else -1)
    case Dup(fd) => Some(RetOf(DupOutcome(p.table, fd)))
    case MakePipe(_, _) => Some(RetOf(MakePipeOutcome(p.table, s.nextPipe, c)))
    case BeginTransfer(_, _, _, _, _) =>
      (match TransferOutcome(p, c) case Some(o) => Some(RetOf(o)) case None => None)
    case FinishTransfer(n) => Some(n)
    case Kill(_, _) => Some(if KillOutcome(s, pid, c).Ok? then 0 else RetOf(KillOutcome(s, pid, c)))
    case SetUid(uid) => Some(RetOf(SetUidOutcome(p.subject, uid)))
    case Fork(child) => Some(child)
    case TakeSignal(_) => None
    case Exit => None
  }

  /** The calling process afterwards. */
  function Caller(s: Sys, pid: nat, c: Call): Proc
    requires Enabled(s, pid, c)
  {
    var p := s.procs[pid];
    match c
    case Open(_, _, _) =>
      if OpenOutcome(p.table, c).Ok? then
        p.(table := Install(p.table, File(c.found.value.0, c.found.value.1, None)))
      else p
    case Close(fd) => if IsOpen(p.table, fd) then p.(table := p.table[fd := None]) else p
    case Dup(fd) => if DupOutcome(p.table, fd).Ok? then p.(table := Install(p.table, p.table[fd].value)) else p
    case MakePipe(_, _) =>
      p.(table := MakePipeTable(p.table, p.subject.uid, s.nextPipe, MakePipeOutcome(p.table, s.nextPipe, c)))
    case BeginTransfer(_, _, _, _, _) => if TransferOutcome(p, c).None? then p.(blocked := TransferRequest(p, c)) else p
    case FinishTransfer(_) => p.(blocked := None)
    case TakeSignal(signum) => p.(signals := p.signals - {signum})
    case SetUid(uid) => if SetUidOutcome(p.subject, uid).Ok? then p.(subject := WithUid(p.subject, uid)) else p
    case _ => p
  }

  /** The processes afterwards. */
  function Procs(s: Sys, pid: nat, c: Call): map<nat, Proc>
    requires Enabled(s, pid, c)
  {
    var procs := s.procs[pid := Caller(s, pid, c)];
    match c
    case Kill(target, signum) =>
      if KillOutcome(s, pid, c).Ok? then
        procs[target := Signalled(procs[target], signum)]
      else procs
    case Fork(child) =>
      var p := s.procs[pid];
      procs[child := Proc(p.subject.(pid := child), p.table, {}, None)]
    case Exit => procs - {pid}
    case _ => procs
  }

  /** Identifiers are used up once the limits allow the pipe, even if the copy-out then fails. */
  predicate TakesPipeId(s: Sys, pid: nat, c: Call)
    requires Enabled(s, pid, c)
  {
    var p := s.procs[pid];
    c.MakePipe? && PipeQuota(Held(p.table, false), Held(p.table, true)).Ok? && s.nextPipe < U64_MAX
  }

  function Step(s: Sys, pid: nat, c: Call, time: nat): Sys
    requires Enabled(s, pid, c)
  {
    Sys(Procs(s, pid, c),
        if TakesPipeId(s, pid, c) then s.nextPipe + 1 else s.nextPipe,
        match Completes(s, pid, c)
        case Some((r, o)) => Append(s.log, EventOf(r, o, time))
        case None => s.log)
  }

  const CONSOLE: FdTable := [Some(File(true, false, None)), Some(File(false, true, None)),
                             Some(File(false, true, None))]

  const ALL_CAPABILITIES := CapabilitySet(true, true, true)

  /** The first process: three console files, root. */
  function InitialProc(pid: nat): Proc {
    Proc(IpcSubject(pid, 0, ALL_CAPABILITIES), CONSOLE, {}, None)
  }

  function InitialSys(pid: nat): Sys {
    Sys(map[pid := InitialProc(pid)], 1, [])
  }

  // ---------- whole runs ----------

  datatype Entry = Entry(pid: nat, call: Call, time: nat)

  ghost predicate Possible(s: Sys, run: seq<Entry>)
    decreases |run|
  {
    run != [] ==>
      Enabled(s, run[0].pid, run[0].call) && Possible(Step(s, run[0].pid, run[0].call, run[0].time), run[1..])
  }

  ghost function Run(s: Sys, run: seq<Entry>): Sys
    requires Possible(s, run)
    decreases |run|
  {
    if run == [] then s else Run(Step(s, run[0].pid, run[0].call, run[0].time), run[1..])
  }

  /** What the calls of the run return, in order. */
  ghost function Results(s: Sys, run: seq<Entry>): seq<Option<int>>
    requires Possible(s, run)
    decreases |run|
  {
    if run == [] then []
    else [Returns(s, run[0].pid, run[0].call)] + Results(Step(s, run[0].pid, run[0].call, run[0].time), run[1..])
  }

  /** Number of requests the run completes. */
  ghost function Completed(s: Sys, run: seq<Entry>): nat
    requires Possible(s, run)
    decreases |run|
  {
    if run == [] then 0
    else
      (if Completes(s, run[0].pid, run[0].call).Some? then 1 else 0)
      + Completed(Step(s, run[0].pid, run[0].call, run[0].time), run[1..])
  }

  lemma RunFirst(s: Sys, run: seq<Entry>)
    requires run != [] && Possible(s, run)
    ensures Enabled(s, run[0].pid, run[0].call)
    ensures var s' := Step(s, run[0].pid, run[0].call, run[0].time);
      && Possible(s', run[1..]) && Run(s, run) == Run(s', run[1..])
      && Results(s, run) == [Returns(s, run[0].pid, run[0].call)] + Results(s', run[1..])
  {
  }

  lemma RunDone(s: Sys)
    ensures Possible(s, []) && Run(s, []) == s && Results(s, []) == []
  {
  }

  /** A process with a user identity has no capability left. */
  ghost predicate NoForeignPrivilege(s: Sys) {
    forall pid | pid in s.procs ::
      var p := s.procs[pid];
      p.subject.pid == pid && (p.subject.uid != 0 ==> p.subject.capabilities == NO_CAPABILITIES)
  }

  /** A delivered signal was sent by its own target, by the same user or by root. */
  predicate SignalAllowed(e: AuditEvent) {
    e.operation == OperationId(SignalSend) && e.errno == 0 ==>
      e.subjectPid == e.objectId || e.subjectUid == e.objectOwnerUid || e.subjectUid == 0
  }

  ghost predicate LogAllowed(log: seq<AuditEvent>) {
    forall e | e in log :: SignalAllowed(e)
  }

  /** Every pipe end still in a table was made by an earlier call. */
  ghost predicate PipesKnown(t: FdTable, nextPipe: nat) {
    forall f | f in t && IsPipe(f) :: f.value.pipe.value.id < nextPipe
  }

  /** What holds throughout every run. */
  ghost predicate SysOk(s: Sys) {
    && NoForeignPrivilege(s) && LogAllowed(s.log) && |s.log| < U64_MAX
    && (forall pid | pid in s.procs :: PipesKnown(s.procs[pid].table, s.nextPipe) && BlockedOk(s.procs[pid]))
  }

  ghost predicate BlockedOk(p: Proc) {
    p.blocked.Some? ==> p.blocked.value.operation.PipeRead? || p.blocked.value.operation.PipeWrite?
  }

  /** A completed request decides what its call returns: an error number below zero, or its
      value (0 for a delivered signal). A failed one leaves every open file where it was. */
  lemma RequestDecides(s: Sys, pid: nat, c: Call)
    requires Enabled(s, pid, c) && Completes(s, pid, c).Some?
    ensures var o := Completes(s, pid, c).value.1;
      match o
      case Err(e) => Returns(s, pid, c) == Some(ErrorToRet(e)) && SameFiles(Caller(s, pid, c).table, s.procs[pid].table)
                     && Procs(s, pid, c).Keys == s.procs.Keys
      case Ok(v) => Returns(s, pid, c) == Some(if c.Kill? then 0 else v)
  {
  }

  /** The same files under the same descriptors, whatever the table lengths. */
  ghost predicate SameFiles(t: FdTable, u: FdTable) {
    forall fd: nat :: (if fd < |t| then t[fd] else None) == (if fd < |u| then u[fd] else None)
  }

  lemma InitialOk(pid: nat)
    ensures SysOk(InitialSys(pid))
  {
  }

  lemma InstallKnown(t: FdTable, f: File, nextPipe: nat)
    requires PipesKnown(t, nextPipe) && (f.pipe.Some? ==> f.pipe.value.id < nextPipe)
    ensures PipesKnown(Install(t, f), nextPipe)
  {
  }

  lemma CallerKeeps(s: Sys, pid: nat, c: Call)
    requires SysOk(s) && Enabled(s, pid, c)
    ensures var s' := Step(s, pid, c, 0);
      PipesKnown(Caller(s, pid, c).table, s'.nextPipe) && BlockedOk(Caller(s, pid, c))
  {
    hide Install, Held, LogAllowed, Procs, Completes;
    var p := s.procs[pid];
    assert PipesKnown(p.table, s.nextPipe);
    match c
    case Open(_, _, _) =>
      if OpenOutcome(p.table, c).Ok? {
        InstallKnown(p.table, File(c.found.value.0, c.found.value.1, None), s.nextPipe);
      }
    case Dup(fd) => if DupOutcome(p.table, fd).Ok? { InstallKnown(p.table, p.table[fd].value, s.nextPipe); }
    case MakePipe(_, _) =>
      if MakePipeOutcome(p.table, s.nextPipe, c).Ok? {
        InstallKnown(p.table, ReadEnd(s.nextPipe, p.subject.uid), s.nextPipe + 1);
        InstallKnown(Install(p.table, ReadEnd(s.nextPipe, p.subject.uid)), WriteEnd(s.nextPipe, p.subject.uid),
                     s.nextPipe + 1);
      }
    case _ =>
  }

  lemma EventAllowed(s: Sys, pid: nat, c: Call, time: nat)
    requires NoForeignPrivilege(s) && Enabled(s, pid, c) && Completes(s, pid, c).Some? && BlockedOk(s.procs[pid])
    ensures SignalAllowed(EventOf(Completes(s, pid, c).value.0, Completes(s, pid, c).value.1, time))
  {
    hide Held, MakePipeOutcome, TransferOutcome;
    assert s.procs[pid].subject.uid != 0 ==> s.procs[pid].subject.capabilities == NO_CAPABILITIES;
  }

  /** Where each process of the next state comes from. */
  ghost predicate Descends(s: Sys, pid: nat, c: Call, q: nat, p: Proc)
    requires Enabled(s, pid, c)
  {
    if q !in s.procs then q != pid && p == Proc(s.procs[pid].subject.(pid := q), s.procs[pid].table, {}, None)
    else
      var before := if q == pid then Caller(s, pid, c) else s.procs[q];
      p.subject == before.subject && p.table == before.table && p.blocked == before.blocked
  }

  lemma ProcsDescend(s: Sys, pid: nat, c: Call, q: nat)
    requires Enabled(s, pid, c) && q in Procs(s, pid, c)
    ensures Descends(s, pid, c, q, Procs(s, pid, c)[q])
  {
    hide Caller;
  }

  lemma StepKeeps(s: Sys, pid: nat, c: Call, time: nat)
    requires SysOk(s) && Enabled(s, pid, c)
    ensures SysOk(Step(s, pid, c, time))
    ensures |Step(s, pid, c, time).log| == Min(|s.log| + (if Completes(s, pid, c).Some? then 1 else 0), U64_MAX - 1)
  {
    hide Caller, PipesKnown, Completes, Procs, SignalAllowed;
    var s' := Step(s, pid, c, time);
    assert PipesKnown(s.procs[pid].table, s.nextPipe) && BlockedOk(s.procs[pid]);
    CallerKeeps(s, pid, c);
    SubjectKept(s, pid, c);
    forall q | q in s'.procs ensures PipesKnown(s'.procs[q].table, s'.nextPipe) && BlockedOk(s'.procs[q]) {
      ProcsDescend(s, pid, c, q);
      KnownGrows(s.procs[if q in s.procs then q else pid].table, s.nextPipe, s'.nextPipe);
    }
    assert NoForeignPrivilege(s') by {
      forall q | q in s'.procs ensures Descends(s, pid, c, q, s'.procs[q]) { ProcsDescend(s, pid, c, q); }
    }
    if Completes(s, pid, c).Some? {
      EventAllowed(s, pid, c, time);
      var (r, o) := Completes(s, pid, c).value;
      NumberedAllowed(EventOf(r, o, time), |s.log| + 1);
    }
  }

  lemma SubjectKept(s: Sys, pid: nat, c: Call)
    requires NoForeignPrivilege(s) && Enabled(s, pid, c)
    ensures Caller(s, pid, c).subject.pid == pid
    ensures Caller(s, pid, c).subject.uid != 0 ==> Caller(s, pid, c).subject.capabilities == NO_CAPABILITIES
  {
    hide Install, Held;
    assert s.procs[pid].subject.pid == pid;
  }

  lemma NumberedAllowed(e: AuditEvent, n: nat)
    requires SignalAllowed(e)
    ensures SignalAllowed(e.(sequence := n))
  {
  }

  lemma KnownGrows(t: FdTable, m: nat, n: nat)
    requires PipesKnown(t, m) && m <= n
    ensures PipesKnown(t, n)
  {
  }

  /** Over every run of every set of processes: each completed request leaves exactly one event
      until the sequence numbers run out, no process regains a privilege it gave up, and only
      allowed signals are ever reported delivered. */
  lemma {:induction false} EveryRunKeeps(s: Sys, run: seq<Entry>)
    requires SysOk(s) && Possible(s, run)
    ensures SysOk(Run(s, run))
    ensures |Run(s, run).log| == Min(|s.log| + Completed(s, run), U64_MAX - 1)
    decreases |run|
  {
    hide SysOk, Completes, Step;
    if run != [] {
      StepKeeps(s, run[0].pid, run[0].call, run[0].time);
      EveryRunKeeps(Step(s, run[0].pid, run[0].call, run[0].time), run[1..]);
    } else {
      assert |s.log| < U64_MAX by { LogBound(s); }
    }
  }

  // ---------- signals over runs ----------

  function Pending(s: Sys, q: nat, n: int): nat {
    if q in s.procs && n in s.procs[q].signals then 1 else 0
  }

  /** The entry delivers signal `n` to process `q`. */
  predicate Sends(s: Sys, e: Entry, q: nat, n: int) {
    Enabled(s, e.pid, e.call) && e.call == Kill(q, n) && KillOutcome(s, e.pid, e.call).Ok?
  }

  /** Process `q` takes up signal `n`, which is pending. */
  predicate Takes(s: Sys, e: Entry, q: nat, n: int) {
    e.pid == q && e.call == TakeSignal(n) && Pending(s, q, n) == 1
  }

  ghost function Sent(s: Sys, run: seq<Entry>, q: nat, n: int): nat
    requires Possible(s, run)
    decreases |run|
  {
    if run == [] then 0
    else (if Sends(s, run[0], q, n) then 1 else 0) + Sent(Step(s, run[0].pid, run[0].call, run[0].time), run[1..], q, n)
  }

  ghost function Taken(s: Sys, run: seq<Entry>, q: nat, n: int): nat
    requires Possible(s, run)
    decreases |run|
  {
    if run == [] then 0
    else (if Takes(s, run[0], q, n) then 1 else 0) +
           Taken(Step(s, run[0].pid, run[0].call, run[0].time), run[1..], q, n)
  }

  lemma SignalStep(s: Sys, e: Entry, q: nat, n: int)
    requires q in s.procs && Enabled(s, e.pid, e.call) && !(e.pid == q && e.call.Exit?)
    ensures var s' := Step(s, e.pid, e.call, e.time);
      && q in s'.procs
      && Pending(s, q, n) + (if Sends(s, e, q, n) then 1 else 0) ==
           Pending(s', q, n) + (if Takes(s, e, q, n) then 1 else 0)
  {
    hide Install, Held, Completes, TakesPipeId, MakePipeOutcome, MakePipeTable, TransferOutcome, TransferRequest;
    hide OpenOutcome, DupOutcome, SetUidOutcome, MaySignal;
  }

  /** A signal sent is taken up once or still pending: in every run in which a process does not
      exit, each signal number was delivered to it exactly as often as it was taken up, and once
      more if it is pending at the end (once less if it was pending at the start). */
  lemma {:induction false} SignalsBalance(s: Sys, run: seq<Entry>, q: nat, n: int)
    requires q in s.procs && Possible(s, run)
    requires forall i | 0 <= i < |run| :: !(run[i].pid == q && run[i].call.Exit?)
    ensures Pending(s, q, n) + Sent(s, run, q, n) == Pending(Run(s, run), q, n) + Taken(s, run, q, n)
    decreases |run|
  {
    hide Pending, Sends, Takes, Step, Enabled;
    if run != [] {
      SignalStep(s, run[0], q, n);
      SignalsBalance(Step(s, run[0].pid, run[0].call, run[0].time), run[1..], q, n);
    }
  }

  lemma LogBound(s: Sys)
    requires SysOk(s)
    ensures |s.log| < U64_MAX
  {
  }
}
