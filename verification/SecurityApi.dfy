/** Data shared by policy, quota and audit (os/src/security/api.rs, os/src/security/policy.rs,
    os/src/security/audit.rs). */
module SecurityApi {
  import opened Audit

  datatype IpcError = PermissionDenied | InvalidAddress | InvalidArgument | ProcessNotFound
                    | TooManyFiles | ResourceExhausted | TryAgain

  datatype IpcResult<T> = Ok(value: T) | Err(error: IpcError)

  datatype IpcOperation = SignalSend | PipeCreate | PipeRead | PipeWrite | AuditRead

  datatype CapabilitySet = CapabilitySet(kill: bool, ipcAdmin: bool, auditRead: bool)

  datatype IpcSubject = IpcSubject(pid: nat, uid: nat, capabilities: CapabilitySet)

  datatype IpcObject = IpcObject(id: nat, ownerUid: nat)

  datatype IpcRequest = IpcRequest(subject: IpcSubject, target: IpcObject, operation: IpcOperation, amount: nat)

  const AUDIT_UID_UNKNOWN: nat := 0xFFFF_FFFF

  function Errno(e: IpcError): (n: nat)
    ensures n > 0
  {
    match e
    case PermissionDenied => 1
    case ProcessNotFound => 3
    case TryAgain => 11
    case InvalidAddress => 14
    case InvalidArgument => 22
    case TooManyFiles => 24
    case ResourceExhausted => 28
  }

  /** What a failed system call returns. */
  function ErrorToRet(e: IpcError): (r: int)
    ensures r < 0
  {
    0 - Errno(e)
  }

  function OperationId(op: IpcOperation): nat {
    match op
    case SignalSend => 1
    case PipeCreate => 2
    case PipeRead => 3
    case PipeWrite => 4
    case AuditRead => 5
  }

  /** The event a finished request leaves. */
  function EventOf(r: IpcRequest, outcome: IpcResult<nat>, time: nat): AuditEvent {
    var errno := match outcome case Ok(_) => 0 case Err(e) => Errno(e);
    var result := match outcome
                  case Ok(v) => if r.operation.SignalSend? || r.operation.PipeCreate? then 1 else v
                  case Err(_) => 0;
    AuditEvent(0, time, OperationId(r.operation), errno, r.subject.pid, r.subject.uid, r.target.id, r.target.ownerUid,
               r.amount, result)
  }

  datatype ControlOperation = ControlRead | ControlStat

  /** The event a failed audit call leaves. */
  function ControlEvent(op: ControlOperation, s: IpcSubject, amount: nat, e: IpcError, time: nat): AuditEvent {
    AuditEvent(0, time, if op.ControlRead? then 5 else 6, Errno(e), s.pid, s.uid, 0, AUDIT_UID_UNKNOWN,
               if op.ControlRead? then amount else 0, 0)
  }

  /** Who may signal whom. */
  predicate MaySignal(r: IpcRequest) {
    || r.subject.pid == r.target.id || r.subject.uid == r.target.ownerUid
    || r.subject.uid == 0 || r.subject.capabilities.kill
  }

  function Authorize(r: IpcRequest): IpcResult<()> {
    if r.operation.SignalSend? && !MaySignal(r) then Err(PermissionDenied) else Ok(())
  }

  predicate MayAudit(s: IpcSubject) {
    s.uid == 0 || s.capabilities.auditRead
  }
}
