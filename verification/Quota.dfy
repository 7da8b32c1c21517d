/** Per-process descriptor quota (os/src/security/quota.rs) and what it must agree with, the
    descriptor table. */
module Quota {
  import opened Bits
  import opened Options
  import opened SecurityApi

  const MAX_OPEN_FILES: nat := 32
  const MAX_OPEN_PIPE_FDS: nat := 16
  const PIPE_ENDPOINTS_PER_PIPE: nat := 2
  const U64_BITS: nat := 64

  datatype File = File(readable: bool, writable: bool, pipe: Option<IpcObject>)

  type FdTable = seq<Option<File>>

  /** Counters and pipe bitmap of one process. */
  datatype Usage = Usage(files: nat, pipes: nat, mask: nat)

  predicate IsPipe(slot: Option<File>) {
    slot.Some? && slot.value.pipe.Some?
  }

  function Weight(slot: Option<File>, pipesOnly: bool): nat {
    if slot.Some? && (pipesOnly ==> IsPipe(slot)) then 1 else 0
  }

  /** Number of occupied slots, or of those that hold a pipe end. */
  function Held(t: FdTable, pipesOnly: bool): nat {
    if t == [] then 0 else Weight(t[0], pipesOnly) + Held(t[1..], pipesOnly)
  }

  /** Number of one bits of a word. */
  function Ones(w: nat): nat {
    if w == 0 then 0 else w % 2 + Ones(w / 2)
  }

  /** The lowest empty slot, or the end of the table. */
  function FirstFree(t: FdTable): (fd: nat)
    ensures fd <= |t| && (fd < |t| ==> t[fd].None?)
    ensures forall i | 0 <= i < fd :: t[i].Some?
  {
    if t == [] || t[0].None? then 0
    else
      var fd := FirstFree(t[1..]);
      assert forall i | 1 <= i <= fd :: t[i] == t[1..][i - 1];
      fd + 1
  }

  /** Put a file in the lowest empty slot, growing the table when there is none. */
  function Install(t: FdTable, f: File): (r: FdTable)
    ensures FirstFree(t) < |r| && r[FirstFree(t)] == Some(f)
  {
    var fd := FirstFree(t);
    if fd < |t| then t[fd := Some(f)] else t + [Some(f)]
  }

  /** Add empty slots up to length `n`. */
  function Pad(t: FdTable, n: nat): FdTable {
    if |t| < n then t + seq(n - |t|, _ => None) else t
  }

  /** The bitmap names exactly the pipe slots. */
  ghost predicate Marks(mask: nat, t: FdTable) {
    forall fd: nat :: Bit(mask, fd) <==> fd < |t| && IsPipe(t[fd])
  }

  /** Counters, bitmap, limits and table agree. */
  ghost predicate Balanced(t: FdTable, u: Usage) {
    && |t| <= MAX_OPEN_FILES && u.files == Held(t, false) && u.pipes == Held(t, true) <= MAX_OPEN_PIPE_FDS
    && Marks(u.mask, t)
  }

  lemma {:induction false} HeldSet(t: FdTable, i: nat, slot: Option<File>, pipesOnly: bool)
    requires i < |t|
    ensures Held(t[i := slot], pipesOnly) == Held(t, pipesOnly) - Weight(t[i], pipesOnly) + Weight(slot, pipesOnly)
  {
    if i == 0 {
      assert t[i := slot][1..] == t[1..];
    } else {
      assert t[i := slot][1..] == t[1..][i - 1 := slot];
      HeldSet(t[1..], i - 1, slot, pipesOnly);
    }
  }

  lemma {:induction false} HeldConcat(t: FdTable, r: FdTable, pipesOnly: bool)
    ensures Held(t + r, pipesOnly) == Held(t, pipesOnly) + Held(r, pipesOnly)
  {
    if t == [] {
      assert t + r == r;
    } else {
      assert (t + r)[1..] == t[1..] + r;
      HeldConcat(t[1..], r, pipesOnly);
    }
  }

  lemma {:induction false} HeldBound(t: FdTable)
    ensures Held(t, true) <= Held(t, false) <= |t|
    ensures Held(t, false) == |t| <==> FirstFree(t) == |t|
  {
    if t != [] { HeldBound(t[1..]); }
  }

  lemma {:induction false} HeldNone(t: FdTable, pipesOnly: bool)
    requires forall i | 0 <= i < |t| :: t[i].None?
    ensures Held(t, pipesOnly) == 0
  {
    if t != [] { HeldNone(t[1..], pipesOnly); }
  }

  lemma {:induction false} NoOnes(w: nat)
    requires forall k: nat :: !Bit(w, k)
    ensures w == 0
  {
    if w > 0 {
      assert !Bit(w, 0);
      forall k: nat ensures !Bit(w / 2, k) { assert !Bit(w, k + 1); }
      NoOnes(w / 2);
    }
  }

  /** The pipe counter is the population count of the bitmap. */
  lemma {:induction false} MaskCount(mask: nat, t: FdTable)
    requires Marks(mask, t)
    ensures Ones(mask) == Held(t, true)
    decreases |t|
  {
    if t == [] {
      NoOnes(mask);
    } else {
      assert Bit(mask, 0) <==> IsPipe(t[0]);
      forall fd: nat ensures Bit(mask / 2, fd) <==> fd < |t[1..]| && IsPipe(t[1..][fd]) {
        assert Bit(mask, fd + 1) <==> fd + 1 < |t| && IsPipe(t[fd + 1]);
      }
      MaskCount(mask / 2, t[1..]);
    }
  }

  /** The usage after installing a file in a balanced table. */
  function Charge(t: FdTable, u: Usage, f: File): Usage {
    Usage(u.files + 1, if f.pipe.Some? then u.pipes + 1 else u.pipes,
          if f.pipe.Some? then SetBit(u.mask, FirstFree(t)) else u.mask)
  }

  lemma InstallHeld(t: FdTable, f: File, pipesOnly: bool)
    ensures Held(Install(t, f), pipesOnly) == Held(t, pipesOnly) + Weight(Some(f), pipesOnly)
  {
    if FirstFree(t) < |t| {
      HeldSet(t, FirstFree(t), Some(f), pipesOnly);
    } else {
      HeldConcat(t, [Some(f)], pipesOnly);
    }
  }

  lemma InstallBalanced(t: FdTable, u: Usage, f: File)
    requires Balanced(t, u) && u.files < MAX_OPEN_FILES && (f.pipe.Some? ==> u.pipes < MAX_OPEN_PIPE_FDS)
    ensures FirstFree(t) < MAX_OPEN_FILES && Balanced(Install(t, f), Charge(t, u, f))
  {
    hide FirstFree, SetBit, Bit, Held;
    InstallHeld(t, f, false);
    InstallHeld(t, f, true);
    HeldBound(t);
    var r, mask := Install(t, f), Charge(t, u, f).mask;
    forall fd: nat ensures Bit(mask, fd) <==> fd < |r| && IsPipe(r[fd]) {
      SetClearBit(u.mask, FirstFree(t), fd);
    }
  }

  lemma RemoveBalanced(t: FdTable, u: Usage, fd: nat)
    requires Balanced(t, u) && fd < |t| && t[fd].Some?
    ensures u.files > 0 && (IsPipe(t[fd]) ==> u.pipes > 0)
    ensures Balanced(t[fd := None],
                     Usage(u.files - 1, if IsPipe(t[fd]) then u.pipes - 1 else u.pipes, ClearBit(u.mask, fd)))
  {
    hide Held, ClearBit, Bit;
    HeldSet(t, fd, None, false);
    HeldSet(t, fd, None, true);
    var r := t[fd := None];
    forall i: nat ensures Bit(ClearBit(u.mask, fd), i) <==> i < |r| && IsPipe(r[i]) {
      SetClearBit(u.mask, fd, i);
    }
  }

  /** Taking two freshly installed files out again leaves at most some empty slots at the end. */
  lemma UndoInstall(t: FdTable, f: File, g: File)
    ensures var fd := FirstFree(Install(t, f));
      FirstFree(t) < fd < |Install(Install(t, f), g)|
      && Install(Install(t, f), g)[FirstFree(t) := None][fd := None] == Pad(t, fd + 1)
  {
    var t1 := Install(t, f);
    assert forall i | 0 <= i < FirstFree(t) :: t1[i] == t[i];
    assert t1[FirstFree(t)].Some?;
  }

  lemma PadBalanced(t: FdTable, u: Usage, n: nat)
    requires Balanced(t, u) && n <= MAX_OPEN_FILES
    ensures Balanced(Pad(t, n), u)
  {
    hide Held, Bit;
    if |t| < n {
      var r := seq(n - |t|, _ => None);
      HeldNone(r, false);
      HeldNone(r, true);
      HeldConcat(t, r, false);
      HeldConcat(t, r, true);
    }
  }

  /** Subtraction that stops at zero. */
  function Less(a: nat, b: nat): nat {
    if a >= b then a - b else 0
  }

  class QuotaState {
    var openFiles: nat
    var openPipes: nat
    var pipeFdMask: nat

    function Value(): Usage
      reads this
    {
      Usage(openFiles, openPipes, pipeFdMask)
    }

    constructor Initial()
      ensures Value() == Usage(3, 0, 0)
    {
      openFiles, openPipes, pipeFdMask := 3, 0, 0;
    }

    constructor ForkFrom(parent: QuotaState)
      ensures Value() == parent.Value()
    {
      openFiles, openPipes, pipeFdMask := parent.openFiles, parent.openPipes, parent.pipeFdMask;
    }

    /** A sum past the machine word is also past the limit, so one test covers both. */
    method ReserveFiles(amount: nat) returns (r: IpcResult<()>)
      modifies this
      ensures r == if old(openFiles) + amount > MAX_OPEN_FILES then Err(TooManyFiles) else Ok(())
      ensures Value() == if r.Ok? then old(Value()).(files := old(openFiles) + amount) else old(Value())
    {
      if openFiles + amount > MAX_OPEN_FILES {
        return Err(TooManyFiles);
      }
      openFiles := openFiles + amount;
      r := Ok(());
    }

    method ReservePipeFds(amount: nat) returns (r: IpcResult<()>)
      modifies this
      ensures r == if old(openFiles) + amount > MAX_OPEN_FILES then Err(TooManyFiles)
                   else if old(openPipes) + amount > MAX_OPEN_PIPE_FDS then Err(ResourceExhausted) else Ok(())
      ensures Value() == if r.Ok? then Usage(old(openFiles) + amount, old(openPipes) + amount, old(pipeFdMask))
                         else old(Value())
    {
      if openFiles + amount > MAX_OPEN_FILES {
        return Err(TooManyFiles);
      }
      if openPipes + amount > MAX_OPEN_PIPE_FDS {
        return Err(ResourceExhausted);
      }
      openFiles, openPipes := openFiles + amount, openPipes + amount;
      r := Ok(());
    }

    method ReleasePipeFds(amount: nat)
      modifies this
      ensures Value() == Usage(Less(old(openFiles), amount), Less(old(openPipes), amount), old(pipeFdMask))
    {
      openFiles, openPipes := Less(openFiles, amount), Less(openPipes, amount);
    }

    method RegisterPipeFd(fd: nat)
      requires fd < MAX_OPEN_FILES
      modifies this
      ensures Value() == old(Value()).(mask := SetBit(old(pipeFdMask), fd))
    {
      pipeFdMask := SetBit(pipeFdMask, fd);
    }

    function IsPipeFd(fd: nat): bool
      reads this
    {
      fd < U64_BITS && Bit(pipeFdMask, fd)
    }

    method ReserveDupFd(source: nat) returns (r: IpcResult<bool>)
      modifies this
      ensures r == if old(openFiles) + 1 > MAX_OPEN_FILES then Err(TooManyFiles)
                   else if old(IsPipeFd(source)) && old(openPipes) + 1 > MAX_OPEN_PIPE_FDS then Err(ResourceExhausted)
                   else Ok(old(IsPipeFd(source)))
      ensures Value() == if r.Err? then old(Value())
                         else Usage(old(openFiles) + 1, old(openPipes) + (if r.value then 1 else 0), old(pipeFdMask))
    {
      var isPipe := IsPipeFd(source);
      var reserved: IpcResult<()>;
      if isPipe {
        reserved := ReservePipeFds(1);
      } else {
        reserved := ReserveFiles(1);
      }
      r := match reserved case Ok(_) => Ok(isPipe) case Err(e) => Err(e);
    }

    method ReleaseFd(fd: nat)
      modifies this
      ensures Value() == Usage(Less(old(openFiles), 1), Less(old(openPipes), if old(IsPipeFd(fd)) then 1 else 0),
                               if fd < U64_BITS then ClearBit(old(pipeFdMask), fd) else old(pipeFdMask))
    {
      var wasPipe := IsPipeFd(fd);
      if fd < U64_BITS {
        pipeFdMask := ClearBit(pipeFdMask, fd);
      }
      openFiles := Less(openFiles, 1);
      if wasPipe {
        openPipes := Less(openPipes, 1);
      }
    }
  }
}
