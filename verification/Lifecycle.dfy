/** Process lifecycle: fork, suspend, dispatch, exit and waitpid over the ready queue, the pid
    map, the children lists and the recycling pid allocator (os/src/task, sys_fork and
    sys_waitpid in os/src/syscall/process.rs). Task control blocks are entries of an arena; a
    reference to one is its index, which is never reused. */
module Lifecycle {
  import opened Numbers
  import opened Options
  import opened Sequences

  const PAGE_SIZE: int := 0x1000
  const KERNEL_STACK_SIZE: int := 0x2000
  const TRAMPOLINE: int := U64_LIMIT - PAGE_SIZE
  const IDLE_PID: nat := 1

  datatype TaskStatus = Ready | Running | Zombie

  /** `inCall` says that the kernel stack of a suspended task holds a reference to its own
      control block, as a blocked read or write does. */
  datatype Task = Task(pid: nat, status: TaskStatus, parent: Option<nat>, children: seq<nat>, exitCode: int,
                       inCall: bool)

  type Tasks = map<nat, Task>

  // ---------- kernel stacks ----------

  function StackTop(pid: nat): int {
    TRAMPOLINE - pid * (KERNEL_STACK_SIZE + PAGE_SIZE)
  }

  function StackBottom(pid: nat): int {
    StackTop(pid) - KERNEL_STACK_SIZE
  }

  /** Stacks of different pids are disjoint, with a guard page between. */
  lemma StacksApart(p: nat, q: nat)
    requires p < q
    ensures StackTop(q) + PAGE_SIZE <= StackBottom(p)
  {
    assert q * 12288 >= (p + 1) * 12288;
  }

  /** No address of a stack wraps around exactly for pids up to this one. */
  lemma StackInMemory(pid: nat)
    ensures 0 <= StackBottom(pid) < StackTop(pid) < U64_LIMIT <==> pid <= 1501199875790164
  {
  }

  const VA_LIMIT: int := 0x80_0000_0000
  const HALF_VA: int := 0x40_0000_0000

  /** An address cut to the 39 bits of a virtual address. */
  function ToVirt(v: int): int {
    v % VA_LIMIT
  }

  /** And back, copying its top bit to the 25 bits above. */
  function FromVirt(a: int): int {
    if a >= HALF_VA then a + (U64_LIMIT - VA_LIMIT) else a
  }

  /** Cutting loses nothing exactly for canonical addresses: the lowest and the highest 2^38. */
  lemma VirtRoundTrip(v: nat)
    requires v < U64_LIMIT
    ensures FromVirt(ToVirt(v)) == v <==> v < HALF_VA || v >= U64_LIMIT - HALF_VA
  {
    if v >= U64_LIMIT - HALF_VA { HighPart(v); }
  }

  /** In the highest 2^39 addresses cutting is a shift. */
  lemma HighPart(v: int)
    requires U64_LIMIT - VA_LIMIT <= v < U64_LIMIT
    ensures ToVirt(v) == v - (U64_LIMIT - VA_LIMIT)
  {
    assert U64_LIMIT - VA_LIMIT == VA_LIMIT * 0x1FF_FFFF;
  }

  /** A whole stack has canonical addresses exactly for pids up to this one. */
  lemma StackCanonical(pid: nat)
    ensures StackBottom(pid) >= U64_LIMIT - HALF_VA <==> pid <= 22369620
    ensures pid <= 22369620 ==> forall v: nat | StackBottom(pid) <= v < StackTop(pid) :: FromVirt(ToVirt(v)) == v
  {
    if pid <= 22369620 {
      forall v: nat | StackBottom(pid) <= v < StackTop(pid) ensures FromVirt(ToVirt(v)) == v { VirtRoundTrip(v); }
    }
  }

  /** Every pid up to `n` has a stack of its own below the trampoline, in 39-bit addresses. */
  ghost predicate OwnPages(n: nat) {
    forall p: nat, q: nat | q <= p <= n :: OwnPage(p, q)
  }

  ghost predicate OwnPage(p: nat, q: nat) {
    && ToVirt(StackBottom(p)) < ToVirt(StackTop(p)) <= ToVirt(TRAMPOLINE)
    && (q < p ==> ToVirt(StackTop(p)) + PAGE_SIZE <= ToVirt(StackBottom(q)))
  }

  /** That holds exactly this far; the next stack would start on the page of the trampoline. */
  lemma OwnPagesExact(n: nat)
    ensures OwnPages(n) <==> n <= 44739241
  {
    hide ToVirt;
    if n <= 44739241 {
      forall p: nat, q: nat | q <= p <= n ensures OwnPage(p, q) {
        HighPart(TRAMPOLINE);
        HighPart(StackTop(p));
        HighPart(StackBottom(p));
        HighPart(StackBottom(q));
        if q < p { StacksApart(q, p); }
      }
    } else {
      Wrapped();
      assert !OwnPage(44739242, 0);
    }
  }

  lemma Wrapped()
    ensures ToVirt(StackBottom(44739242)) == ToVirt(TRAMPOLINE) && ToVirt(StackTop(44739242)) == PAGE_SIZE
  {
  }

  // ---------- what every reachable state satisfies ----------

  /** Every task that has not exited can be found by its pid and is in exactly one of the ready
      queue and the processor; an exited task is in neither and cannot be found. */
  ghost predicate Scheduled(ts: Tasks, ready: seq<nat>, current: Option<nat>, pidMap: map<nat, nat>) {
    && NoDup(ready)
    && (forall t | t in ready :: t in ts) && (current.Some? ==> current.value in ts)
    && (forall t {:trigger Placed(ts[t], t, ready, current, pidMap)} | t in ts ::
          Placed(ts[t], t, ready, current, pidMap))
    && (forall p | p in pidMap :: pidMap[p] in ts && ts[pidMap[p]].pid == p && !ts[pidMap[p]].status.Zombie?)
  }

  ghost predicate Placed(task: Task, t: nat, ready: seq<nat>, current: Option<nat>, pidMap: map<nat, nat>) {
    && (task.status.Ready? <==> t in ready)
    && (task.status.Running? <==> current == Some(t))
    && (!task.status.Zombie? ==> task.pid in pidMap && pidMap[task.pid] == t)
    && (task.status.Zombie? ==> !task.inCall)
  }

  /** Children lists and parent links agree, so every task but the first is in exactly one list,
      once; an exited task has no children and the first task has no parent. A parent is older
      than its children, so parent links always lead to the first task. */
  ghost predicate Family(ts: Tasks, init: nat) {
    && init in ts && ts[init].parent.None? && !ts[init].status.Zombie? && ts[init].pid == IDLE_PID
    && (forall t {:trigger Related(ts, init, t)} | t in ts :: Related(ts, init, t))
  }

  ghost predicate Related(ts: Tasks, init: nat, t: nat)
    requires t in ts
  {
    && NoDup(ts[t].children) && (ts[t].status.Zombie? ==> ts[t].children == [])
    && (forall c | c in ts[t].children :: c in ts && ts[c].parent == Some(t))
    && (t != init ==> ts[t].parent.Some? && ts[t].parent.value in ts && t in ts[ts[t].parent.value].children)
    && (t != init ==> init < t && ts[t].parent.value < t)
  }

  /** Pids in use and recycled pids partition [1, next); `owner` names the one task of each pid
      in use. */
  ghost predicate PidsOk(ts: Tasks, owner: map<nat, nat>, next: nat, recycled: seq<nat>) {
    && next >= 1 && Split(owner, next, recycled)
    && (forall t | t in ts :: ts[t].pid in owner && owner[ts[t].pid] == t)
    && (forall p | p in owner :: owner[p] in ts && ts[owner[p]].pid == p)
  }

  ghost predicate Split(owner: map<nat, nat>, next: nat, recycled: seq<nat>) {
    && NoDup(recycled) && (forall p | p in recycled :: 1 <= p < next && p !in owner)
    && (forall p | p in owner :: 1 <= p < next) && (forall p: nat | 1 <= p < next :: p in recycled || p in owner)
  }

  // ---------- counting references ----------

  function Occurrences(s: seq<nat>, t: nat): nat {
    if s == [] then 0 else (if s[|s| - 1] == t then 1 else 0) + Occurrences(s[..|s| - 1], t)
  }

  lemma {:induction false} OccursOnce(s: seq<nat>, t: nat)
    requires NoDup(s)
    ensures Occurrences(s, t) == if t in s then 1 else 0
  {
    if s != [] {
      OccursOnce(s[..|s| - 1], t);
      assert s == s[..|s| - 1] + [s[|s| - 1]];
    }
  }

  /** References from the children lists of the first `n` arena entries. */
  ghost function ListRefs(ts: Tasks, t: nat, n: nat): nat {
    if n == 0 then 0
    else ListRefs(ts, t, n - 1) + (if n - 1 in ts then Occurrences(ts[n - 1].children, t) else 0)
  }

  /** Strong references to a task: children lists, ready queue, processor, pid map, its own
      kernel stack and, for the first task, the static one. */
  ghost function StrongCount(ts: Tasks, ready: seq<nat>, current: Option<nat>, pidMap: map<nat, nat>, init: nat,
                             next: nat, t: nat): nat
    requires t in ts
  {
    ListRefs(ts, t, next) + Occurrences(ready, t) + (if current == Some(t) then 1 else 0)
    + |set p | p in pidMap && pidMap[p] == t| + (if ts[t].inCall then 1 else 0) + (if t == init then 1 else 0)
  }

  lemma {:induction false} OneListRef(ts: Tasks, init: nat, t: nat, n: nat)
    requires Family(ts, init) && t in ts && t != init && Related(ts, init, t)
    ensures ListRefs(ts, t, n) == if ts[t].parent.value < n then 1 else 0
  {
    if n > 0 {
      OneListRef(ts, init, t, n - 1);
      if n - 1 in ts {
        assert Related(ts, init, n - 1) && Related(ts, init, t);
        OccursOnce(ts[n - 1].children, t);
      } else {
        assert Related(ts, init, t);
      }
    }
  }

  /** An exited task is referenced from its parent's list only. */
  lemma ZombieHasOneOwner(ts: Tasks, ready: seq<nat>, current: Option<nat>, pidMap: map<nat, nat>, init: nat,
                          next: nat, t: nat)
    requires Scheduled(ts, ready, current, pidMap) && Family(ts, init) && forall u | u in ts :: u < next
    requires t in ts && ts[t].status.Zombie?
    ensures StrongCount(ts, ready, current, pidMap, init, next, t) == 1
  {
    assert Placed(ts[t], t, ready, current, pidMap);
    assert Related(ts, init, t);
    OneListRef(ts, init, t, next);
    OccursOnce(ready, t);
    assert (set p | p in pidMap && pidMap[p] == t) == {};
  }

  // ---------- fork ----------

  function Forked(ts: Tasks, parent: nat, child: nat, pid: nat): Tasks
    requires parent in ts
  {
    var grown := ts[parent].(children := ts[parent].children + [child]);
    ts[parent := grown][child := Task(pid, Ready, Some(parent), [], 0, false)]
  }

  lemma ForkScheduled(ts: Tasks, ready: seq<nat>, current: Option<nat>, pidMap: map<nat, nat>, child: nat, pid: nat)
    requires Scheduled(ts, ready, current, pidMap) && current.Some? && child !in ts
             && forall t | t in ts :: ts[t].pid != pid
    ensures Scheduled(Forked(ts, current.value, child, pid), ready + [child], current, pidMap[pid := child])
  {
    var ts' := Forked(ts, current.value, child, pid);
    forall t | t in ts' ensures Placed(ts'[t], t, ready + [child], current, pidMap[pid := child]) {
      if t != child {
        assert Placed(ts[t], t, ready, current, pidMap);
      }
    }
    forall p | p in pidMap && p != pid ensures pidMap[p] != child && ts'[pidMap[p]].pid == p {
    }
  }

  lemma ForkFamily(ts: Tasks, init: nat, parent: nat, child: nat, pid: nat)
    requires Family(ts, init) && parent in ts && ts[parent].status.Running? && forall t | t in ts :: t < child
    ensures Family(Forked(ts, parent, child, pid), init)
  {
    var ts' := Forked(ts, parent, child, pid);
    assert Related(ts, init, parent);
    assert child !in ts[parent].children;
    forall t | t in ts' ensures Related(ts', init, t) {
      if t != child {
        assert Related(ts, init, t);
      }
    }
  }

  // ---------- suspend, dispatch, return ----------

  lemma SuspendScheduled(ts: Tasks, ready: seq<nat>, t: nat, pidMap: map<nat, nat>, inCall: bool)
    requires Scheduled(ts, ready, Some(t), pidMap)
    ensures Scheduled(ts[t := ts[t].(status := Ready, inCall := inCall)], ready + [t], None, pidMap[ts[t].pid := t])
  {
    var ts' := ts[t := ts[t].(status := Ready, inCall := inCall)];
    assert Placed(ts[t], t, ready, Some(t), pidMap);
    assert pidMap[ts[t].pid := t] == pidMap;
    forall u | u in ts' ensures Placed(ts'[u], u, ready + [t], None, pidMap) {
      assert Placed(ts[u], u, ready, Some(t), pidMap);
    }
  }

  lemma DispatchScheduled(ts: Tasks, ready: seq<nat>, pidMap: map<nat, nat>)
    requires Scheduled(ts, ready, None, pidMap) && ready != []
    ensures Scheduled(ts[ready[0] := ts[ready[0]].(status := Running)], ready[1..], Some(ready[0]), pidMap)
  {
    var t := ready[0];
    var ts' := ts[t := ts[t].(status := Running)];
    assert forall u | u in ready[1..] :: u in ready && u != t;
    forall u | u in ts' ensures Placed(ts'[u], u, ready[1..], Some(t), pidMap) {
      assert Placed(ts[u], u, ready, None, pidMap);
      assert u in ready <==> u == t || u in ready[1..];
    }
  }

  /** Neither status among the living, nor exit code, nor kernel-stack reference matter to the family. */
  lemma FamilyIgnores(ts: Tasks, init: nat, t: nat, task: Task)
    requires Family(ts, init) && t in ts && !ts[t].status.Zombie? && !task.status.Zombie?
    requires task.pid == ts[t].pid && task.parent == ts[t].parent && task.children == ts[t].children
    ensures Family(ts[t := task], init)
  {
    forall u | u in ts ensures Related(ts[t := task], init, u) {
      assert Related(ts, init, u);
    }
  }

  /** As long as the first task lives, there is something to run. */
  lemma NeverIdle(ts: Tasks, ready: seq<nat>, pidMap: map<nat, nat>, init: nat)
    requires Scheduled(ts, ready, None, pidMap) && Family(ts, init)
    ensures ready != []
  {
    assert Placed(ts[init], init, ready, None, pidMap);
  }

  // ---------- exit ----------

  /** `cs` moved under the first task. */
  function Adopted(ts: Tasks, cs: seq<nat>, init: nat): Tasks {
    map t | t in ts :: if t == init then ts[t].(children := ts[t].children + cs)
                       else if t in cs then ts[t].(parent := Some(init)) else ts[t]
  }

  function Exited(ts: Tasks, t: nat, code: int, init: nat): Tasks
    requires t in ts
  {
    var ts' := Adopted(ts[t := ts[t].(status := Zombie, exitCode := code)], ts[t].children, init);
    ts'[t := ts[t].(status := Zombie, exitCode := code, children := [])]
  }

  /** What an exit does to one entry. */
  lemma ExitedAt(ts: Tasks, t: nat, code: int, init: nat, u: nat)
    requires Family(ts, init) && t in ts && t != init && u in ts
    ensures var ts' := Exited(ts, t, code, init);
      && ts'.Keys == ts.Keys
      && ts'[u] == if u == t then ts[t].(status := Zombie, exitCode := code, children := [])
                   else if u == init then ts[init].(children := ts[init].children + ts[t].children)
                   else if u in ts[t].children then ts[u].(parent := Some(init)) else ts[u]
  {
    var ts' := Exited(ts, t, code, init);
    assert ts'.Keys == ts.Keys;
  }

  lemma ExitMeans(ts: Tasks, t: nat, code: int, init: nat)
    requires Family(ts, init) && t in ts && t != init
    ensures var ts' := Exited(ts, t, code, init);
      && ts'.Keys == ts.Keys && init in ts
      && ts'[t] == ts[t].(status := Zombie, exitCode := code, children := [])
      && ts'[init] == ts[init].(children := ts[init].children + ts[t].children)
      && forall u | u in ts && u != t && u != init ::
           ts'[u] == if u in ts[t].children then ts[u].(parent := Some(init)) else ts[u]
  {
    hide Exited;
    ExitedAt(ts, t, code, init, t);
    ExitedAt(ts, t, code, init, init);
    forall u | u in ts && u != t && u != init
      ensures Exited(ts, t, code, init)[u] == if u in ts[t].children then ts[u].(parent := Some(init)) else ts[u]
    {
      ExitedAt(ts, t, code, init, u);
    }
  }

  lemma ExitScheduled(ts: Tasks, ready: seq<nat>, t: nat, pidMap: map<nat, nat>, code: int, init: nat)
    requires Scheduled(ts, ready, Some(t), pidMap) && Family(ts, init) && t != init && !ts[t].inCall
    ensures Scheduled(Exited(ts, t, code, init), ready, None, pidMap - {ts[t].pid})
  {
    var ts' := Exited(ts, t, code, init);
    ExitedAt(ts, t, code, init, t);
    assert Placed(ts[t], t, ready, Some(t), pidMap);
    forall u | u in ts' ensures Placed(ts'[u], u, ready, None, pidMap - {ts[t].pid}) {
      ExitedAt(ts, t, code, init, u);
      assert Placed(ts[u], u, ready, Some(t), pidMap);
    }
    forall p | p in pidMap && p != ts[t].pid
      ensures pidMap[p] in ts' && ts'[pidMap[p]].pid == p && !ts'[pidMap[p]].status.Zombie?
    {
      ExitedAt(ts, t, code, init, pidMap[p]);
    }
  }

  lemma ExitFamily(ts: Tasks, init: nat, t: nat, code: int)
    requires Family(ts, init) && t in ts && t != init
    ensures Family(Exited(ts, t, code, init), init)
  {
    hide Exited;
    var ts' := Exited(ts, t, code, init);
    assert Related(ts, init, t) && Related(ts, init, init);
    ExitedAt(ts, t, code, init, t);
    ExitedAt(ts, t, code, init, init);
    forall u | u in ts' ensures Related(ts', init, u) {
      assert Related(ts, init, u);
      ExitedAt(ts, t, code, init, u);
      ExitRelated(ts, init, t, code, u);
    }
  }

  lemma ExitRelated(ts: Tasks, init: nat, t: nat, code: int, u: nat)
    requires Family(ts, init) && t in ts && t != init && u in ts
    ensures u in Exited(ts, t, code, init) && Related(Exited(ts, t, code, init), init, u)
  {
    hide Exited;
    var ts' := Exited(ts, t, code, init);
    ExitedAt(ts, t, code, init, u);
    assert Related(ts, init, u) && Related(ts, init, t) && Related(ts, init, init);
    forall c | c in ts'[u].children ensures c in ts' && ts'[c].parent == Some(u) {
      assert c in ts[u].children || (u == init && c in ts[t].children);
      ExitedAt(ts, t, code, init, c);
      assert Related(ts, init, c);
    }
    if u != init {
      ExitedAt(ts, t, code, init, ts[u].parent.value);
      ExitedAt(ts, t, code, init, init);
    } else {
      var own, more := ts[init].children, ts[t].children;
      assert forall i, j | 0 <= i < |own| && 0 <= j < |more| :: ts[own[i]].parent != ts[more[j]].parent;
    }
  }

  // ---------- waitpid ----------

  /** Does a child match the argument, read as a machine word? */
  predicate Matches(arg: int, pid: nat) {
    arg == -1 || (if arg < 0 then arg + U64_LIMIT else arg) == pid
  }

  /** Child `i` of `t` matches, and has exited if that is asked for. */
  ghost predicate ChildMatch(ts: Tasks, t: nat, arg: int, zombie: bool, i: int) {
    && t in ts && 0 <= i < |ts[t].children| && ts[t].children[i] in ts
    && Matches(arg, ts[ts[t].children[i]].pid) && (zombie ==> ts[ts[t].children[i]].status.Zombie?)
  }

  ghost predicate FirstMatch(ts: Tasks, t: nat, arg: int, zombie: bool, i: int) {
    ChildMatch(ts, t, arg, zombie, i) && forall j | 0 <= j < i :: !ChildMatch(ts, t, arg, zombie, j)
  }

  ghost predicate HasMatch(ts: Tasks, t: nat, arg: int, zombie: bool) {
    exists i :: ChildMatch(ts, t, arg, zombie, i)
  }

  /** Child `i` is the first matching zombie, and `ts'` is what is left when it is reaped. */
  ghost predicate Reaps(ts: Tasks, ts': Tasks, t: nat, arg: int, ret: int, code: int, i: nat) {
    && FirstMatch(ts, t, arg, true, i) && ts' == Reaped(ts, t, i)
    && ret == ts[ts[t].children[i]].pid >= 1 && code == ts[ts[t].children[i]].exitCode
  }

  /** Which children match, on the numbers: with -1 every child, else the one with that pid, a
      negative argument standing for its 64-bit word. */
  lemma MatchMeans(ts: Tasks, t: nat, arg: int, zombie: bool)
    requires t in ts && forall c | c in ts[t].children :: c in ts
    ensures HasMatch(ts, t, arg, zombie) <==>
            exists c :: c in ts[t].children && (zombie ==> ts[c].status.Zombie?)
                        && (arg == -1 || ts[c].pid == if arg >= 0 then arg else 0x1_0000_0000_0000_0000 + arg)
  {
    if c :| c in ts[t].children && (zombie ==> ts[c].status.Zombie?)
            && (arg == -1 || ts[c].pid == if arg >= 0 then arg else 0x1_0000_0000_0000_0000 + arg) {
      var i :| 0 <= i < |ts[t].children| && ts[t].children[i] == c;
      assert ChildMatch(ts, t, arg, zombie, i);
    }
    if i :| ChildMatch(ts, t, arg, zombie, i) { assert ts[t].children[i] in ts[t].children; }
  }

  /** The two common arguments. */
  lemma WaitMeans(ts: Tasks, t: nat, arg: int)
    requires t in ts && forall c | c in ts[t].children :: c in ts
    ensures arg >= 0 ==> (HasMatch(ts, t, arg, false) <==> exists c :: c in ts[t].children && ts[c].pid == arg)
    ensures arg == -1 ==> (HasMatch(ts, t, arg, false) <==> ts[t].children != [])
    ensures arg == -1 ==> (HasMatch(ts, t, arg, true) <==> exists c :: c in ts[t].children && ts[c].status.Zombie?)
  {
    hide HasMatch, Matches;
    MatchMeans(ts, t, arg, false);
    MatchMeans(ts, t, arg, true);
    if ts[t].children != [] { assert ts[t].children[0] in ts[t].children; }
  }

  /** What a reaping leaves and reports, without the search. */
  lemma ReapMeans(ts: Tasks, ts': Tasks, t: nat, arg: int, ret: int, code: int, i: nat)
    requires Reaps(ts, ts', t, arg, ret, code, i) && ts[t].children[i] != t
    ensures var cs := ts[t].children;
      && cs[i] in ts && ts[cs[i]].status.Zombie? && ts[cs[i]].pid == ret && ts[cs[i]].exitCode == code
      && (arg == -1 || ret == if arg >= 0 then arg else 0x1_0000_0000_0000_0000 + arg)
      && (arg == -1 ==> forall j | 0 <= j < i :: cs[j] !in ts || !ts[cs[j]].status.Zombie?)
      && ts'.Keys == ts.Keys - {cs[i]} && ts'[t] == ts[t].(children := cs[..i] + cs[i + 1..])
      && forall u | u in ts' && u != t :: ts'[u] == ts[u]
  {
    if arg == -1 {
      forall j | 0 <= j < i ensures ts[t].children[j] !in ts || !ts[ts[t].children[j]].status.Zombie? {
        assert !ChildMatch(ts, t, arg, true, j);
      }
    }
  }

  function Reaped(ts: Tasks, t: nat, i: nat): Tasks
    requires t in ts && i < |ts[t].children|
  {
    ts[t := ts[t].(children := ts[t].children[..i] + ts[t].children[i + 1..])] - {ts[t].children[i]}
  }

  lemma ReapScheduled(ts: Tasks, ready: seq<nat>, t: nat, pidMap: map<nat, nat>, i: nat)
    requires Scheduled(ts, ready, Some(t), pidMap) && i < |ts[t].children|
    requires ts[t].children[i] in ts && ts[ts[t].children[i]].status.Zombie?
    ensures Scheduled(Reaped(ts, t, i), ready, Some(t), pidMap)
  {
    var c, ts' := ts[t].children[i], Reaped(ts, t, i);
    assert Placed(ts[c], c, ready, Some(t), pidMap);
    forall u | u in ts' ensures Placed(ts'[u], u, ready, Some(t), pidMap) {
      assert Placed(ts[u], u, ready, Some(t), pidMap);
    }
  }

  lemma ReapFamily(ts: Tasks, init: nat, t: nat, i: nat)
    requires Family(ts, init) && t in ts && i < |ts[t].children| && !ts[t].status.Zombie?
    requires ts[t].children[i] in ts && ts[ts[t].children[i]].status.Zombie?
    ensures Family(Reaped(ts, t, i), init)
  {
    var cs := ts[t].children;
    var c, ts' := cs[i], Reaped(ts, t, i);
    assert Related(ts, init, t) && Related(ts, init, c);
    RemoveOne(cs, i);
    forall u | u in ts' ensures Related(ts', init, u) {
      assert Related(ts, init, u);
    }
  }

  // ---------- pids and stacks ----------

  lemma SamePids(ts: Tasks, ts': Tasks, owner: map<nat, nat>, next: nat, recycled: seq<nat>)
    requires ts'.Keys == ts.Keys && forall t | t in ts :: ts'[t].pid == ts[t].pid
    requires PidsOk(ts, owner, next, recycled)
    ensures PidsOk(ts', owner, next, recycled)
  {
    forall t | t in ts' ensures ts'[t].pid in owner && owner[ts'[t].pid] == t {
      assert t in ts;
    }
  }

  lemma ForkPids(ts: Tasks, owner: map<nat, nat>, parent: nat, child: nat, pid: nat,
                 next: nat, recycled: seq<nat>, next': nat, recycled': seq<nat>)
    requires PidsOk(ts, owner, next, recycled) && parent in ts && child !in ts
    requires if recycled == [] then pid == next && next' == next + 1 && recycled' == []
             else pid == recycled[|recycled| - 1] && next' == next && recycled' == recycled[..|recycled| - 1]
    ensures pid !in owner && pid >= 1 && PidsOk(Forked(ts, parent, child, pid), owner[pid := child], next', recycled')
  {
    TakePid(owner, pid, next, recycled, next', recycled');
    var ts', owner' := Forked(ts, parent, child, pid), owner[pid := child];
    forall t | t in ts' ensures ts'[t].pid in owner' && owner'[ts'[t].pid] == t {
      if t != child { assert t in ts && ts'[t].pid == ts[t].pid; }
    }
    forall p | p in owner' && p != pid ensures owner'[p] in ts' && ts'[owner'[p]].pid == p {
      assert owner[p] in ts && owner[p] != child;
    }
  }

  /** Handing a pid out moves it from the recycled or new ones to those in use. */
  lemma TakePid(owner: map<nat, nat>, pid: nat, next: nat, recycled: seq<nat>, next': nat, recycled': seq<nat>)
    requires Split(owner, next, recycled) && next >= 1
    requires if recycled == [] then pid == next && next' == next + 1 && recycled' == []
             else pid == recycled[|recycled| - 1] && next' == next && recycled' == recycled[..|recycled| - 1]
    ensures pid !in owner && 1 <= pid < next' && NoDup(recycled') && pid !in recycled'
    ensures forall p | p in recycled' :: p in recycled && 1 <= p < next'
    ensures forall p: nat | 1 <= p < next' :: p in recycled' || p in owner || p == pid
  {
    if recycled != [] {
      assert recycled == recycled' + [pid];
      assert pid in recycled;
      forall p | p in recycled' ensures p in recycled && 1 <= p < next' { assert p in recycled' + [pid]; }
    }
  }

  lemma ReapPids(ts: Tasks, owner: map<nat, nat>, t: nat, i: nat, next: nat, recycled: seq<nat>)
    requires PidsOk(ts, owner, next, recycled) && t in ts && i < |ts[t].children| && ts[t].children[i] in ts
             && ts[t].children[i] != t
    ensures var pid := ts[ts[t].children[i]].pid;
      pid in owner && pid < next && pid !in recycled && PidsOk(Reaped(ts, t, i), owner - {pid}, next, recycled + [pid])
  {
  }

  /** Different tasks have different pids and disjoint stacks. */
  lemma TasksApart(ts: Tasks, owner: map<nat, nat>, next: nat, recycled: seq<nat>, t: nat, u: nat)
    requires PidsOk(ts, owner, next, recycled) && t in ts && u in ts && t != u
    ensures ts[t].pid != ts[u].pid
    ensures StackTop(ts[t].pid) < StackBottom(ts[u].pid) || StackTop(ts[u].pid) < StackBottom(ts[t].pid)
  {
    hide StackTop, StackBottom;
    assert owner[ts[t].pid] != owner[ts[u].pid];
    if ts[t].pid < ts[u].pid { StacksApart(ts[t].pid, ts[u].pid); } else { StacksApart(ts[u].pid, ts[t].pid); }
  }

  /** The stack of `pid` and its guard pages meet no mapped stack. */
  predicate StackFree(stacks: set<nat>, pid: nat) {
    forall q | q in stacks :: StackTop(q) + PAGE_SIZE <= StackBottom(pid) || StackTop(pid) + PAGE_SIZE <= StackBottom(q)
  }

  lemma NewStackIsFree(stacks: set<nat>, pid: nat)
    requires pid !in stacks
    ensures StackFree(stacks, pid)
  {
    hide StackTop, StackBottom;
    forall q | q in stacks
      ensures StackTop(q) + PAGE_SIZE <= StackBottom(pid) || StackTop(pid) + PAGE_SIZE <= StackBottom(q)
    {
      if q < pid { StacksApart(q, pid); } else { StacksApart(pid, q); }
    }
  }

  class PidAllocator {
    var current: nat
    var recycled: seq<nat>

    constructor ()
      ensures current == 1 && recycled == []
    {
      current, recycled := 1, [];
    }

    method Alloc() returns (pid: nat)
      modifies this
      ensures if old(recycled) == [] then pid == old(current) && current == old(current) + 1 && recycled == []
              else
                var n := |old(recycled)| - 1;
                pid == old(recycled)[n] && current == old(current) && recycled == old(recycled)[..n]
    {
      if recycled != [] {
        pid := recycled[|recycled| - 1];
        recycled := recycled[..|recycled| - 1];
      } else {
        current := current + 1;
        pid := current - 1;
      }
    }

    /** The source asserts both preconditions. */
    method Dealloc(pid: nat)
      requires pid < current && pid !in recycled
      modifies this`recycled
      ensures recycled == old(recycled) + [pid]
    {
      recycled := recycled + [pid];
    }
  }

  // ---------- runs ----------

  datatype Op = ForkOp | SuspendOp(inCall: bool) | FinishOp | DispatchOp | ExitOp(code: int)
              | WaitOp(arg: int, copyOk: bool)

  /** The whole process state as a value. */
  datatype State = State(tasks: Tasks, ready: seq<nat>, current: Option<nat>, pidMap: map<nat, nat>, stacks: set<nat>,
                         owner: map<nat, nat>, nextPid: nat, recycled: seq<nat>, nextTask: nat, halted: bool)

  /** What every reachable state satisfies. */
  ghost predicate Inv(s: State, init: nat) {
    && Scheduled(s.tasks, s.ready, s.current, s.pidMap) && Family(s.tasks, init)
    && PidsOk(s.tasks, s.owner, s.nextPid, s.recycled)
    && s.stacks == s.owner.Keys && forall t | t in s.tasks :: t < s.nextTask
  }

  /** A task runs, and is not inside a call that has been suspended. */
  predicate InUser(ts: Tasks, current: Option<nat>, halted: bool) {
    !halted && current.Some? && current.value in ts && !ts[current.value].inCall
  }

  predicate Allowed(ts: Tasks, current: Option<nat>, halted: bool, op: Op) {
    match op
    case SuspendOp(inCall) => !halted && current.Some? && current.value in ts && (ts[current.value].inCall ==> inCall)
    case FinishOp => !halted && current.Some? && current.value in ts && ts[current.value].inCall
    case DispatchOp => !halted && current.None?
    case _ => InUser(ts, current, halted)
  }

  function NewPid(s: State): nat {
    if s.recycled == [] then s.nextPid else s.recycled[|s.recycled| - 1]
  }

  ghost function AfterFork(s: State): State
    requires s.current.Some? && s.current.value in s.tasks
  {
    var pid := NewPid(s);
    s.(tasks := Forked(s.tasks, s.current.value, s.nextTask, pid), ready := s.ready + [s.nextTask],
       pidMap := s.pidMap[pid := s.nextTask], stacks := s.stacks + {pid}, owner := s.owner[pid := s.nextTask],
       nextPid := if s.recycled == [] then s.nextPid + 1 else s.nextPid,
       recycled := if s.recycled == [] then [] else s.recycled[..|s.recycled| - 1],
       nextTask := s.nextTask + 1)
  }

  ghost function AfterExit(s: State, code: int, init: nat): State
    requires s.current.Some? && s.current.value in s.tasks
  {
    var t := s.current.value;
    if t == init then s.(halted := true)
    else s.(tasks := Exited(s.tasks, t, code, init), current := None, pidMap := s.pidMap - {s.tasks[t].pid})
  }

  ghost function AfterWait(s: State, arg: int, copyOk: bool): State
    requires s.current.Some? && s.current.value in s.tasks
  {
    var t := s.current.value;
    if copyOk && HasMatch(s.tasks, t, arg, true) then
      MatchHasFirst(s.tasks, t, arg, true);
      var i :| FirstMatch(s.tasks, t, arg, true, i);
      var pid := s.tasks[s.tasks[t].children[i]].pid;
      s.(tasks := Reaped(s.tasks, t, i), stacks := s.stacks - {pid}, owner := s.owner - {pid},
         recycled := s.recycled + [pid])
    else s
  }

  lemma ForkKeeps(s: State, init: nat)
    requires Inv(s, init) && s.current.Some?
    ensures s.current.value in s.tasks && Inv(AfterFork(s), init)
    ensures NewPid(s) >= 1 && NewPid(s) !in s.stacks && s.nextTask !in s.tasks
            && forall t | t in s.tasks :: s.tasks[t].pid != NewPid(s)
  {
    hide Scheduled, Family, PidsOk;
    RunningCurrent(s.tasks, s.ready, s.current, s.pidMap);
    var s', parent, pid := AfterFork(s), s.current.value, NewPid(s);
    ForkPids(s.tasks, s.owner, parent, s.nextTask, pid, s.nextPid, s.recycled, s'.nextPid, s'.recycled);
    OwnerNames(s.tasks, s.owner, s.nextPid, s.recycled, pid);
    ForkScheduled(s.tasks, s.ready, s.current, s.pidMap, s.nextTask, pid);
    ForkFamily(s.tasks, init, parent, s.nextTask, pid);
  }

  /** The effect of one operation; a dispatch with nothing ready waits. */
  ghost function Next(s: State, op: Op, init: nat): State
    requires Allowed(s.tasks, s.current, s.halted, op)
  {
    match op
    case ForkOp => AfterFork(s)
    case SuspendOp(inCall) =>
      var t := s.current.value;
      s.(tasks := s.tasks[t := s.tasks[t].(status := Ready, inCall := inCall)], ready := s.ready + [t], current := None,
         pidMap := s.pidMap[s.tasks[t].pid := t])
    case FinishOp =>
      var t := s.current.value;
      s.(tasks := s.tasks[t := s.tasks[t].(inCall := false)])
    case DispatchOp =>
      if s.ready == [] || s.ready[0] !in s.tasks then s
      else
        var t := s.ready[0];
        s.(tasks := s.tasks[t := s.tasks[t].(status := Running)], ready := s.ready[1..], current := Some(t))
    case ExitOp(code) => AfterExit(s, code, init)
    case WaitOp(arg, copyOk) => AfterWait(s, arg, copyOk)
  }

  /** What an operation returns to its caller: the child's pid, or what waitpid returns with the
      exit code it copied out. */
  datatype Result = NoResult | Child(pid: int) | Waited(ret: int, code: int)

  ghost function ResultOf(s: State, op: Op): Result
    requires Allowed(s.tasks, s.current, s.halted, op)
  {
    match op
    case ForkOp => Child(NewPid(s))
    case WaitOp(arg, copyOk) =>
      var t := s.current.value;
      if !HasMatch(s.tasks, t, arg, false) then Waited(-1, 0)
      else if !HasMatch(s.tasks, t, arg, true) then Waited(-2, 0)
      else if !copyOk then Waited(-14, 0)
      else
        MatchHasFirst(s.tasks, t, arg, true);
        var i :| FirstMatch(s.tasks, t, arg, true, i);
        var child := s.tasks[s.tasks[t].children[i]];
        Waited(child.pid, child.exitCode)
    case _ => NoResult
  }

  /** The result of operation `n` of a run. */
  ghost function ResultAt(s: State, ops: seq<Op>, init: nat, n: nat): Result
    requires n < |ops|
  {
    var before := Run(s, ops[..n], init);
    if Allowed(before.tasks, before.current, before.halted, ops[n]) then ResultOf(before, ops[n]) else NoResult
  }

  /** Operations that cannot happen where they stand are passed over. */
  ghost function Run(s: State, ops: seq<Op>, init: nat): State {
    if ops == [] then s
    else
      var before := Run(s, ops[..|ops| - 1], init);
      var op := ops[|ops| - 1];
      if Allowed(before.tasks, before.current, before.halted, op) then Next(before, op, init) else before
  }

  lemma MatchHasFirst(ts: Tasks, t: nat, arg: int, zombie: bool)
    requires HasMatch(ts, t, arg, zombie)
    ensures exists i :: FirstMatch(ts, t, arg, zombie, i)
  {
    var i :| ChildMatch(ts, t, arg, zombie, i);
    FirstBelow(ts, t, arg, zombie, i);
  }

  lemma {:induction false} FirstBelow(ts: Tasks, t: nat, arg: int, zombie: bool, i: int)
    requires ChildMatch(ts, t, arg, zombie, i)
    ensures exists j :: FirstMatch(ts, t, arg, zombie, j)
    decreases i
  {
    if j :| 0 <= j < i && ChildMatch(ts, t, arg, zombie, j) {
      FirstBelow(ts, t, arg, zombie, j);
    } else {
      assert FirstMatch(ts, t, arg, zombie, i);
    }
  }

  /** Operation `m` is the exit, with this code, of task `z` under this pid. */
  ghost predicate ExitAt(s: State, ops: seq<Op>, init: nat, m: int, z: nat, pid: int, code: int) {
    && 0 <= m < |ops| && ops[m] == ExitOp(code)
    && var before := Run(s, ops[..m], init);
    && Allowed(before.tasks, before.current, before.halted, ops[m]) && before.current == Some(z)
    && z in before.tasks && before.tasks[z].pid == pid
  }

  /** A zombie was one before, or has just exited with the code it holds. */
  lemma ZombieStep(s: State, op: Op, init: nat, z: nat)
    requires Allowed(s.tasks, s.current, s.halted, op)
    requires z in Next(s, op, init).tasks && Next(s, op, init).tasks[z].status.Zombie?
    ensures z in s.tasks && Next(s, op, init).tasks[z].pid == s.tasks[z].pid
    ensures || (s.tasks[z].status.Zombie? && s.tasks[z].exitCode == Next(s, op, init).tasks[z].exitCode)
            || (s.current == Some(z) && op == ExitOp(Next(s, op, init).tasks[z].exitCode))
  {
    hide HasMatch, FirstMatch;
  }

  lemma {:induction false} ZombieStory(s: State, ops: seq<Op>, init: nat, z: nat)
    requires forall t | t in s.tasks :: !s.tasks[t].status.Zombie?
    requires z in Run(s, ops, init).tasks && Run(s, ops, init).tasks[z].status.Zombie?
    ensures exists m :: ExitAt(s, ops, init, m, z, Run(s, ops, init).tasks[z].pid, Run(s, ops, init).tasks[z].exitCode)
    decreases |ops|
  {
    hide Next, Allowed;
    if ops != [] {
      var n := |ops| - 1;
      var before, after := Run(s, ops[..n], init), Run(s, ops, init);
      var pid, code := after.tasks[z].pid, after.tasks[z].exitCode;
      if Allowed(before.tasks, before.current, before.halted, ops[n]) {
        ZombieStep(before, ops[n], init, z);
        if before.current == Some(z) && ops[n] == ExitOp(code) {
          assert ExitAt(s, ops, init, n, z, pid, code);
          return;
        }
      }
      ZombieStory(s, ops[..n], init, z);
      var m :| ExitAt(s, ops[..n], init, m, z, pid, code);
      assert ops[..n][..m] == ops[..m];
      assert ExitAt(s, ops, init, m, z, pid, code);
    }
  }

  /** What waitpid reports is what the child gave exit: over every run, a reported exit code was
      given to an earlier exit of the process with the reported pid. */
  lemma WaitReportsExit(s: State, ops: seq<Op>, init: nat, n: nat, pid: int, code: int)
    requires forall t | t in s.tasks :: !s.tasks[t].status.Zombie?
    requires n < |ops| && ResultAt(s, ops, init, n) == Waited(pid, code) && pid >= 0
    ensures exists m, z :: m < n && ExitAt(s, ops, init, m, z, pid, code)
  {
    var before := Run(s, ops[..n], init);
    var arg, t := ops[n].arg, before.current.value;
    MatchHasFirst(before.tasks, t, arg, true);
    var i :| FirstMatch(before.tasks, t, arg, true, i) && ResultOf(before, ops[n]) ==
               Waited(before.tasks[before.tasks[t].children[i]].pid,
                      before.tasks[before.tasks[t].children[i]].exitCode);
    var z := before.tasks[t].children[i];
    ZombieStory(s, ops[..n], init, z);
    var m :| ExitAt(s, ops[..n], init, m, z, pid, code);
    assert ops[..n][..m] == ops[..m];
    assert ExitAt(s, ops, init, m, z, pid, code);
  }

  class Kernel {
    var tasks: Tasks
    var ready: seq<nat>
    var current: Option<nat>
    var pidMap: map<nat, nat>
    const init: nat
    const pids: PidAllocator
    /** Pids whose kernel stack is mapped. */
    var stacks: set<nat>
    /** The machine has been shut down. */
    var halted: bool
    ghost var owner: map<nat, nat>
    var nextTask: nat

    ghost function View(): State
      reads this, pids
    {
      State(tasks, ready, current, pidMap, stacks, owner, pids.current, pids.recycled, nextTask, halted)
    }

    ghost predicate Valid()
      reads this, pids
    {
      Inv(View(), init)
    }

    /** The first task, ready to run. */
    constructor ()
      ensures Valid() && fresh(pids) && !halted && current.None? && tasks.Keys == {init} && tasks[init].pid == IDLE_PID
    {
      var allocator := new PidAllocator();
      var pid := allocator.Alloc();
      pids := allocator;
      init, nextTask, halted := 0, 1, false;
      tasks := map[0 := Task(pid, Ready, None, [], 0, false)];
      ready, current, pidMap := [0], None, map[pid := 0];
      stacks, owner := {pid}, map[pid := 0];
    }

    method AddTask(t: nat)
      requires t in tasks
      modifies this`pidMap, this`ready
      ensures pidMap == old(pidMap)[tasks[t].pid := t] && ready == old(ready) + [t]
    {
      pidMap := pidMap[tasks[t].pid := t];
      ready := ready + [t];
    }

    /** sys_fork: the child is new under its pid, listed by its parent and ready to run. */
    method Fork() returns (ret: int)
      requires Valid() && InUser(tasks, current, halted)
      modifies this, pids
      ensures Valid() && View() == Next(old(View()), ForkOp, init)
      ensures Child(ret) == ResultOf(old(View()), ForkOp) && ret >= 1 && StackFree(old(stacks), ret)
      ensures old(nextTask) !in old(tasks) && forall t | t in old(tasks) :: old(tasks)[t].pid != ret
      ensures var child, parent := old(nextTask), current.value;
        && current == old(current) && tasks.Keys == old(tasks).Keys + {child} && child != parent
        && tasks[child] == Task(ret, Ready, Some(parent), [], 0, false)
        && tasks[parent] == old(tasks)[parent].(children := old(tasks)[parent].children + [child])
        && (forall u | u in old(tasks) && u != parent :: tasks[u] == old(tasks)[u])
        && ready == old(ready) + [child] && pidMap == old(pidMap)[ret := child] && stacks == old(stacks) + {ret}
    {
      hide Inv, StackFree;
      ghost var before := View();
      ForkKeeps(before, init);
      NewStackIsFree(stacks, NewPid(before));
      var parent := current.value;
      var pid := pids.Alloc();
      var child := nextTask;
      nextTask := nextTask + 1;
      stacks := stacks + {pid};
      owner := owner[pid := child];
      tasks := tasks[child := Task(pid, Ready, Some(parent), [], 0, false)];
      tasks := tasks[parent := tasks[parent].(children := tasks[parent].children + [child])];
      assert tasks == Forked(before.tasks, parent, child, pid);
      AddTask(child);
      ret := pid;
    }

    /** suspend_current_and_run_next, from user mode or from within a blocking call. */
    method Suspend(inCall: bool)
      requires Valid() && Allowed(tasks, current, halted, SuspendOp(inCall))
      modifies this`tasks, this`ready, this`current, this`pidMap
      ensures Valid() && View() == Next(old(View()), SuspendOp(inCall), init) && pidMap == old(pidMap)
      ensures var t := old(current).value;
        && current.None? && ready == old(ready) + [t]
        && tasks == old(tasks)[t := old(tasks)[t].(status := Ready, inCall := inCall)]
    {
      hide Scheduled, Family, PidsOk;
      var t := current.value;
      RunningCurrent(tasks, ready, current, pidMap);
      SuspendScheduled(tasks, ready, t, pidMap, inCall);
      var task := tasks[t].(status := Ready, inCall := inCall);
      FamilyIgnores(tasks, init, t, task);
      SamePids(tasks, tasks[t := task], owner, pids.current, pids.recycled);
      assert pidMap[tasks[t].pid := t] == pidMap;
      current := None;
      tasks := tasks[t := task];
      AddTask(t);
    }

    /** The blocking call of the running task returns. */
    method FinishCall()
      requires Valid() && Allowed(tasks, current, halted, FinishOp)
      modifies this`tasks
      ensures Valid() && View() == Next(old(View()), FinishOp, init)
    {
      hide Scheduled, Family, PidsOk;
      var t := current.value;
      RunningCurrent(tasks, ready, current, pidMap);
      var task := tasks[t].(inCall := false);
      FinishScheduled(tasks, ready, t, pidMap);
      FamilyIgnores(tasks, init, t, task);
      SamePids(tasks, tasks[t := task], owner, pids.current, pids.recycled);
      tasks := tasks[t := task];
    }

    /** One round of run_tasks: the oldest ready task runs. There always is one. */
    method Dispatch()
      requires Valid() && Allowed(tasks, current, halted, DispatchOp)
      modifies this`tasks, this`ready, this`current
      ensures Valid() && View() == Next(old(View()), DispatchOp, init) && old(ready) != []
              && current == Some(old(ready)[0])
      ensures ready == old(ready)[1..]
              && tasks == old(tasks)[old(ready)[0] := old(tasks)[old(ready)[0]].(status := Running)]
    {
      hide Scheduled, Family, PidsOk;
      NeverIdle(tasks, ready, pidMap, init);
      var t := ready[0];
      ReadyFirst(tasks, ready, current, pidMap);
      DispatchScheduled(tasks, ready, pidMap);
      var task := tasks[t].(status := Running);
      FamilyIgnores(tasks, init, t, task);
      SamePids(tasks, tasks[t := task], owner, pids.current, pids.recycled);
      ready := ready[1..];
      tasks := tasks[t := task];
      current := Some(t);
    }

    /** exit_current_and_run_next: the first task shuts the machine down; any other task becomes a
        zombie and its children move under the first task, in order. */
    method Exit(code: int)
      requires Valid() && InUser(tasks, current, halted)
      modifies this`tasks, this`current, this`pidMap, this`halted
      ensures Valid() && View() == Next(old(View()), ExitOp(code), init)
      ensures old(current).value == init ==> halted && tasks == old(tasks) && current == old(current)
      ensures old(current).value != init ==>
                var ts, t := old(tasks), old(current).value;
                && !halted && current.None? && pidMap == old(pidMap) - {ts[t].pid} && tasks.Keys == ts.Keys
                && tasks[t] == ts[t].(status := Zombie, exitCode := code, children := [])
                && tasks[init] == ts[init].(children := ts[init].children + ts[t].children)
                && forall u | u in ts && u != t && u != init ::
                     tasks[u] == if u in ts[t].children then ts[u].(parent := Some(init)) else ts[u]
    {
      hide Scheduled, Family, PidsOk;
      var t := current.value;
      OnlyInitIsFirst(tasks, owner, pids.current, pids.recycled, init, t);
      if tasks[t].pid == IDLE_PID {
        halted := true;
        return;
      }
      RunningCurrent(tasks, ready, current, pidMap);
      ExitScheduled(tasks, ready, t, pidMap, code, init);
      ExitFamily(tasks, init, t, code);
      ExitKeepsPids(tasks, owner, pids.current, pids.recycled, t, code, init);
      pidMap := pidMap - {tasks[t].pid};
      current := None;
      tasks := tasks[t := tasks[t].(status := Zombie, exitCode := code)];
      AdoptChildren(t, tasks[t].children);
      tasks := tasks[t := tasks[t].(children := [])];
      ExitMeans(old(tasks), t, code, init);
    }

    /** sys_waitpid: -1 without a matching child, -2 while every matching child lives, -14 when the
        exit code cannot be copied out, else the first matching zombie is reaped and its pid and
        stack are given back. */
    method Waitpid(arg: int, copyOk: bool) returns (ret: int, code: int)
      requires Valid() && InUser(tasks, current, halted)
      modifies this`tasks, this`stacks, this`owner, pids
      ensures Valid() && View() == Next(old(View()), WaitOp(arg, copyOk), init)
      ensures Waited(ret, code) == ResultOf(old(View()), WaitOp(arg, copyOk))
      ensures var ts, t := old(tasks), current.value;
        && (ret == -1 <==> !HasMatch(ts, t, arg, false))
        && (ret == -2 <==> HasMatch(ts, t, arg, false) && !HasMatch(ts, t, arg, true))
        && (ret == -14 <==> HasMatch(ts, t, arg, true) && !copyOk)
        && (ret < 0 ==> View() == old(View()))
        && (ret >= 0 ==> exists i :: Reaps(ts, tasks, t, arg, ret, code, i))
      ensures var ts, cs := old(tasks), old(tasks)[current.value].children;
        && (ret >= 0 && arg >= 0 ==> ret == arg)
        && (arg >= 0 ==> (ret == -1 <==> forall c | c in cs && c in ts :: ts[c].pid != arg))
        && (arg == -1 ==> (ret == -1 <==> cs == []))
        && (arg == -1 ==> (ret == -2 <==> cs != [] && forall c | c in cs && c in ts :: !ts[c].status.Zombie?))
        && (ret >= 0 ==>
              exists c ::
                c in cs && c in ts && c !in tasks && ts[c].status.Zombie? && ts[c].pid == ret && ts[c].exitCode == code)
    {
      hide Inv, HasMatch, Matches, Next, ResultOf, Reaps;
      var t := current.value;
      code := 0;
      assert forall c | c in tasks[t].children :: c in tasks by { KnownChildren(View(), init, t); }
      WaitMeans(tasks, t, arg);
      WaitRefused(View(), arg, copyOk, init);
      var any := FindChild(t, arg, false);
      if any.None? {
        MatchingZombie(tasks, t, arg);
        return -1, code;
      }
      var zombie := FindChild(t, arg, true);
      if zombie.None? { return -2, code; }
      if !copyOk { return -14, code; }
      ret, code := Reap(arg, zombie.value);
    }

    /** Take the child out of the list; its pid and its stack are given back. */
    method Reap(arg: int, i: nat) returns (ret: int, code: int)
      requires Valid() && InUser(tasks, current, halted) && FirstMatch(tasks, current.value, arg, true, i)
      modifies this`tasks, this`stacks, this`owner, pids
      ensures Valid() && View() == Next(old(View()), WaitOp(arg, true), init)
      ensures Waited(ret, code) == ResultOf(old(View()), WaitOp(arg, true))
      ensures ret >= 0 && (arg >= 0 ==> ret == arg) && Reaps(old(tasks), tasks, current.value, arg, ret, code, i)
      ensures var ts, c := old(tasks), old(tasks)[current.value].children[i];
        && c in old(tasks)[current.value].children && c in ts && c !in tasks
        && ts[c].status.Zombie? && ts[c].pid == ret && ts[c].exitCode == code
    {
      hide Inv, Matches, Next, ResultOf, Reaps, FirstMatch, Reaped;
      var t := current.value;
      ReapKeeps(View(), arg, i, init);
      var child := tasks[t].children[i];
      var pid := tasks[child].pid;
      code := tasks[child].exitCode;
      assert StrongCount(tasks, ready, current, pidMap, init, nextTask, child) == 1;
      ghost var before := tasks;
      tasks := Reaped(tasks, t, i);
      owner := owner - {pid};
      stacks := stacks - {pid};
      pids.Dealloc(pid);
      ret := pid;
      ReapMeans(before, tasks, t, arg, ret, code, i);
    }

    /** Any run returns what the operations say and ends where they say, with everything in its
        place. */
    method Execute(ops: seq<Op>) returns (results: seq<Result>)
      requires Valid()
      modifies this, pids
      ensures Valid() && View() == Run(old(View()), ops, init)
      ensures |results| == |ops| && forall n | 0 <= n < |ops| :: results[n] == ResultAt(old(View()), ops, init, n)
    {
      hide Inv, Next, ResultOf;
      ghost var start := View();
      assert ops[..0] == [];
      results := [];
      for i := 0 to |ops|
        invariant Valid() && View() == Run(start, ops[..i], init)
        invariant |results| == i && forall n | 0 <= n < i :: results[n] == ResultAt(start, ops, init, n)
      {
        assert ops[..i + 1][..i] == ops[..i];
        var r := NoResult;
        if Allowed(tasks, current, halted, ops[i]) {
          r := Do(ops[i]);
        }
        results := results + [r];
      }
      assert ops[..|ops|] == ops;
    }

    method Do(op: Op) returns (r: Result)
      requires Valid() && Allowed(tasks, current, halted, op)
      modifies this, pids
      ensures Valid() && View() == Next(old(View()), op, init) && r == ResultOf(old(View()), op)
    {
      hide Inv, Next, HasMatch, NewPid;
      r := NoResult;
      match op
      case ForkOp =>
        var pid := Fork();
        r := Child(pid);
      case SuspendOp(inCall) => Suspend(inCall);
      case FinishOp => FinishCall();
      case DispatchOp => Dispatch();
      case ExitOp(code) => Exit(code);
      case WaitOp(arg, copyOk) =>
        var ret, code := Waitpid(arg, copyOk);
        r := Waited(ret, code);
    }

    /** The first child that matches, among all children or among the zombies. */
    method FindChild(t: nat, arg: int, zombie: bool) returns (r: Option<nat>)
      requires t in tasks && forall c | c in tasks[t].children :: c in tasks
      ensures r.Some? ==> FirstMatch(tasks, t, arg, zombie, r.value)
      ensures r.Some? <==> HasMatch(tasks, t, arg, zombie)
    {
      var cs := tasks[t].children;
      for i := 0 to |cs|
        invariant forall j | 0 <= j < i :: !ChildMatch(tasks, t, arg, zombie, j)
      {
        assert cs[i] in cs;
        if Matches(arg, tasks[cs[i]].pid) && (zombie ==> tasks[cs[i]].status.Zombie?) {
          assert ChildMatch(tasks, t, arg, zombie, i);
          return Some(i);
        }
      }
      r := None;
    }

    /** The reparenting loop. */
    method AdoptChildren(t: nat, cs: seq<nat>)
      requires t in tasks && init in tasks && init !in cs && forall c | c in cs :: c in tasks
      modifies this`tasks
      ensures tasks == Adopted(old(tasks), cs, init)
    {
      AdoptNone(tasks, init);
      for i := 0 to |cs|
        invariant tasks == Adopted(old(tasks), cs[..i], init)
      {
        var c := cs[i];
        assert cs[..i + 1] == cs[..i] + [c];
        AdoptOne(old(tasks), cs[..i], c, init);
        tasks := tasks[c := tasks[c].(parent := Some(init))];
        tasks := tasks[init := tasks[init].(children := tasks[init].children + [c])];
      }
      assert cs[..|cs|] == cs;
    }
  }

  /** What Valid means for one task. A task that has not exited is found under its pid and is
      either running or in the ready queue, once; every task but the first is in the list of its
      parent, once, and in no other; exited tasks have one owner. */
  lemma TaskPlaces(k: Kernel, t: nat)
    requires k.Valid() && t in k.tasks
    ensures !k.tasks[t].status.Zombie? ==>
              && k.tasks[t].pid in k.pidMap && k.pidMap[k.tasks[t].pid] == t
              && Occurrences(k.ready, t) + (if k.current == Some(t) then 1 else 0) == 1
    ensures k.tasks[t].status.Zombie? ==> StrongCount(k.tasks, k.ready, k.current, k.pidMap, k.init, k.nextTask, t) == 1
    ensures t != k.init ==> ListRefs(k.tasks, t, k.nextTask) == 1 && k.tasks[t].parent.Some?
                            && forall p | p in k.tasks :: t in k.tasks[p].children <==> k.tasks[t].parent == Some(p)
  {
    assert Placed(k.tasks[t], t, k.ready, k.current, k.pidMap);
    assert Related(k.tasks, k.init, t);
    OccursOnce(k.ready, t);
    if k.tasks[t].status.Zombie? {
      ZombieHasOneOwner(k.tasks, k.ready, k.current, k.pidMap, k.init, k.nextTask, t);
    }
    if t != k.init {
      OneListRef(k.tasks, k.init, t, k.nextTask);
      forall p | p in k.tasks ensures t in k.tasks[p].children <==> k.tasks[t].parent == Some(p) {
        assert Related(k.tasks, k.init, p);
      }
    }
  }

  /** Following parent links from any task ends at the first one. */
  ghost function Ancestor(ts: Tasks, init: nat, t: nat): (r: nat)
    requires Family(ts, init) && t in ts
    ensures r == init
    decreases t
  {
    assert Related(ts, init, t);
    if ts[t].parent.None? then t else Ancestor(ts, init, ts[t].parent.value)
  }

  lemma AdoptNone(ts: Tasks, init: nat)
    ensures Adopted(ts, [], init) == ts
  {
    if init in ts { assert ts[init].children + [] == ts[init].children; }
  }

  lemma AdoptOne(ts: Tasks, cs: seq<nat>, c: nat, init: nat)
    requires init in ts && c in ts && c != init
    ensures var a := Adopted(ts, cs, init);
      a[c := a[c].(parent := Some(init))][init := a[init].(children := a[init].children + [c])] ==
        Adopted(ts, cs + [c], init)
  {
    assert ts[init].children + cs + [c] == ts[init].children + (cs + [c]);
  }

  lemma OwnerNames(ts: Tasks, owner: map<nat, nat>, next: nat, recycled: seq<nat>, pid: nat)
    requires PidsOk(ts, owner, next, recycled) && pid !in owner
    ensures forall t | t in ts :: ts[t].pid != pid
  {
  }

  lemma OwnerPositive(ts: Tasks, owner: map<nat, nat>, next: nat, recycled: seq<nat>, t: nat)
    requires PidsOk(ts, owner, next, recycled) && t in ts
    ensures ts[t].pid >= 1
  {
  }

  lemma ChildrenKnown(ts: Tasks, init: nat, t: nat)
    requires Family(ts, init) && t in ts
    ensures forall c | c in ts[t].children :: c in ts && c != t
  {
    assert Related(ts, init, t);
    forall c | c in ts[t].children ensures c in ts && c != t { assert Related(ts, init, c); }
  }

  lemma KnownChildren(s: State, init: nat, t: nat)
    requires Inv(s, init) && t in s.tasks
    ensures forall c | c in s.tasks[t].children :: c in s.tasks
  {
    hide Scheduled, Family, PidsOk;
    ChildrenKnown(s.tasks, init, t);
  }

  /** A wait that reaps nobody changes nothing. */
  lemma WaitRefused(s: State, arg: int, copyOk: bool, init: nat)
    requires s.current.Some? && Allowed(s.tasks, s.current, s.halted, WaitOp(arg, copyOk))
    ensures var t, op := s.current.value, WaitOp(arg, copyOk);
      && (!HasMatch(s.tasks, t, arg, true) || !copyOk ==> Next(s, op, init) == s)
      && (!HasMatch(s.tasks, t, arg, false) ==> ResultOf(s, op) == Waited(-1, 0))
      && (HasMatch(s.tasks, t, arg, false) && !HasMatch(s.tasks, t, arg, true) ==> ResultOf(s, op) == Waited(-2, 0))
      && (HasMatch(s.tasks, t, arg, true) && HasMatch(s.tasks, t, arg, false) && !copyOk ==>
            ResultOf(s, op) == Waited(-14, 0))
  {
    hide HasMatch;
  }

  /** A wait that reaps child `i`. */
  lemma ReapKeeps(s: State, arg: int, i: nat, init: nat)
    requires Inv(s, init) && InUser(s.tasks, s.current, s.halted) && FirstMatch(s.tasks, s.current.value, arg, true, i)
    ensures var ts, t := s.tasks, s.current.value;
      && i < |ts[t].children| && ts[t].children[i] in ts && ts[t].children[i] != t
      && var child := ts[t].children[i];
      var pid, code := ts[child].pid, ts[child].exitCode;
      && StrongCount(ts, s.ready, s.current, s.pidMap, init, s.nextTask, child) == 1
      && pid < s.nextPid && pid !in s.recycled && Reaps(ts, Reaped(ts, t, i), t, arg, pid, code, i)
      && ResultOf(s, WaitOp(arg, true)) == Waited(pid, code)
      && Next(s, WaitOp(arg, true), init) ==
           s.(tasks := Reaped(ts, t, i), stacks := s.stacks - {pid}, owner := s.owner - {pid},
              recycled := s.recycled + [pid])
      && Inv(Next(s, WaitOp(arg, true), init), init)
  {
    hide Scheduled, Family, PidsOk, Matches, StrongCount, Reaped;
    var ts, t := s.tasks, s.current.value;
    assert ChildMatch(ts, t, arg, true, i);
    ChildrenKnown(ts, init, t);
    var child := ts[t].children[i];
    ZombieHasOneOwner(ts, s.ready, s.current, s.pidMap, init, s.nextTask, child);
    RunningCurrent(ts, s.ready, s.current, s.pidMap);
    ReapScheduled(ts, s.ready, t, s.pidMap, i);
    ReapFamily(ts, init, t, i);
    ReapPids(ts, s.owner, t, i, s.nextPid, s.recycled);
    OwnerPositive(ts, s.owner, s.nextPid, s.recycled, child);
    FirstUnique(ts, t, arg, true, i);
    MatchAny(ts, t, arg, i);
    ReapedKeys(ts, t, i);
  }

  lemma MatchAny(ts: Tasks, t: nat, arg: int, i: int)
    requires ChildMatch(ts, t, arg, true, i)
    ensures HasMatch(ts, t, arg, true) && HasMatch(ts, t, arg, false)
  {
    assert ChildMatch(ts, t, arg, false, i);
  }

  lemma ReapedKeys(ts: Tasks, t: nat, i: nat)
    requires t in ts && i < |ts[t].children|
    ensures Reaped(ts, t, i).Keys <= ts.Keys
  {
  }

  lemma FirstUnique(ts: Tasks, t: nat, arg: int, zombie: bool, i: int)
    requires FirstMatch(ts, t, arg, zombie, i)
    ensures forall j | FirstMatch(ts, t, arg, zombie, j) :: j == i
  {
  }

  lemma MatchingZombie(ts: Tasks, t: nat, arg: int)
    requires !HasMatch(ts, t, arg, false)
    ensures !HasMatch(ts, t, arg, true)
  {
    forall i ensures !ChildMatch(ts, t, arg, true, i) {
      assert !ChildMatch(ts, t, arg, false, i);
    }
  }

  lemma RunningCurrent(ts: Tasks, ready: seq<nat>, current: Option<nat>, pidMap: map<nat, nat>)
    requires Scheduled(ts, ready, current, pidMap) && current.Some?
    ensures current.value in ts && ts[current.value].status.Running?
    ensures ts[current.value].pid in pidMap && pidMap[ts[current.value].pid] == current.value
  {
    assert Placed(ts[current.value], current.value, ready, current, pidMap);
  }

  lemma ReadyFirst(ts: Tasks, ready: seq<nat>, current: Option<nat>, pidMap: map<nat, nat>)
    requires Scheduled(ts, ready, current, pidMap) && ready != []
    ensures ready[0] in ts && ts[ready[0]].status.Ready?
  {
    assert ready[0] in ready && ready[0] in ts;
    assert Placed(ts[ready[0]], ready[0], ready, current, pidMap);
  }

  lemma FinishScheduled(ts: Tasks, ready: seq<nat>, t: nat, pidMap: map<nat, nat>)
    requires Scheduled(ts, ready, Some(t), pidMap)
    ensures Scheduled(ts[t := ts[t].(inCall := false)], ready, Some(t), pidMap)
  {
    var ts' := ts[t := ts[t].(inCall := false)];
    forall u | u in ts' ensures Placed(ts'[u], u, ready, Some(t), pidMap) {
      assert Placed(ts[u], u, ready, Some(t), pidMap);
    }
  }

  lemma OnlyInitIsFirst(ts: Tasks, owner: map<nat, nat>, next: nat, recycled: seq<nat>, init: nat, t: nat)
    requires PidsOk(ts, owner, next, recycled) && Family(ts, init) && t in ts
    ensures init in ts && (ts[t].pid == IDLE_PID <==> t == init)
    ensures t != init ==> forall c | c in ts[t].children :: c in ts && c != init && c != t
  {
    assert Related(ts, init, t);
    forall c | c in ts[t].children ensures c in ts && c != t { assert Related(ts, init, c); }
  }

  lemma ExitKeepsPids(ts: Tasks, owner: map<nat, nat>, next: nat, recycled: seq<nat>, t: nat, code: int, init: nat)
    requires PidsOk(ts, owner, next, recycled) && Family(ts, init) && t in ts && t != init
    ensures Exited(ts, t, code, init).Keys == ts.Keys && PidsOk(Exited(ts, t, code, init), owner, next, recycled)
  {
    hide PidsOk, Family, Exited;
    ExitedAt(ts, t, code, init, t);
    forall u | u in ts ensures Exited(ts, t, code, init)[u].pid == ts[u].pid { ExitedAt(ts, t, code, init, u); }
    SamePids(ts, Exited(ts, t, code, init), owner, next, recycled);
  }
}
