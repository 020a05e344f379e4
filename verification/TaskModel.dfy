/**
 The process life cycle (os/src/task, os/src/syscall/process.rs) as a transition system. A task
 control block is identified by an `Id` that is never used again, unlike its pid. `strong` is the
 strong count of the `Arc` that owns the block.
 */
module TaskModel {
  import opened Options
  import opened Seqs

  type Id = nat

  datatype Status = Ready | Running | Zombie

  datatype Task = Task(pid: nat, status: Status, parent: Option<Id>, children: seq<Id>, exitCode: int, strong: nat)

  /** `PidAllocator`: the pids below `current` have been handed out; `recycled` have come back. */
  datatype Pids = Pids(current: nat, recycled: seq<nat>)

  /**
   `held` are the tasks waiting for console input inside `sys_read`: their kernel stack keeps a handle
   to their own block while they are suspended. `next` and `reaped` record the run so far.
   */
  datatype State = State(tasks: map<Id, Task>, ready: seq<Id>, current: Option<Id>, held: set<Id>,
                         pids: Pids, next: Id, reaped: seq<Id>, halted: bool)

  /** `INITPROC`, the first task. */
  const INIT: Id := 0

  datatype Event = Dispatch | Suspend | BeginRead | EndRead | Fork | Exit(code: int) | Wait(pid: int)

  // The steps.

  /** One round of the loop in `run_tasks`. */
  function DispatchStep(s: State): State
  {
    if s.ready == [] || s.ready[0] !in s.tasks then s
    else
      var t := s.ready[0];
      s.(ready := s.ready[1..], current := Some(t), tasks := s.tasks[t := s.tasks[t].(status := Running)])
  }

  /** `suspend_current_and_run_next`. */
  function SuspendStep(s: State): State
    requires s.current.Some? && s.current.value in s.tasks
  {
    var t := s.current.value;
    s.(ready := s.ready + [t], current := None, tasks := s.tasks[t := s.tasks[t].(status := Ready)])
  }

  function BeginReadStep(s: State): State
    requires s.current.Some? && s.current.value in s.tasks
  {
    var t := s.current.value;
    s.(held := s.held + {t}, tasks := s.tasks[t := s.tasks[t].(strong := s.tasks[t].strong + 1)])
  }

  function EndReadStep(s: State): State
    requires s.current.Some? && s.current.value in s.tasks && s.tasks[s.current.value].strong > 0
  {
    var t := s.current.value;
    s.(held := s.held - {t}, tasks := s.tasks[t := s.tasks[t].(strong := s.tasks[t].strong - 1)])
  }

  function PidAlloc(p: Pids): (r: (nat, Pids))
  {
    if p.recycled != [] then (p.recycled[|p.recycled| - 1], p.(recycled := p.recycled[..|p.recycled| - 1]))
    else (p.current, p.(current := p.current + 1))
  }

  /** `sys_fork`: the child is a ready task, owned by the ready queue and by its parent's children. */
  function ForkStep(s: State): State
    requires s.current.Some? && s.current.value in s.tasks
  {
    var (pid, pids) := PidAlloc(s.pids);
    var p, c := s.current.value, s.next;
    var child := Task(pid, Ready, Some(p), [], 0, 2);
    s.(tasks := s.tasks[p := s.tasks[p].(children := s.tasks[p].children + [c])][c := child],
       ready := s.ready + [c], pids := pids, next := s.next + 1)
  }

  /** The children `kids` move to the initial process. */
  function Reparented(tasks: map<Id, Task>, kids: seq<Id>, bonus: seq<Id>): map<Id, Task>
  {
    map id | id in tasks :: ReparentedOne(tasks[id], id, kids, bonus)
  }

  function ReparentedOne(t: Task, id: Id, kids: seq<Id>, bonus: seq<Id>): Task
  {
    t.(children := if id == INIT then t.children + kids else t.children,
       parent := if id in kids then Some(INIT) else t.parent,
       strong := if id in bonus then t.strong + 1 else t.strong)
  }

  /** `exit_current_and_run_next`; the machine halts when the initial process exits. */
  function ExitStep(s: State, code: int): State
    requires s.current.Some? && s.current.value in s.tasks && s.tasks[s.current.value].strong > 0
  {
    var t := s.current.value;
    if s.tasks[t].pid == 0 then s.(halted := true)
    else
      var kids := s.tasks[t].children;
      var moved := Reparented(s.tasks, kids, []);
      s.(tasks := moved[t := moved[t].(status := Zombie, exitCode := code, children := [], strong := s.tasks[t].strong - 1)],
         current := None)
  }

  /** The comparison of a signed `pid` argument with a pid: `-1` matches all, others are cast to 64 bits. */
  predicate Matches(pid: int, p: nat)
  {
    pid == -1 || p == if pid < 0 then pid + 0x1_0000_0000_0000_0000 else pid
  }

  /** Position of the first zombie child that matches, or the number of children. */
  function FindZombie(tasks: map<Id, Task>, kids: seq<Id>, pid: int): (i: nat)
    ensures i <= |kids|
    ensures i < |kids| ==> kids[i] in tasks && tasks[kids[i]].status == Zombie && Matches(pid, tasks[kids[i]].pid)
    ensures forall j | 0 <= j < i && kids[j] in tasks :: !(tasks[kids[j]].status == Zombie && Matches(pid, tasks[kids[j]].pid))
  {
    if kids == [] then 0
    else if kids[0] in tasks && tasks[kids[0]].status == Zombie && Matches(pid, tasks[kids[0]].pid) then 0
    else 1 + FindZombie(tasks, kids[1..], pid)
  }

  /** Some child matches. */
  predicate HasChild(tasks: map<Id, Task>, kids: seq<Id>, pid: int)
  {
    exists i | 0 <= i < |kids| :: kids[i] in tasks && Matches(pid, tasks[kids[i]].pid)
  }

  /** `sys_waitpid`: the first matching zombie child leaves the children list and is deallocated. */
  function WaitStep(s: State, pid: int): State
    requires s.current.Some? && s.current.value in s.tasks
  {
    var p := s.current.value;
    var kids := s.tasks[p].children;
    var i := FindZombie(s.tasks, kids, pid);
    if i == |kids| then s
    else
      var c := kids[i];
      s.(tasks := s.tasks[p := s.tasks[p].(children := kids[..i] + kids[i + 1..])] - {c},
         pids := s.pids.(recycled := s.pids.recycled + [s.tasks[c].pid]), reaped := s.reaped + [c])
  }

  /** The result of `sys_waitpid`. */
  function WaitResult(s: State, pid: int): int
    requires s.current.Some? && s.current.value in s.tasks
  {
    var kids := s.tasks[s.current.value].children;
    var i := FindZombie(s.tasks, kids, pid);
    if !HasChild(s.tasks, kids, pid) then -1 else if i == |kids| then -2 else s.tasks[kids[i]].pid
  }

  // The invariant.

  /** Every task is exactly one of current, in the ready queue once, or a zombie. */
  ghost predicate Scheduled(s: State)
  {
    && NoDup(s.ready)
    && (forall t | t in s.ready :: t in s.tasks && s.tasks[t].status == Ready)
    && (s.current.Some? ==> s.current.value in s.tasks && s.tasks[s.current.value].status == Running)
    && (forall t | t in s.tasks && s.tasks[t].status == Ready :: t in s.ready)
    && (forall t | t in s.tasks && s.tasks[t].status == Running :: s.current == Some(t))
  }

  ghost predicate ChildOf(s: State, p: Id, c: Id)
  {
    && p in s.tasks && c in s.tasks && p < c
    && s.tasks[p].status != Zombie && c in s.tasks[p].children && s.tasks[c].parent == Some(p)
  }

  /** Each task but the first is once in the children of exactly one task, its living parent. */
  ghost predicate Family(s: State)
  {
    && INIT in s.tasks && s.tasks[INIT].parent == None && s.tasks[INIT].status != Zombie
    && (forall c | c in s.tasks && c != INIT :: s.tasks[c].parent.Some? && ChildOf(s, s.tasks[c].parent.value, c))
    && (forall p, c | p in s.tasks && c in s.tasks[p].children :: ChildOf(s, p, c))
    && (forall p | p in s.tasks :: NoDup(s.tasks[p].children))
  }

  /** How many handles to a task there ought to be. */
  ghost function Owners(s: State, t: Id): nat
    requires t in s.tasks
  {
    (if s.tasks[t].status == Zombie then 0 else 1) + 1 + (if t in s.held then 1 else 0)
  }

  ghost predicate Counted(s: State)
  {
    && (forall t | t in s.held :: t in s.tasks && s.tasks[t].status != Zombie)
    && (forall t | t in s.tasks :: s.tasks[t].strong == Owners(s, t))
  }

  ghost predicate HasPid(tasks: map<Id, Task>, pid: nat)
  {
    exists t :: t in tasks && tasks[t].pid == pid
  }

  /** A pid that was handed out is recycled or belongs to exactly one task. */
  ghost predicate PidsOk(s: State)
  {
    && NoDup(s.pids.recycled)
    && (forall p | p in s.pids.recycled :: p < s.pids.current)
    && (forall t | t in s.tasks :: s.tasks[t].pid < s.pids.current && s.tasks[t].pid !in s.pids.recycled)
    && (forall t, u | t in s.tasks && u in s.tasks && t != u :: s.tasks[t].pid != s.tasks[u].pid)
    && (forall p: nat | p < s.pids.current && p !in s.pids.recycled :: HasPid(s.tasks, p))
    && INIT in s.tasks && s.tasks[INIT].pid == 0
  }

  /** Every task created is still there or was reaped, once. */
  ghost predicate History(s: State)
  {
    && NoDup(s.reaped)
    && (forall t | t in s.tasks :: t < s.next && t !in s.reaped)
    && (forall t | t in s.reaped :: t < s.next)
    && (forall t: nat | t < s.next :: t in s.tasks || t in s.reaped)
  }

  ghost predicate Inv(s: State)
  {
    Scheduled(s) && Family(s) && Counted(s) && PidsOk(s) && History(s)
  }

  /** Only the first task has pid 0. */
  lemma InitPid(s: State, t: Id)
    requires PidsOk(s) && t in s.tasks
    ensures s.tasks[t].pid == 0 <==> t == INIT
  {
  }
}
