/**
 The kernel's process management: `PidAllocator` (os/src/task/pid.rs), the ready queue and current
 slot (manager.rs, processor.rs), and the system calls and scheduling steps on task control blocks.
 Cloning and dropping an `Arc` are separate actions on the strong count.
 */
module TaskKernel {
  import opened Options
  import opened Seqs
  import opened TaskModel
  import opened TaskSteps
  import opened TaskRuns

  class PidAllocator {
    var current: nat
    var recycled: seq<nat>

    constructor ()
      ensures current == 0 && recycled == []
    {
      current, recycled := 0, [];
    }

    function Value(): Pids
      reads this
    {
      Pids(current, recycled)
    }

    /** `alloc`. */
    method Alloc() returns (pid: nat)
      modifies this
      ensures (pid, Value()) == PidAlloc(old(Value()))
    {
      if |recycled| > 0 {
        pid := recycled[|recycled| - 1];
        recycled := recycled[..|recycled| - 1];
      } else {
        current := current + 1;
        pid := current - 1;
      }
    }

    /** `dealloc`; `ok == false` is one of its two assertions failing. */
    method Dealloc(pid: nat) returns (ok: bool)
      modifies this
      ensures ok <==> pid < old(current) && pid !in old(recycled)
      ensures Value() == if ok then old(Value()).(recycled := old(recycled) + [pid]) else old(Value())
    {
      if pid >= current {
        return false;
      }
      for i := 0 to |recycled|
        invariant Value() == old(Value()) && pid !in recycled[..i]
      {
        if recycled[i] == pid {
          return false;
        }
      }
      recycled := recycled + [pid];
      ok := true;
    }
  }

  class Kernel {
    const pidAllocator: PidAllocator
    var tasks: map<Id, Task>
    var ready: seq<Id>
    var current: Option<Id>
    var held: set<Id>
    var next: Id
    var halted: bool
    ghost var reaped: seq<Id>

    ghost function Snapshot(): State
      reads this, pidAllocator
    {
      State(tasks, ready, current, held, pidAllocator.Value(), next, reaped, halted)
    }

    ghost predicate Valid()
      reads this, pidAllocator
    {
      Inv(Snapshot())
    }

    /** Boot: create the initial process and make it ready. */
    constructor ()
      ensures Valid() && Snapshot() == Boot && fresh(pidAllocator)
    {
      hide Inv;
      pidAllocator := new PidAllocator();
      new;
      var pid := pidAllocator.Alloc();
      tasks := map[INIT := Task(pid, Ready, None, [], 0, 1)];
      next, held, reaped, current, halted := 1, {}, [], None, false;
      ready := [];
      CloneRef(INIT);
      AddTask(INIT);
      BootInv();
      assert tasks == Boot.tasks && ready == Boot.ready;
    }

    /** `Arc::clone`. */
    method CloneRef(t: Id)
      requires t in tasks
      modifies this`tasks
      ensures tasks == old(tasks)[t := old(tasks)[t].(strong := old(tasks)[t].strong + 1)]
    {
      tasks := tasks[t := tasks[t].(strong := tasks[t].strong + 1)];
    }

    /** Dropping an `Arc`. The last one deallocates the block and with it the pid. */
    method DropRef(t: Id)
      requires t in tasks && tasks[t].strong > 0
      requires tasks[t].strong == 1 ==> tasks[t].children == []
      requires tasks[t].strong == 1 ==> tasks[t].pid < pidAllocator.current && tasks[t].pid !in pidAllocator.recycled
      modifies this`tasks, this`reaped, pidAllocator
      ensures old(tasks)[t].strong > 1 ==>
                tasks == old(tasks)[t := old(tasks)[t].(strong := old(tasks)[t].strong - 1)]
                && reaped == old(reaped) && pidAllocator.Value() == old(pidAllocator.Value())
      ensures old(tasks)[t].strong == 1 ==>
                tasks == old(tasks) - {t} && reaped == old(reaped) + [t]
                && pidAllocator.Value() == old(pidAllocator.Value()).(recycled := old(pidAllocator.recycled) + [old(tasks)[t].pid])
    {
      if tasks[t].strong > 1 {
        tasks := tasks[t := tasks[t].(strong := tasks[t].strong - 1)];
      } else {
        var ok := pidAllocator.Dealloc(tasks[t].pid);
        assert ok;
        tasks := tasks - {t};
        reaped := reaped + [t];
      }
    }

    /** `TaskManager::add`; the handle moves into the queue. */
    method AddTask(t: Id)
      modifies this`ready
      ensures ready == old(ready) + [t]
    {
      ready := ready + [t];
    }

    /** `TaskManager::fetch`. */
    method FetchTask() returns (t: Option<Id>)
      modifies this`ready
      ensures if old(ready) == [] then t == None && ready == [] else t == Some(old(ready)[0]) && ready == old(ready)[1..]
    {
      if ready == [] {
        return None;
      }
      t := Some(ready[0]);
      ready := ready[1..];
    }

    /** One round of `run_tasks`. */
    method Dispatch()
      requires Valid() && current.None?
      modifies this
      ensures Valid() && Snapshot() == DispatchStep(old(Snapshot()))
    {
      hide Inv, Scheduled;
      DispatchInv(Snapshot());
      assert Scheduled(Snapshot()) by { InvParts(Snapshot()); }
      FrontIsReady(Snapshot());
      var task := FetchTask();
      if task.Some? {
        var t := task.value;
        tasks := tasks[t := tasks[t].(status := Running)];
        current := Some(t);
      }
    }

    /** `suspend_current_and_run_next`, up to the switch to the scheduling loop. */
    method Suspend()
      requires Valid() && current.Some?
      modifies this
      ensures Valid() && old(current.value) in old(tasks) && Snapshot() == SuspendStep(old(Snapshot()))
    {
      hide Inv;
      SuspendInv(Snapshot());
      var t := current.value;
      current := None;
      tasks := tasks[t := tasks[t].(status := Ready)];
      AddTask(t);
    }

    /** `sys_read` from the console takes a handle to the running task and keeps it while it waits. */
    method BeginRead()
      requires Valid() && current.Some? && current.value !in held
      modifies this
      ensures Valid() && old(current.value) in old(tasks) && Snapshot() == BeginReadStep(old(Snapshot()))
    {
      hide Inv;
      BeginReadInv(Snapshot());
      CloneRef(current.value);
      held := held + {current.value};
    }

    method EndRead()
      requires Valid() && current.Some? && current.value in held
      modifies this, pidAllocator
      ensures Valid() && old(current.value) in old(tasks) && old(tasks[current.value].strong) > 0
      ensures Snapshot() == EndReadStep(old(Snapshot()))
    {
      hide Inv;
      EndReadInv(Snapshot());
      RunningStrong(Snapshot());
      held := held - {current.value};
      DropRef(current.value);
    }

    /** `sys_fork`: the new task's pid. */
    method Fork() returns (newPid: nat)
      requires Valid() && current.Some?
      modifies this, pidAllocator
      ensures Valid() && old(current.value) in old(tasks) && Snapshot() == ForkStep(old(Snapshot()))
      ensures old(next) in tasks && newPid == tasks[old(next)].pid
    {
      hide Inv, PidAlloc;
      ghost var s := Snapshot();
      ForkInv(s);
      RunningStrong(s);
      var p := current.value;
      CloneRef(p);
      newPid := pidAllocator.Alloc();
      var c := next;
      next := next + 1;
      tasks := tasks[c := Task(newPid, Ready, Some(p), [], 0, 1)];
      CloneRef(c);
      tasks := tasks[p := tasks[p].(children := tasks[p].children + [c])];
      AddTask(c);
      DropRef(p);
      assert tasks == ForkStep(s).tasks;
    }

    /** The loop that hands the children to the initial process. */
    method Reparent(kids: seq<Id>)
      requires INIT in tasks && INIT !in kids && NoDup(kids) && forall k | k in kids :: k in tasks
      modifies this`tasks
      ensures tasks == Reparented(old(tasks), kids, kids)
    {
      ReparentNone(tasks);
      for i := 0 to |kids|
        invariant tasks == Reparented(old(tasks), kids[..i], kids[..i])
      {
        var child := kids[i];
        ReparentNext(old(tasks), kids, i);
        tasks := tasks[child := tasks[child].(parent := Some(INIT))];
        CloneRef(child);
        tasks := tasks[INIT := tasks[INIT].(children := tasks[INIT].children + [child])];
      }
      assert kids[..|kids|] == kids;
    }

    /** `children.clear()` drops one handle of each child. */
    method ClearChildren(t: Id)
      requires t in tasks && NoDup(tasks[t].children) && t !in tasks[t].children
      requires forall k | k in tasks[t].children :: k in tasks && tasks[k].strong > 1
      modifies this`tasks, this`reaped, pidAllocator
      ensures reaped == old(reaped) && pidAllocator.Value() == old(pidAllocator.Value())
      ensures tasks.Keys == old(tasks).Keys && tasks[t] == old(tasks)[t].(children := [])
      ensures forall x | x in tasks && x != t ::
                tasks[x] == if x in old(tasks)[t].children then old(tasks)[x].(strong := old(tasks)[x].strong - 1) else old(tasks)[x]
    {
      var kids := tasks[t].children;
      tasks := tasks[t := tasks[t].(children := [])];
      for i := 0 to |kids|
        invariant reaped == old(reaped) && pidAllocator.Value() == old(pidAllocator.Value())
        invariant tasks.Keys == old(tasks).Keys && tasks[t] == old(tasks)[t].(children := [])
        invariant forall x | x in tasks && x != t ::
                    tasks[x] == if x in kids[..i] then old(tasks)[x].(strong := old(tasks)[x].strong - 1) else old(tasks)[x]
      {
        assert kids[i] in kids && kids[i] !in kids[..i];
        DropRef(kids[i]);
        assert forall x :: x in kids[..i + 1] <==> x in kids[..i] || x == kids[i];
      }
      assert kids[..|kids|] == kids;
    }

    /** `exit_current_and_run_next`, up to the switch to the scheduling loop. */
    method Exit(code: int)
      requires Valid() && current.Some? && current.value !in held
      modifies this, pidAllocator
      ensures Valid() && old(current.value) in old(tasks) && old(tasks[current.value].strong) == 2
      ensures Snapshot() == ExitStep(old(Snapshot()), code)
    {
      hide Inv, Reparented, NoDup;
      ghost var s := Snapshot();
      ExitInv(s, code);
      var t := current.value;
      if tasks[t].pid == 0 {
        halted := true;
        return;
      }
      ExitFacts(s);
      current := None;
      tasks := tasks[t := tasks[t].(status := Zombie, exitCode := code)];
      ghost var marked := tasks;
      Reparent(tasks[t].children);
      ReparentedFacts(marked, t);
      ClearChildren(t);
      DropRef(t);
      ExitTasks(s, code, marked, tasks);
    }

    /** `sys_waitpid`: the result and the exit code that is stored for the caller. */
    method Waitpid(pid: int) returns (r: int, code: Option<int>)
      requires Valid() && current.Some? && current.value !in held
      modifies this, pidAllocator
      ensures Valid() && old(current.value) in old(tasks) && Snapshot() == WaitStep(old(Snapshot()), pid)
      ensures r == WaitResult(old(Snapshot()), pid)
      ensures code.Some? <==> r >= 0
      ensures code.Some? ==> |reaped| > 0 && reaped[..|reaped| - 1] == old(reaped) && reaped[|reaped| - 1] in old(tasks)
                             && code.value == old(tasks)[reaped[|reaped| - 1]].exitCode && r == old(tasks)[reaped[|reaped| - 1]].pid
    {
      hide Inv, NoDup, FindZombie, HasChild;
      ghost var s := Snapshot();
      WaitInv(s, pid);
      WaitFacts(s);
      var p := current.value;
      var kids := tasks[p].children;
      CloneRef(p);
      SameChildren(s.tasks, tasks, kids, pid);
      var any := AnyMatch(kids, pid);
      if !any {
        NoMatchNoZombie(s.tasks, kids, pid);
        DropRef(p);
        assert tasks == s.tasks;
        return -1, None;
      }
      var i := FindMatch(kids, pid);
      if i < |kids| {
        var child := kids[i];
        tasks := tasks[p := tasks[p].(children := kids[..i] + kids[i + 1..])];
        assert tasks[child].strong == 1;
        r := tasks[child].pid;
        code := Some(tasks[child].exitCode);
        DropRef(child);
        DropRef(p);
        assert tasks == WaitStep(s, pid).tasks;
      } else {
        DropRef(p);
        assert tasks == s.tasks;
        return -2, None;
      }
    }

    /** `children.iter().any(..)`. */
    method AnyMatch(kids: seq<Id>, pid: int) returns (any: bool)
      requires forall k | k in kids :: k in tasks
      ensures any == HasChild(tasks, kids, pid)
    {
      any := false;
      for i := 0 to |kids|
        invariant forall j | 0 <= j < i :: !Matches(pid, tasks[kids[j]].pid)
      {
        if Matches(pid, tasks[kids[i]].pid) {
          return true;
        }
      }
    }

    /** `children.iter().enumerate().find(..)`. */
    method FindMatch(kids: seq<Id>, pid: int) returns (i: nat)
      requires forall k | k in kids :: k in tasks
      ensures i == FindZombie(tasks, kids, pid)
    {
      i := 0;
      while i < |kids|
        invariant i <= |kids|
        invariant forall j | 0 <= j < i :: !(tasks[kids[j]].status == Zombie && Matches(pid, tasks[kids[j]].pid))
      {
        if tasks[kids[i]].status == Zombie && Matches(pid, tasks[kids[i]].pid) {
          return;
        }
        i := i + 1;
      }
    }

    /** Any sequence of events that can happen: the kernel stays valid and follows the model. */
    method Run(es: seq<Event>)
      requires Valid() && Possible(Snapshot(), es)
      modifies this, pidAllocator
      ensures Valid() && Snapshot() == Steps(old(Snapshot()), es)
      decreases |es|
    {
      hide Inv, DispatchStep, SuspendStep, BeginReadStep, EndReadStep, ForkStep, ExitStep, WaitStep;
      if es == [] {
        return;
      }
      match es[0] {
        case Dispatch => Dispatch();
        case Suspend => Suspend();
        case BeginRead => BeginRead();
        case EndRead => EndRead();
        case Fork => var pid := Fork();
        case Exit(code) => Exit(code);
        case Wait(pid) => var r, code := Waitpid(pid);
      }
      Run(es[1..]);
    }
  }

  lemma InvParts(s: State)
    requires Inv(s)
    ensures Scheduled(s) && Family(s) && Counted(s) && PidsOk(s) && History(s)
  {
  }

  /** The running task is owned by the current slot and by its parent, or by the static handle. */
  lemma RunningStrong(s: State)
    requires Inv(s) && s.current.Some?
    ensures s.current.value in s.tasks && s.tasks[s.current.value].strong == if s.current.value in s.held then 3 else 2
    ensures s.next !in s.tasks
  {
    hide Family, PidsOk, NoDup;
  }

  lemma ReparentNone(tasks: map<Id, Task>)
    ensures tasks == Reparented(tasks, [], [])
  {
    forall id | id in tasks ensures ReparentedOne(tasks[id], id, [], []) == tasks[id] {
      assert tasks[id].children + [] == tasks[id].children;
    }
  }

  lemma ReparentNext(tasks: map<Id, Task>, kids: seq<Id>, i: nat)
    requires i < |kids| && INIT in tasks && INIT !in kids && NoDup(kids) && kids[i] in tasks
    ensures var before, c := Reparented(tasks, kids[..i], kids[..i]), kids[i];
            && c in before && INIT in before && c != INIT
            && Reparented(tasks, kids[..i + 1], kids[..i + 1])
               == before[c := before[c].(parent := Some(INIT), strong := before[c].strong + 1)]
                        [INIT := before[INIT].(children := before[INIT].children + [c])]
  {
    hide ReparentedOne, NoDup;
    var before, after, c := Reparented(tasks, kids[..i], kids[..i]), Reparented(tasks, kids[..i + 1], kids[..i + 1]), kids[i];
    assert c in kids;
    var stepped := before[c := before[c].(parent := Some(INIT), strong := before[c].strong + 1)]
                         [INIT := before[INIT].(children := before[INIT].children + [c])];
    forall x | x in tasks ensures after[x] == stepped[x] {
      ReparentedNext(tasks[x], x, kids, i);
    }
    assert after.Keys == stepped.Keys;
  }

  lemma ReparentedNext(t: Task, x: Id, kids: seq<Id>, i: nat)
    requires i < |kids| && NoDup(kids) && INIT !in kids
    ensures var before, c := ReparentedOne(t, x, kids[..i], kids[..i]), kids[i];
            ReparentedOne(t, x, kids[..i + 1], kids[..i + 1])
            == if x == c then before.(parent := Some(INIT), strong := before.strong + 1)
               else if x == INIT then before.(children := before.children + [c])
               else before
  {
    var c := kids[i];
    assert c in kids && c !in kids[..i];
    assert kids[..i + 1] == kids[..i] + [c];
    assert x in kids[..i + 1] <==> x in kids[..i] || x == c;
    assert t.children + kids[..i + 1] == t.children + kids[..i] + [c];
  }

  lemma ExitFacts(s: State)
    requires Inv(s) && s.current.Some? && s.current.value in s.tasks && s.tasks[s.current.value].pid != 0
    ensures var t := s.current.value; var kids := s.tasks[t].children;
            && INIT in s.tasks && t != INIT && INIT !in kids && t !in kids && NoDup(kids)
            && forall k | k in kids :: k in s.tasks && s.tasks[k].strong >= 1
  {
    hide NoDup, PidsOk, ChildOf, Scheduled, History, Family;
    var t := s.current.value;
    InitPid(s, t);
    InitLives(s);
    KidsOf(s, t);
    NotOwnChild(s, t, t);
  }

  lemma KidsOf(s: State, t: Id)
    requires Family(s) && t in s.tasks
    ensures NoDup(s.tasks[t].children)
    ensures forall k | k in s.tasks[t].children :: k in s.tasks && k != INIT
  {
    hide NoDup;
    assert forall k | k in s.tasks[t].children :: ChildOf(s, t, k);
  }

  lemma ReparentedFacts(tasks: map<Id, Task>, t: Id)
    requires t in tasks && t != INIT && t !in tasks[t].children
    requires forall k | k in tasks[t].children :: k in tasks && tasks[k].strong >= 1
    ensures var r := Reparented(tasks, tasks[t].children, tasks[t].children);
            && r.Keys == tasks.Keys && r[t] == tasks[t]
            && forall k | k in tasks[t].children :: k in r && r[k].strong > 1
  {
  }

  lemma ExitTasks(s: State, code: int, marked: map<Id, Task>, tasks: map<Id, Task>)
    requires s.current.Some? && s.current.value in s.tasks && s.tasks[s.current.value].strong == 2 && s.tasks[s.current.value].pid != 0
    requires var t := s.current.value; var kids := s.tasks[t].children;
             && t != INIT && t !in kids
             && marked == s.tasks[t := s.tasks[t].(status := Zombie, exitCode := code)]
             && var r := Reparented(marked, kids, kids);
             && tasks.Keys == r.Keys
             && tasks[t] == r[t].(children := [], strong := 1)
             && forall x | x in tasks && x != t :: tasks[x] == if x in kids then r[x].(strong := r[x].strong - 1) else r[x]
    ensures tasks == ExitStep(s, code).tasks
  {
    var t := s.current.value;
    var kids := s.tasks[t].children;
    forall x | x in tasks ensures tasks[x] == ExitStep(s, code).tasks[x] {
    }
  }

  lemma FirstOf(s: seq<nat>)
    ensures s == [] || exists x :: x in s
  {
    assert s != [] ==> s[0] in s;
  }

  lemma WaitFacts(s: State)
    requires Inv(s) && s.current.Some? && s.current.value !in s.held
    ensures var p := s.current.value;
            && p in s.tasks && s.tasks[p].strong == 2 && s.tasks[p].status != Zombie && p !in s.tasks[p].children
            && forall k | k in s.tasks[p].children :: k in s.tasks && (s.tasks[k].status == Zombie ==> s.tasks[k].children == [])
  {
    hide NoDup, PidsOk;
    var p := s.current.value;
    assert forall k | k in s.tasks[p].children :: ChildOf(s, p, k);
    forall k | k in s.tasks[p].children && s.tasks[k].status == Zombie ensures s.tasks[k].children == [] {
      var kids := s.tasks[k].children;
      assert forall x | x in kids :: ChildOf(s, k, x);
      FirstOf(kids);
    }
  }

  /** A change of strong counts does not matter to the search. */
  lemma {:induction false} SameChildren(t: map<Id, Task>, t': map<Id, Task>, kids: seq<Id>, pid: int)
    requires t.Keys == t'.Keys && forall x | x in t :: t'[x].pid == t[x].pid && t'[x].status == t[x].status
    ensures FindZombie(t', kids, pid) == FindZombie(t, kids, pid) && HasChild(t', kids, pid) == HasChild(t, kids, pid)
  {
    if kids != [] {
      SameChildren(t, t', kids[1..], pid);
    }
  }

  lemma NoMatchNoZombie(tasks: map<Id, Task>, kids: seq<Id>, pid: int)
    requires !HasChild(tasks, kids, pid)
    ensures FindZombie(tasks, kids, pid) == |kids|
  {
  }

  /** What the results of `sys_waitpid` mean. */
  lemma WaitOutcome(s: State, pid: int)
    requires s.current.Some? && s.current.value in s.tasks
    requires forall k | k in s.tasks[s.current.value].children :: k in s.tasks
    ensures var kids, r := s.tasks[s.current.value].children, WaitResult(s, pid);
            && (r == -1 <==> forall k | k in kids :: !Matches(pid, s.tasks[k].pid))
            && (r == -2 <==> (exists k | k in kids :: Matches(pid, s.tasks[k].pid))
                             && forall k | k in kids && Matches(pid, s.tasks[k].pid) :: s.tasks[k].status != Zombie)
            && (r >= 0 <==> exists k | k in kids :: Matches(pid, s.tasks[k].pid) && s.tasks[k].status == Zombie)
            && -2 <= r
  {
    var kids := s.tasks[s.current.value].children;
    var i := FindZombie(s.tasks, kids, pid);
    assert i < |kids| ==> kids[i] in kids;
    assert HasChild(s.tasks, kids, pid) <==> exists k | k in kids :: Matches(pid, s.tasks[k].pid);
  }

  /** Some child has this pid. */
  ghost predicate ChildWithPid(s: State, p: Id, pid: int)
    requires p in s.tasks
  {
    exists k | k in s.tasks[p].children :: k in s.tasks && s.tasks[k].pid == pid
  }

  /**
   What `sys_waitpid` answers, for each kind of argument. A pid names one child: it is reaped if it is a zombie,
   and nobody else is. -1 stands for any child. No child has another negative pid, as pids are below 2^63.
   */
  lemma WaitAnswers(s: State, pid: int)
    requires Inv(s) && s.current.Some? && s.current.value in s.tasks
    ensures var p, r := s.current.value, WaitResult(s, pid);
            && (pid >= 0 ==> && (r >= 0 ==> r == pid)
                             && (r == -1 <==> !ChildWithPid(s, p, pid))
                             && (forall k | k in s.tasks[p].children && k in s.tasks && s.tasks[k].pid == pid :: r == -2 <==> s.tasks[k].status != Zombie))
            && (pid == -1 ==> && (r == -1 <==> s.tasks[p].children == [])
                              && (r == -2 <==> s.tasks[p].children != [] && forall k | k in s.tasks[p].children && k in s.tasks :: s.tasks[k].status != Zombie))
            && (-0x8000_0000_0000_0000 <= pid < -1 && (forall k | k in s.tasks[p].children && k in s.tasks :: s.tasks[k].pid < 0x8000_0000_0000_0000)
                ==> r == -1)
  {
    hide Scheduled, Counted, History, NoDup, HasPid, FindZombie, HasChild, ChildOf;
    var p := s.current.value;
    ChildrenExist(s, p);
    WaitOutcome(s, pid);
    var kids, r := s.tasks[p].children, WaitResult(s, pid);
    if pid >= 0 {
      forall k | k in kids ensures Matches(pid, s.tasks[k].pid) <==> s.tasks[k].pid == pid {
      }
    }
    if r >= 0 {
      FoundMatches(s, pid);
    }
    if pid == -1 && kids != [] {
      assert kids[0] in kids && Matches(pid, s.tasks[kids[0]].pid);
    }
  }

  lemma ChildrenExist(s: State, p: Id)
    requires Inv(s) && p in s.tasks
    ensures forall k | k in s.tasks[p].children :: k in s.tasks
  {
    hide Scheduled, Counted, PidsOk, History, NoDup;
    forall k | k in s.tasks[p].children ensures k in s.tasks {
      assert ChildOf(s, p, k);
    }
  }

  lemma FoundMatches(s: State, pid: int)
    requires s.current.Some? && s.current.value in s.tasks && WaitResult(s, pid) >= 0
    ensures Matches(pid, WaitResult(s, pid))
  {
  }

  /** The child that leaves is a zombie with the pid in the answer. */
  lemma WaitReapsAnswer(s: State, pid: int)
    requires Inv(s) && s.current.Some? && s.current.value in s.tasks && WaitResult(s, pid) >= 0
    ensures var s', c := WaitStep(s, pid), Last(WaitStep(s, pid).reaped);
            && c in s.tasks[s.current.value].children && c in s.tasks && s.tasks[c].pid == WaitResult(s, pid) && s.tasks[c].status == Zombie
            && c !in s'.tasks && s'.reaped == s.reaped + [c]
            && forall t | t in s.tasks && t != c :: t in s'.tasks
  {
    hide Inv, FindZombie;
  }

  function Last(s: seq<Id>): Id
  {
    if s == [] then 0 else s[|s| - 1]
  }
}
