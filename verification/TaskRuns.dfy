/** Whole runs of the process life cycle. */
module TaskRuns {
  import opened Options
  import opened Seqs
  import opened TaskModel
  import opened TaskSteps

  /** A task inside `sys_read` can only be suspended or return; after a halt nothing happens. */
  ghost predicate Enabled(s: State, e: Event)
  {
    && !s.halted
    && (e.Dispatch? <==> s.current.None?)
    && (s.current.Some? ==>
          && s.current.value in s.tasks && s.tasks[s.current.value].strong > 0
          && (e.EndRead? ==> s.current.value in s.held)
          && (s.current.value in s.held ==> e.Suspend? || e.EndRead?))
  }

  ghost function Step(s: State, e: Event): State
    requires Enabled(s, e)
  {
    match e
    case Dispatch => DispatchStep(s)
    case Suspend => SuspendStep(s)
    case BeginRead => BeginReadStep(s)
    case EndRead => EndReadStep(s)
    case Fork => ForkStep(s)
    case Exit(code) => ExitStep(s, code)
    case Wait(pid) => WaitStep(s, pid)
  }

  ghost predicate Possible(s: State, es: seq<Event>)
    decreases |es|
  {
    es == [] || (Enabled(s, es[0]) && Possible(Step(s, es[0]), es[1..]))
  }

  ghost function Steps(s: State, es: seq<Event>): State
    requires Possible(s, es)
    decreases |es|
  {
    if es == [] then s else Steps(Step(s, es[0]), es[1..])
  }

  lemma StepInv(s: State, e: Event)
    requires Inv(s) && Enabled(s, e)
    ensures Inv(Step(s, e))
  {
    hide Inv, DispatchStep, SuspendStep, BeginReadStep, EndReadStep, ForkStep, ExitStep, WaitStep;
    match e
    case Dispatch => DispatchInv(s);
    case Suspend => SuspendInv(s);
    case BeginRead => BeginReadInv(s);
    case EndRead => EndReadInv(s);
    case Fork => ForkInv(s);
    case Exit(code) => ExitInv(s, code);
    case Wait(pid) => WaitInv(s, pid);
  }

  /** The state after `add_initproc`. */
  const Boot: State := State(map[INIT := Task(0, Ready, None, [], 0, 2)], [INIT], None, {}, Pids(1, []), 1, [], false)

  lemma BootInv()
    ensures Inv(Boot)
  {
    assert Boot.tasks[INIT].pid == 0;
    assert Boot.ready[0] == INIT;
  }

  /** Safety over whole runs. */
  lemma {:induction false} RunInv(s: State, es: seq<Event>)
    requires Inv(s) && Possible(s, es)
    ensures Inv(Steps(s, es))
    decreases |es|
  {
    hide Inv, Enabled, Step;
    if es != [] {
      StepInv(s, es[0]);
      RunInv(Step(s, es[0]), es[1..]);
    }
  }

  // Strong counts are reference counts.

  /** Occurrences of `t` in the children lists of the tasks below `n`. */
  function ChildRefs(tasks: map<Id, Task>, n: nat, t: Id): nat
  {
    if n == 0 then 0
    else ChildRefs(tasks, n - 1, t) + if n - 1 in tasks then multiset(tasks[n - 1].children)[t] else 0
  }

  /** All handles: in the ready queue, the current slot, children lists, the static, and a blocked read. */
  function References(s: State, t: Id): nat
  {
    multiset(s.ready)[t] + (if s.current == Some(t) then 1 else 0) + ChildRefs(s.tasks, s.next, t)
    + (if t == INIT then 1 else 0) + (if t in s.held then 1 else 0)
  }

  lemma OneParent(s: State, p: Id, t: Id)
    requires Family(s) && t in s.tasks
    ensures t != INIT ==> s.tasks[t].parent.Some? && s.tasks[t].parent.value in s.tasks && s.tasks[t].parent.value < t
    ensures p in s.tasks ==> multiset(s.tasks[p].children)[t] == if t != INIT && s.tasks[t].parent == Some(p) then 1 else 0
  {
    hide NoDup;
    assert t != INIT ==> ChildOf(s, s.tasks[t].parent.value, t);
    if p in s.tasks {
      OnceInNoDup(s.tasks[p].children, t);
      assert t in s.tasks[p].children ==> ChildOf(s, p, t);
    }
  }

  lemma {:induction false} ChildRefsOf(s: State, n: nat, t: Id)
    requires Family(s) && t in s.tasks
    ensures t != INIT ==> s.tasks[t].parent.Some?
    ensures ChildRefs(s.tasks, n, t) == if t != INIT && s.tasks[t].parent.value < n then 1 else 0
  {
    hide NoDup, Family;
    OneParent(s, if n > 0 then n - 1 else 0, t);
    if n > 0 {
      ChildRefsOf(s, n - 1, t);
    }
  }

  /** In every reachable state the strong count of a task is the number of handles to it. */
  lemma StrongIsReferences(s: State, t: Id)
    requires Inv(s) && t in s.tasks
    ensures s.tasks[t].strong == References(s, t)
  {
    hide NoDup, Family, PidsOk;
    ChildRefsOf(s, s.next, t);
    OneParent(s, 0, t);
    OnceInNoDup(s.ready, t);
  }

  // Exit status.

  lemma ZombieStep(s: State, e: Event, t: Id)
    requires Inv(s) && Enabled(s, e) && t in s.tasks && s.tasks[t].status == Zombie
    ensures var s' := Step(s, e);
            t in s'.reaped || (t in s'.tasks && s'.tasks[t].status == Zombie && s'.tasks[t].exitCode == s.tasks[t].exitCode
                               && s'.tasks[t].pid == s.tasks[t].pid)
  {
    hide NoDup, Family, Counted, PidsOk, FindZombie;
    if e.Wait? {
      var kids := s.tasks[s.current.value].children;
      var i := FindZombie(s.tasks, kids, e.pid);
      assert i < |kids| ==> (s.reaped + [kids[i]])[|s.reaped|] == kids[i];
    }
  }

  lemma ReapedStays(s: State, e: Event, t: Id)
    requires Enabled(s, e) && t in s.reaped
    ensures t in Step(s, e).reaped
  {
    hide FindZombie, PidAlloc, Reparented;
  }

  lemma ReapedIsGone(s: State, t: Id)
    requires Inv(s) && t in s.reaped
    ensures t !in s.tasks
  {
  }

  /** Until it is reaped, a zombie keeps the pid and the exit code for the one `waitpid` that takes it. */
  lemma {:induction false} ExitStatusKept(s: State, es: seq<Event>, t: Id)
    requires Inv(s) && Possible(s, es) && (t in s.reaped || (t in s.tasks && s.tasks[t].status == Zombie))
    ensures var s' := Steps(s, es);
            t in s'.reaped || (t in s.tasks && t in s'.tasks && s'.tasks[t].status == Zombie
                               && s'.tasks[t].exitCode == s.tasks[t].exitCode && s'.tasks[t].pid == s.tasks[t].pid)
    decreases |es|
  {
    hide Inv, Enabled, Step;
    if es != [] {
      StepInv(s, es[0]);
      if t in s.reaped {
        ReapedStays(s, es[0], t);
      } else {
        ZombieStep(s, es[0], t);
      }
      if t in Step(s, es[0]).reaped {
        ReapedIsGone(Step(s, es[0]), t);
      }
      ExitStatusKept(Step(s, es[0]), es[1..], t);
    }
  }

  /** The code passed to `exit` is the code that waits for the parent, with the pid of the task. */
  lemma ExitCodeDelivered(s: State, code: int, es: seq<Event>)
    requires Inv(s) && Enabled(s, Exit(code)) && s.current.value != INIT && Possible(Step(s, Exit(code)), es)
    ensures var t, s' := s.current.value, Steps(Step(s, Exit(code)), es);
            t in s'.reaped || (t in s'.tasks && s'.tasks[t].status == Zombie && s'.tasks[t].exitCode == code && s'.tasks[t].pid == s.tasks[t].pid
                               && s'.tasks[t].parent.Some? && ChildOf(s', s'.tasks[t].parent.value, t))
  {
    hide Inv, Step, Possible, Steps, ChildOf;
    var t, s1 := s.current.value, Step(s, Exit(code));
    StepInv(s, Exit(code));
    JustExited(s, code);
    ExitStatusKept(s1, es, t);
    RunInv(s1, es);
    WaitedFor(Steps(s1, es), t);
  }

  lemma JustExited(s: State, code: int)
    requires Inv(s) && Enabled(s, Exit(code)) && s.current.value != INIT
    ensures var t, s' := s.current.value, Step(s, Exit(code));
            t in s'.tasks && s'.tasks[t].status == Zombie && s'.tasks[t].exitCode == code && s'.tasks[t].pid == s.tasks[t].pid && t !in s'.reaped
  {
    hide Scheduled, Family, Counted, NoDup, HasPid;
    InitPid(s, s.current.value);
  }

  lemma WaitedFor(s: State, t: Id)
    requires Inv(s)
    ensures t in s.tasks && t != INIT ==> s.tasks[t].parent.Some? && ChildOf(s, s.tasks[t].parent.value, t)
  {
    hide Scheduled, Counted, PidsOk, History, ChildOf, NoDup;
  }

  /** A task is reaped at most once: afterwards its identity never comes back. */
  lemma ReapedOnce(s: State, es: seq<Event>, t: Id)
    requires Inv(s) && Possible(s, es) && t in s.reaped
    ensures t in Steps(s, es).reaped && t !in Steps(s, es).tasks && multiset(Steps(s, es).reaped)[t] == 1
  {
    hide Scheduled, Family, Counted, PidsOk, NoDup, Possible, Steps;
    RunInv(s, es);
    ExitStatusKept(s, es, t);
    OnceInNoDup(Steps(s, es).reaped, t);
  }

  lemma ParentStep(s: State, e: Event, t: Id)
    requires Inv(s) && Enabled(s, e) && t in s.tasks && t in Step(s, e).tasks
    ensures Step(s, e).tasks[t].parent == s.tasks[t].parent || Step(s, e).tasks[t].parent == Some(INIT)
  {
    hide NoDup, Family, Scheduled, Counted, PidsOk, FindZombie, PidAlloc;
  }

  lemma Gone(s: State, e: Event, t: Id)
    requires Inv(s) && Enabled(s, e) && t < s.next && t !in s.tasks
    ensures t !in Step(s, e).tasks && t < Step(s, e).next
  {
    hide NoDup, Family, Counted, PidsOk, FindZombie, PidAlloc;
  }

  /** Only the parent that forked it, or the initial process, can ever wait for a task. */
  lemma {:induction false} ParentOrInit(s: State, es: seq<Event>, t: Id)
    requires Inv(s) && Possible(s, es) && t < s.next && t in Steps(s, es).tasks
    ensures t in s.tasks
    ensures Steps(s, es).tasks[t].parent == s.tasks[t].parent || Steps(s, es).tasks[t].parent == Some(INIT)
    decreases |es|
  {
    hide Inv, Enabled, Step;
    if es != [] {
      StepInv(s, es[0]);
      if t !in s.tasks {
        Gone(s, es[0], t);
      } else {
        NextGrows(s, es[0]);
      }
      ParentOrInit(Step(s, es[0]), es[1..], t);
      if t in s.tasks {
        ParentStep(s, es[0], t);
      }
    }
  }

  /** Whoever reaps a task, at any time, is the task that forked it or the initial process. */
  lemma ReaperIsParentOrInit(s: State, es: seq<Event>, t: Id, pid: int)
    requires Inv(s) && Possible(s, es) && t in s.tasks && t != INIT && Enabled(Steps(s, es), Wait(pid))
    requires t !in Steps(s, es).reaped && t in Step(Steps(s, es), Wait(pid)).reaped
    ensures Steps(s, es).current == s.tasks[t].parent || Steps(s, es).current == Some(INIT)
  {
    hide Inv, Possible, Steps;
    var s' := Steps(s, es);
    RunInv(s, es);
    TasksBelowNext(s, t);
    WaitTakesAChild(s', pid, t);
    ParentOrInit(s, es, t);
  }

  lemma TasksBelowNext(s: State, t: Id)
    requires Inv(s) && t in s.tasks
    ensures t < s.next
  {
  }

  lemma WaitTakesAChild(s: State, pid: int, t: Id)
    requires Inv(s) && Enabled(s, Wait(pid)) && t !in s.reaped && t in Step(s, Wait(pid)).reaped
    ensures t in s.tasks && s.current.Some? && s.tasks[t].parent == s.current
  {
    hide Inv, FindZombie, Family;
    FamilyHolds(s);
    WaitReaps(s, pid, t);
    NotOwnChild(s, s.current.value, t);
    ChildLink(s, s.current.value, t);
  }

  lemma FamilyHolds(s: State)
    requires Inv(s)
    ensures Family(s)
  {
  }

  lemma WaitReaps(s: State, pid: int, t: Id)
    requires Enabled(s, Wait(pid)) && t !in s.reaped && t in Step(s, Wait(pid)).reaped
    ensures s.current.Some? && s.current.value in s.tasks && t in s.tasks[s.current.value].children
  {
    hide FindZombie;
    var kids := s.tasks[s.current.value].children;
    var i := FindZombie(s.tasks, kids, pid);
    assert i < |kids| ==> kids[i] in kids;
  }

  lemma ChildLink(s: State, p: Id, t: Id)
    requires ChildOf(s, p, t)
    ensures t in s.tasks && s.tasks[t].parent == Some(p)
  {
  }

  lemma NextGrows(s: State, e: Event)
    requires Enabled(s, e)
    ensures s.next <= Step(s, e).next
  {
    hide FindZombie, PidAlloc, Reparented;
  }

  // Round robin.

  /** How many tasks were dispatched in a run. */
  ghost function Dispatches(s: State, es: seq<Event>): nat
    requires Possible(s, es)
    decreases |es|
  {
    if es == [] then 0
    else (if es[0].Dispatch? && s.ready != [] then 1 else 0) + Dispatches(Step(s, es[0]), es[1..])
  }

  lemma QueueStep(s: State, e: Event, k: nat)
    requires Inv(s) && Enabled(s, e) && k < |s.ready|
    ensures var s' := Step(s, e);
            if e.Dispatch? then
              if k == 0 then s'.current == Some(s.ready[0]) else k - 1 < |s'.ready| && s'.ready[k - 1] == s.ready[k]
            else k < |s'.ready| && s'.ready[k] == s.ready[k]
  {
    hide NoDup, Family, Counted, PidsOk, History, FindZombie, PidAlloc, Reparented;
    FrontIsReady(s);
  }

  /**
   The task at position `k` of the ready queue moves up by one at each dispatch and by nothing else,
   so it is the one dispatched after exactly `k` others.
   */
  lemma {:induction false} RoundRobin(s: State, es: seq<Event>, k: nat)
    requires Inv(s) && Possible(s, es) && k < |s.ready| && Dispatches(s, es) <= k
    ensures var s', d := Steps(s, es), Dispatches(s, es);
            && k - d < |s'.ready| && s'.ready[k - d] == s.ready[k]
            && (d == k && Enabled(s', Dispatch) ==> Step(s', Dispatch).current == Some(s.ready[k]))
    decreases |es|
  {
    hide Inv, Enabled, Step;
    if es != [] {
      StepInv(s, es[0]);
      QueueStep(s, es[0], k);
      RoundRobin(Step(s, es[0]), es[1..], if es[0].Dispatch? then k - 1 else k);
    } else if k == 0 && Enabled(s, Dispatch) {
      QueueStep(s, Dispatch, 0);
    }
  }
}
