/** Which pids, and so which kernel stacks, the steps of the life cycle add and remove. */
module TaskStacks {
  import opened Seqs
  import opened TaskModel
  import opened TaskSteps
  import opened TaskRuns

  ghost function LivePids(tasks: map<Id, Task>): set<nat>
  {
    set t | t in tasks :: tasks[t].pid
  }

  /** There are as many pids in use as tasks. */
  lemma {:induction false} PidCount(tasks: map<Id, Task>)
    requires forall t, u | t in tasks && u in tasks && t != u :: tasks[t].pid != tasks[u].pid
    ensures |LivePids(tasks)| == |tasks|
    decreases |tasks|
  {
    if tasks == map[] {
      assert LivePids(tasks) == {};
    } else {
      var c :| c in tasks;
      var rest := tasks - {c};
      assert rest.Keys == tasks.Keys - {c};
      OnePidLess(tasks, rest, c);
      PidCount(rest);
      assert LivePids(tasks) == LivePids(rest) + {tasks[c].pid};
    }
  }

  lemma StackCount(s: State)
    requires Inv(s)
    ensures |LivePids(s.tasks)| == |s.tasks|
  {
    hide Scheduled, Family, Counted, History, NoDup, HasPid, LivePids;
    PidCount(s.tasks);
  }

  lemma ForkTaskCount(s: State)
    requires Inv(s) && s.current.Some? && s.current.value in s.tasks
    ensures |ForkStep(s).tasks| == |s.tasks| + 1
  {
    hide Scheduled, Family, Counted, PidsOk, NoDup, PidAlloc;
    var p, c := s.current.value, s.next;
    var s' := ForkStep(s);
    assert s'.tasks.Keys == s.tasks.Keys + {c};
  }

  lemma SamePidSet(a: map<Id, Task>, b: map<Id, Task>)
    requires a.Keys == b.Keys && forall t | t in a :: a[t].pid == b[t].pid
    ensures LivePids(a) == LivePids(b)
  {
    assert forall t | t in a :: a[t].pid == b[t].pid && t in b;
    assert forall t | t in b :: a[t].pid == b[t].pid && t in a;
  }

  lemma QuietStep(s: State, e: Event)
    requires Inv(s) && Enabled(s, e) && !e.Fork? && !e.Wait?
    ensures LivePids(Step(s, e).tasks) == LivePids(s.tasks) && Step(s, e).pids == s.pids
  {
    hide Scheduled, Family, Counted, PidsOk, History, LivePids;
    SamePidSet(Step(s, e).tasks, s.tasks);
  }

  lemma ForkPidSet(s: State)
    requires Inv(s) && s.current.Some? && s.current.value in s.tasks
    ensures var (pid, pids) := PidAlloc(s.pids);
            && LivePids(ForkStep(s).tasks) == LivePids(s.tasks) + {pid} && pid !in LivePids(s.tasks)
            && pid <= s.pids.current && pids.current <= s.pids.current + 1 && ForkStep(s).tasks[s.next].pid == pid
  {
    hide Scheduled, Family, Counted, NoDup, PidAlloc, ForkStep, HasPid;
    PidAllocOk(s.pids);
    ForkKeeps(s);
    var s' := ForkStep(s);
    assert forall t | t in s.tasks :: t in s'.tasks;
    assert s.next in s'.tasks;
  }

  lemma WaitPidSet(s: State, pid: int)
    requires Inv(s) && s.current.Some? && s.current.value in s.tasks
    ensures var r, s' := WaitResult(s, pid), WaitStep(s, pid);
            && s'.pids.current == s.pids.current
            && (if r >= 0 then r in LivePids(s.tasks) && LivePids(s'.tasks) == LivePids(s.tasks) - {r} else s' == s)
  {
    hide Scheduled, Counted, NoDup, HasPid, FindZombie, ChildOf, Removed, WaitStep, HasChild;
    WaitRemoves(s, pid);
    var kids := s.tasks[s.current.value].children;
    var i := FindZombie(s.tasks, kids, pid);
    if i < |kids| {
      var s' := WaitStep(s, pid);
      ZombieMatches(s.tasks, kids, pid);
      RemovedKeeps(s, s', s.current.value, kids[i]);
      OnePidLess(s.tasks, s'.tasks, kids[i]);
    }
    WaitCurrent(s, pid);
  }

  lemma ZombieMatches(tasks: map<Id, Task>, kids: seq<Id>, pid: int)
    requires FindZombie(tasks, kids, pid) < |kids|
    ensures HasChild(tasks, kids, pid)
  {
    assert kids[FindZombie(tasks, kids, pid)] in tasks;
  }

  lemma WaitCurrent(s: State, pid: int)
    requires s.current.Some? && s.current.value in s.tasks
    ensures WaitStep(s, pid).pids.current == s.pids.current
  {
    hide FindZombie;
  }

  lemma OnePidLess(tasks: map<Id, Task>, tasks': map<Id, Task>, c: Id)
    requires c in tasks && tasks'.Keys == tasks.Keys - {c} && forall t | t in tasks' :: tasks'[t].pid == tasks[t].pid
    requires forall t, u | t in tasks && u in tasks && t != u :: tasks[t].pid != tasks[u].pid
    ensures LivePids(tasks') == LivePids(tasks) - {tasks[c].pid} && tasks[c].pid in LivePids(tasks)
  {
    forall p | p in LivePids(tasks) && p != tasks[c].pid ensures p in LivePids(tasks') {
      var t :| t in tasks && tasks[t].pid == p;
      assert t in tasks' && tasks'[t].pid == p;
    }
    forall p | p in LivePids(tasks') ensures p in LivePids(tasks) && p != tasks[c].pid {
      var t :| t in tasks' && tasks'[t].pid == p;
      assert t in tasks && t != c;
    }
  }

  lemma OneTask()
    ensures LivePids(TaskRuns.Boot.tasks) == {} + {0}
  {
    assert TaskRuns.Boot.tasks[INIT].pid == 0;
  }
}
