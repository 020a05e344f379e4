/** Every step of the process life cycle keeps the invariant. */
module TaskSteps {
  import opened Options
  import opened Seqs
  import opened TaskModel

  // Dispatch.

  lemma DispatchScheduled(s: State)
    requires Scheduled(s) && s.current == None
    ensures Scheduled(DispatchStep(s))
  {
    var s' := DispatchStep(s);
    if s.ready != [] {
      assert s.ready == [s.ready[0]] + s'.ready;
    }
  }

  lemma SameFamily(s: State, s': State)
    requires Family(s) && s'.tasks.Keys == s.tasks.Keys
    requires forall t | t in s.tasks :: s'.tasks[t].parent == s.tasks[t].parent && s'.tasks[t].children == s.tasks[t].children
    requires forall t | t in s.tasks :: s'.tasks[t].status == Zombie <==> s.tasks[t].status == Zombie
    ensures Family(s')
  {
    hide NoDup;
    forall p, c | p in s'.tasks && c in s'.tasks[p].children ensures ChildOf(s', p, c) {
      assert ChildOf(s, p, c);
    }
    forall c | c in s'.tasks && c != INIT ensures s'.tasks[c].parent.Some? && ChildOf(s', s'.tasks[c].parent.value, c) {
      assert ChildOf(s, s.tasks[c].parent.value, c);
    }
  }

  /** Tasks keep their pids, and only the pid of a removed task may be lost. */
  lemma PidKept(tasks: map<Id, Task>, tasks': map<Id, Task>, gone: set<Id>, pid: nat)
    requires HasPid(tasks, pid) && tasks.Keys - gone <= tasks'.Keys && forall t | t in tasks && t in tasks' :: tasks'[t].pid == tasks[t].pid
    requires forall t | t in gone && t in tasks :: tasks[t].pid != pid
    ensures HasPid(tasks', pid)
  {
    var t :| t in tasks && tasks[t].pid == pid;
    assert t in tasks' && tasks'[t].pid == pid;
  }

  lemma SamePids(s: State, s': State)
    requires PidsOk(s) && s'.tasks.Keys == s.tasks.Keys && s'.pids == s.pids
    requires forall t | t in s.tasks :: s'.tasks[t].pid == s.tasks[t].pid
    ensures PidsOk(s')
  {
    hide NoDup, HasPid;
    forall p: nat | p < s.pids.current && p !in s.pids.recycled ensures HasPid(s'.tasks, p) {
      PidKept(s.tasks, s'.tasks, {}, p);
    }
  }

  lemma SameHistory(s: State, s': State)
    requires History(s) && s'.tasks.Keys == s.tasks.Keys && s'.next == s.next && s'.reaped == s.reaped
    ensures History(s')
  {
    hide NoDup;
  }

  lemma StatusChange(s: State, s': State)
    requires Family(s) && Counted(s) && PidsOk(s) && History(s)
    requires s'.tasks.Keys == s.tasks.Keys && s'.held == s.held && s'.pids == s.pids && s'.next == s.next && s'.reaped == s.reaped
    requires forall t | t in s.tasks :: s'.tasks[t].(status := s.tasks[t].status) == s.tasks[t]
    requires forall t | t in s.tasks :: s'.tasks[t].status == Zombie <==> s.tasks[t].status == Zombie
    ensures Family(s') && Counted(s') && PidsOk(s') && History(s')
  {
    hide Family, PidsOk, History;
    SameFamily(s, s');
    SamePids(s, s');
    SameHistory(s, s');
  }

  lemma DispatchInv(s: State)
    requires Inv(s) && s.current == None
    ensures Inv(DispatchStep(s))
  {
    hide Scheduled, Family, Counted, PidsOk, History;
    DispatchScheduled(s);
    FrontIsReady(s);
    StatusChange(s, DispatchStep(s));
  }

  lemma FrontIsReady(s: State)
    requires Scheduled(s)
    ensures s.ready != [] ==> s.ready[0] in s.tasks && s.tasks[s.ready[0]].status == Ready
    ensures s.current.Some? ==> s.current.value in s.tasks && s.tasks[s.current.value].status == Running
  {
  }

  // Suspend.

  lemma SuspendInv(s: State)
    requires Inv(s) && s.current.Some?
    ensures s.current.value in s.tasks && Inv(SuspendStep(s))
  {
    hide Scheduled, Family, Counted, PidsOk, History;
    FrontIsReady(s);
    SuspendScheduled(s);
    StatusChange(s, SuspendStep(s));
  }

  lemma SuspendScheduled(s: State)
    requires Scheduled(s) && s.current.Some?
    ensures Scheduled(SuspendStep(s))
  {
    var s' := SuspendStep(s);
    assert forall t | t in s'.ready :: t in s.ready || t == s.current.value;
    assert s'.ready[|s.ready|] == s.current.value;
    assert forall t | t in s.ready :: t in s'.ready;
  }

  // Blocking reads.

  lemma CountChange(s: State, s': State)
    requires Scheduled(s) && Family(s) && PidsOk(s) && History(s)
    requires s'.tasks.Keys == s.tasks.Keys && s'.pids == s.pids && s'.next == s.next && s'.reaped == s.reaped
    requires s'.ready == s.ready && s'.current == s.current
    requires forall t | t in s.tasks :: s'.tasks[t].(strong := s.tasks[t].strong) == s.tasks[t]
    ensures Scheduled(s') && Family(s') && PidsOk(s') && History(s')
  {
    hide Family, PidsOk, History, NoDup;
    SameFamily(s, s');
    SamePids(s, s');
    SameHistory(s, s');
  }

  lemma BeginReadInv(s: State)
    requires Inv(s) && s.current.Some? && s.current.value !in s.held
    ensures s.current.value in s.tasks && Inv(BeginReadStep(s))
  {
    hide Scheduled, Family, PidsOk, History;
    FrontIsReady(s);
    CountChange(s, BeginReadStep(s));
  }

  lemma EndReadInv(s: State)
    requires Inv(s) && s.current.Some? && s.current.value in s.held
    ensures s.current.value in s.tasks && s.tasks[s.current.value].strong > 0 && Inv(EndReadStep(s))
  {
    hide Scheduled, Family, PidsOk, History;
    FrontIsReady(s);
    CountChange(s, EndReadStep(s));
  }

  // Fork.

  lemma ForkScheduled(s: State)
    requires Scheduled(s) && s.current.Some? && s.next !in s.tasks
    ensures Scheduled(ForkStep(s))
  {
    hide PidAlloc;
    var s' := ForkStep(s);
    assert forall t | t in s'.ready :: t in s.ready || t == s.next;
    assert s'.ready[|s.ready|] == s.next;
    assert forall t | t in s.ready :: t in s'.ready;
  }

  ghost predicate Adopted(s: State, s': State, p: Id, c: Id)
  {
    && p in s.tasks && s.tasks[p].status != Zombie && p < c && c !in s.tasks && s'.tasks.Keys == s.tasks.Keys + {c}
    && (forall t | t in s.tasks :: s'.tasks[t] == if t == p then s.tasks[p].(children := s.tasks[p].children + [c]) else s.tasks[t])
    && s'.tasks[c].parent == Some(p) && s'.tasks[c].children == [] && s'.tasks[c].status == Ready
  }

  lemma AdoptedChildOf(s: State, s': State, p: Id, c: Id, q: Id, x: Id)
    requires Adopted(s, s', p, c)
    ensures ChildOf(s, q, x) ==> ChildOf(s', q, x)
    ensures ChildOf(s', p, c)
  {
    assert (s.tasks[p].children + [c])[|s.tasks[p].children|] == c;
  }

  lemma ForkFamily(s: State, s': State, p: Id, c: Id)
    requires Family(s) && Adopted(s, s', p, c)
    ensures Family(s')
  {
    hide NoDup, ChildOf;
    var kids := s.tasks[p].children;
    NotAChild(s, p, c);
    NoDupAppend(kids, c);
    NoDupNone();
    forall q, x | q in s'.tasks && x in s'.tasks[q].children ensures ChildOf(s', q, x) {
      AdoptedChildOf(s, s', p, c, q, x);
    }
    forall x | x in s'.tasks && x != INIT ensures s'.tasks[x].parent.Some? && ChildOf(s', s'.tasks[x].parent.value, x) {
      AdoptedChildOf(s, s', p, c, s'.tasks[x].parent.value, x);
    }
  }

  lemma NotAChild(s: State, p: Id, c: Id)
    requires Family(s) && p in s.tasks && c !in s.tasks
    ensures c !in s.tasks[p].children
  {
    assert c in s.tasks[p].children ==> ChildOf(s, p, c);
  }

  lemma ForkAdopts(s: State)
    requires s.current.Some? && s.current.value in s.tasks && s.tasks[s.current.value].status != Zombie
    requires s.next !in s.tasks && s.current.value < s.next
    ensures Adopted(s, ForkStep(s), s.current.value, s.next)
  {
    hide PidAlloc;
  }

  lemma ForkCounted(s: State)
    requires Counted(s) && s.current.Some? && s.current.value in s.tasks && s.next !in s.tasks
    ensures Counted(ForkStep(s))
  {
    hide PidAlloc;
  }

  lemma ForkKeeps(s: State)
    requires s.current.Some? && s.current.value in s.tasks && s.next !in s.tasks
    ensures var (pid, pids) := PidAlloc(s.pids);
            var s' := ForkStep(s);
            && s'.tasks.Keys == s.tasks.Keys + {s.next} && s'.pids == pids && s'.tasks[s.next].pid == pid
            && forall x | x in s.tasks :: s'.tasks[x].pid == s.tasks[x].pid
  {
    hide PidAlloc;
  }

  lemma ForkPids(s: State)
    requires PidsOk(s) && s.current.Some? && s.current.value in s.tasks && s.next !in s.tasks
    ensures PidsOk(ForkStep(s))
  {
    hide PidAlloc, NoDup, ForkStep, HasPid;
    var s' := ForkStep(s);
    var (pid, pids) := PidAlloc(s.pids);
    PidAllocOk(s.pids);
    ForkKeeps(s);
    assert HasPid(s'.tasks, pid) by {
      PidOf(s'.tasks, s.next);
    }
    forall p: nat | p < pids.current && p !in pids.recycled ensures HasPid(s'.tasks, p) {
      if p != pid {
        PidKept(s.tasks, s'.tasks, {}, p);
      }
    }
  }

  lemma PidOf(tasks: map<Id, Task>, t: Id)
    requires t in tasks
    ensures HasPid(tasks, tasks[t].pid)
  {
  }

  /** `alloc` hands out a pid that nobody has. */
  lemma PidAllocOk(p: Pids)
    requires NoDup(p.recycled) && forall x | x in p.recycled :: x < p.current
    ensures var (pid, p') := PidAlloc(p);
            && (pid >= p.current || pid in p.recycled) && pid < p'.current && pid !in p'.recycled
            && NoDup(p'.recycled) && p.current <= p'.current <= (if pid == p.current then p.current + 1 else p.current)
            && (forall x | x in p'.recycled :: x in p.recycled)
            && (forall x | x in p.recycled && x != pid :: x in p'.recycled)
  {
    if p.recycled != [] {
      var n := |p.recycled| - 1;
      assert p.recycled == p.recycled[..n] + [p.recycled[n]];
    }
  }

  lemma ForkHistory(s: State)
    requires History(s) && s.current.Some? && s.current.value in s.tasks
    ensures History(ForkStep(s)) && s.next !in s.tasks && s.current.value < s.next
  {
    hide PidAlloc;
  }

  lemma ForkInv(s: State)
    requires Inv(s) && s.current.Some?
    ensures s.current.value in s.tasks && Inv(ForkStep(s))
  {
    hide Scheduled, Family, Counted, PidsOk, ForkStep;
    FrontIsReady(s);
    ForkHistory(s);
    ForkScheduled(s);
    ForkAdopts(s);
    ForkFamily(s, ForkStep(s), s.current.value, s.next);
    ForkCounted(s);
    ForkPids(s);
  }

  // Exit.

  /** Task `t` has become a zombie and its children belong to the initial process. */
  ghost predicate Orphaned(s: State, s': State, t: Id)
  {
    && t in s.tasks && t != INIT && INIT in s.tasks && s'.tasks.Keys == s.tasks.Keys
    && (forall x | x in s.tasks :: s'.tasks[x].parent == if x in s.tasks[t].children then Some(INIT) else s.tasks[x].parent)
    && (forall x | x in s.tasks :: s'.tasks[x].children == if x == t then [] else if x == INIT then s.tasks[x].children + s.tasks[t].children else s.tasks[x].children)
    && (forall x | x in s.tasks :: s'.tasks[x].status == if x == t then Zombie else s.tasks[x].status)
  }

  lemma ExitOrphans(s: State, code: int)
    requires s.current.Some? && s.current.value in s.tasks && s.tasks[s.current.value].strong > 0
    requires s.tasks[s.current.value].pid != 0 && s.current.value != INIT && INIT in s.tasks
    requires s.current.value !in s.tasks[s.current.value].children
    ensures Orphaned(s, ExitStep(s, code), s.current.value)
  {
  }

  lemma NotOwnChild(s: State, t: Id, x: Id)
    requires Family(s) && t in s.tasks
    ensures t !in s.tasks[t].children
    ensures x in s.tasks[t].children ==> ChildOf(s, t, x)
    ensures x in s.tasks && x != INIT && s.tasks[x].parent == Some(t) ==> x in s.tasks[t].children
  {
    hide NoDup;
    assert t in s.tasks[t].children ==> ChildOf(s, t, t);
    assert x in s.tasks && x != INIT && s.tasks[x].parent == Some(t) ==> ChildOf(s, t, x);
  }

  lemma OrphanedParent(s: State, s': State, t: Id, x: Id)
    requires Family(s) && Orphaned(s, s', t) && x in s.tasks && x != INIT
    ensures s'.tasks[x].parent.Some? && ChildOf(s', s'.tasks[x].parent.value, x)
  {
    hide NoDup;
    NotOwnChild(s, t, x);
    assert ChildOf(s, s.tasks[x].parent.value, x);
  }

  lemma OrphanedChild(s: State, s': State, t: Id, q: Id, x: Id)
    requires Family(s) && Orphaned(s, s', t) && q in s.tasks && x in s'.tasks[q].children
    ensures ChildOf(s', q, x)
  {
    hide NoDup;
    NotOwnChild(s, t, x);
    if x in s.tasks[t].children {
      assert x in s.tasks[q].children ==> ChildOf(s, q, x);
    } else {
      assert ChildOf(s, q, x);
    }
  }

  lemma ExitFamily(s: State, s': State, t: Id)
    requires Family(s) && Orphaned(s, s', t)
    ensures Family(s')
  {
    hide NoDup, ChildOf;
    forall x | x in s'.tasks && x != INIT ensures s'.tasks[x].parent.Some? && ChildOf(s', s'.tasks[x].parent.value, x) {
      OrphanedParent(s, s', t, x);
    }
    forall q, x | q in s'.tasks && x in s'.tasks[q].children ensures ChildOf(s', q, x) {
      OrphanedChild(s, s', t, q, x);
    }
    Siblings(s, t);
    NoDupNone();
  }

  lemma Siblings(s: State, t: Id)
    requires Family(s) && t in s.tasks && t != INIT
    ensures NoDup(s.tasks[INIT].children + s.tasks[t].children) && INIT !in s.tasks[t].children
  {
    hide NoDup;
    forall x | x in s.tasks[INIT].children ensures x !in s.tasks[t].children {
      assert ChildOf(s, INIT, x);
      assert x in s.tasks[t].children ==> ChildOf(s, t, x);
    }
    assert INIT in s.tasks[t].children ==> ChildOf(s, t, INIT);
    NoDupJoin(s.tasks[INIT].children, s.tasks[t].children);
  }

  lemma ExitScheduled(s: State, code: int)
    requires Scheduled(s) && s.current.Some? && s.tasks[s.current.value].strong > 0 && s.tasks[s.current.value].pid != 0
    ensures Scheduled(ExitStep(s, code))
  {
    hide NoDup;
  }

  lemma ExitCounted(s: State, code: int)
    requires Counted(s) && s.current.Some? && s.current.value in s.tasks && s.tasks[s.current.value].status == Running
    requires s.current.value !in s.held && s.tasks[s.current.value].pid != 0
    ensures s.tasks[s.current.value].strong == 2 && Counted(ExitStep(s, code))
  {
  }

  lemma ExitInv(s: State, code: int)
    requires Inv(s) && s.current.Some? && s.current.value !in s.held
    ensures s.current.value in s.tasks && s.tasks[s.current.value].strong == 2 && Inv(ExitStep(s, code))
  {
    hide Scheduled, Family, Counted, PidsOk, History, ExitStep;
    FrontIsReady(s);
    var t := s.current.value;
    InitPid(s, t);
    StrongAtExit(s, t);
    var s' := ExitStep(s, code);
    if t == INIT {
      Halt(s, code);
    } else {
      NotOwnChild(s, t, t);
      InitLives(s);
      ExitOrphans(s, code);
      ExitScheduled(s, code);
      ExitFamily(s, s', t);
      ExitCounted(s, code);
      ExitKeeps(s, code);
      SamePids(s, s');
      SameHistory(s, s');
    }
  }

  lemma StrongAtExit(s: State, t: Id)
    requires Counted(s) && t in s.tasks && s.tasks[t].status == Running && t !in s.held
    ensures s.tasks[t].strong == 2
  {
  }

  lemma InitLives(s: State)
    requires Family(s)
    ensures INIT in s.tasks && s.tasks[INIT].status != Zombie
  {
  }

  lemma Halt(s: State, code: int)
    requires Inv(s) && s.current == Some(INIT) && INIT in s.tasks && s.tasks[INIT].pid == 0 && s.tasks[INIT].strong > 0
    ensures ExitStep(s, code) == s.(halted := true) && Inv(ExitStep(s, code))
  {
    hide NoDup, ChildOf;
    assert forall p, c :: ChildOf(s, p, c) == ChildOf(s.(halted := true), p, c) by {
      ChildOfTasks(s, s.(halted := true));
    }
  }

  lemma ChildOfTasks(s: State, s': State)
    requires s.tasks == s'.tasks
    ensures forall p, c :: ChildOf(s, p, c) == ChildOf(s', p, c)
  {
  }

  lemma ExitKeeps(s: State, code: int)
    requires s.current.Some? && s.current.value in s.tasks && s.tasks[s.current.value].strong > 0
    ensures var s' := ExitStep(s, code);
            && s'.tasks.Keys == s.tasks.Keys && s'.pids == s.pids && s'.next == s.next && s'.reaped == s.reaped
            && forall x | x in s.tasks :: s'.tasks[x].pid == s.tasks[x].pid
  {
  }

  // Wait.

  /** Zombie `c` has left the children of `p` and the table. */
  ghost predicate Removed(s: State, s': State, p: Id, c: Id)
  {
    && ChildOf(s, p, c) && s.tasks[c].status == Zombie && s'.tasks.Keys == s.tasks.Keys - {c}
    && (forall x | x in s'.tasks && x != p :: s'.tasks[x] == s.tasks[x])
    && s'.tasks[p] == s.tasks[p].(children := s'.tasks[p].children)
    && NoDup(s'.tasks[p].children) && forall x :: x in s'.tasks[p].children <==> x in s.tasks[p].children && x != c
  }

  lemma WaitRemoves(s: State, pid: int)
    requires Family(s) && s.current.Some? && s.current.value in s.tasks
    ensures var p := s.current.value; var kids := s.tasks[p].children; var i := FindZombie(s.tasks, kids, pid);
            if i == |kids| then WaitStep(s, pid) == s else Removed(s, WaitStep(s, pid), p, kids[i])
  {
    hide NoDup, ChildOf;
    var p := s.current.value;
    var kids := s.tasks[p].children;
    var i := FindZombie(s.tasks, kids, pid);
    if i < |kids| {
      var c := kids[i];
      assert ChildOf(s, p, c);
      ChildIsOther(s, p, c);
      NoDupRemove(kids, i);
    }
  }

  lemma ChildIsOther(s: State, p: Id, c: Id)
    requires ChildOf(s, p, c)
    ensures p != c && p in s.tasks && c in s.tasks && c != INIT
  {
  }

  lemma RemovedChildOf(s: State, s': State, p: Id, c: Id, q: Id, x: Id)
    requires Removed(s, s', p, c) && ChildOf(s, q, x) && x != c
    ensures ChildOf(s', q, x)
  {
    hide NoDup;
  }

  lemma RemovedFamily(s: State, s': State, p: Id, c: Id)
    requires Family(s) && Removed(s, s', p, c)
    ensures Family(s')
  {
    hide NoDup, ChildOf;
    ChildIsOther(s, p, c);
    forall q, x | q in s'.tasks && x in s'.tasks[q].children ensures ChildOf(s', q, x) {
      assert ChildOf(s, q, x);
      OnlyParent(s, p, c, q, x);
      RemovedChildOf(s, s', p, c, q, x);
    }
    forall x | x in s'.tasks && x != INIT ensures s'.tasks[x].parent.Some? && ChildOf(s', s'.tasks[x].parent.value, x) {
      RemovedChildOf(s, s', p, c, s.tasks[x].parent.value, x);
    }
  }

  lemma OnlyParent(s: State, p: Id, c: Id, q: Id, x: Id)
    requires ChildOf(s, p, c) && ChildOf(s, q, x)
    ensures x == c ==> q == p
  {
  }

  lemma RemovedScheduled(s: State, s': State, p: Id, c: Id)
    requires Scheduled(s) && Removed(s, s', p, c) && s'.ready == s.ready && s'.current == s.current
    ensures Scheduled(s')
  {
    hide NoDup;
  }

  lemma RemovedCounted(s: State, s': State, p: Id, c: Id)
    requires Counted(s) && Removed(s, s', p, c) && s'.held == s.held
    ensures Counted(s') && s.tasks[c].strong == 1
  {
    hide NoDup;
  }

  lemma RemovedKeeps(s: State, s': State, p: Id, c: Id)
    requires Removed(s, s', p, c)
    ensures c in s.tasks && c != INIT && s'.tasks.Keys == s.tasks.Keys - {c}
    ensures forall x | x in s'.tasks :: s'.tasks[x].pid == s.tasks[x].pid
  {
  }

  lemma RemovedPids(s: State, s': State, p: Id, c: Id)
    requires PidsOk(s) && Removed(s, s', p, c) && s'.pids == s.pids.(recycled := s.pids.recycled + [s.tasks[c].pid])
    ensures PidsOk(s') && s.tasks[c].pid < s.pids.current && s.tasks[c].pid !in s.pids.recycled
  {
    hide NoDup, Removed, HasPid;
    RemovedKeeps(s, s', p, c);
    NoDupAppend(s.pids.recycled, s.tasks[c].pid);
    forall x: nat | x < s'.pids.current && x !in s'.pids.recycled ensures HasPid(s'.tasks, x) {
      PidKept(s.tasks, s'.tasks, {c}, x);
    }
  }

  lemma RemovedHistory(s: State, s': State, p: Id, c: Id)
    requires History(s) && Removed(s, s', p, c) && s'.next == s.next && s'.reaped == s.reaped + [c]
    ensures History(s')
  {
    hide NoDup;
    NoDupAppend(s.reaped, c);
  }

  lemma WaitInv(s: State, pid: int)
    requires Inv(s) && s.current.Some?
    ensures s.current.value in s.tasks && Inv(WaitStep(s, pid))
    ensures var kids := s.tasks[s.current.value].children; var i := FindZombie(s.tasks, kids, pid);
            i < |kids| ==> s.tasks[kids[i]].strong == 1 && s.tasks[kids[i]].pid < s.pids.current && s.tasks[kids[i]].pid !in s.pids.recycled
  {
    hide Scheduled, Family, Counted, PidsOk, History, Removed;
    FrontIsReady(s);
    WaitRemoves(s, pid);
    var p, s' := s.current.value, WaitStep(s, pid);
    var kids := s.tasks[p].children;
    var i := FindZombie(s.tasks, kids, pid);
    if i < |kids| {
      RemovedScheduled(s, s', p, kids[i]);
      RemovedFamily(s, s', p, kids[i]);
      RemovedCounted(s, s', p, kids[i]);
      RemovedPids(s, s', p, kids[i]);
      RemovedHistory(s, s', p, kids[i]);
    }
  }
}
