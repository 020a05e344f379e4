/**
 Frames come back: the initial process can fork, let the child run and exit, and wait for it, any number of
 times, if there are frames for it once.
 */
module ShellLoop {
  import opened Options
  import opened Paging
  import opened PageTree
  import opened TaskModel
  import opened TaskRuns
  import opened TaskStacks
  import opened MemoryFork
  import opened MemorySystem
  import opened KernelStacks
  import opened TrapContexts
  import opened MainMemory
  import opened ProcessMemory
  import opened Machines

  /** The initial process runs alone. */
  ghost predicate Alone(s: State)
  {
    && s.tasks.Keys == {INIT} && s.tasks[INIT] == Task(0, Running, None, [], s.tasks[INIT].exitCode, 2)
    && s.ready == [] && s.current == Some(INIT) && s.held == {} && !s.halted && s.next > INIT
  }

  /** While there is a child `c`. */
  ghost function Pair(e: int, status: Status, c: Id, child: Task): map<Id, Task>
  {
    map[INIT := Task(0, status, None, [c], e, 2), c := child]
  }

  function Child(pid: nat, status: Status, code: int, strong: nat): Task
  {
    Task(pid, status, Some(INIT), [], code, strong)
  }

  lemma ForkAlone(s: State)
    requires Alone(s)
    ensures var (pid, pids) := PidAlloc(s.pids);
            && Enabled(s, TaskModel.Fork)
            && Step(s, TaskModel.Fork) == s.(tasks := Pair(s.tasks[INIT].exitCode, Running, s.next, Child(pid, Ready, 0, 2)), ready := [s.next],
                                   pids := pids, next := s.next + 1)
  {
    hide PidAlloc;
    var (pid, pids) := PidAlloc(s.pids);
    var c, e := s.next, s.tasks[INIT].exitCode;
    assert [] + [c] == [c];
    assert Step(s, TaskModel.Fork).tasks[INIT] == Task(0, Running, None, [c], e, 2);
    assert Step(s, TaskModel.Fork).tasks == Pair(e, Running, c, Child(pid, Ready, 0, 2));
  }

  lemma SuspendOne(s: State, e: int, c: Id, pid: nat)
    requires s.tasks == Pair(e, Running, c, Child(pid, Ready, 0, 2)) && c > INIT && s.current == Some(INIT) && s.ready == [c] && s.held == {} && !s.halted
    ensures Enabled(s, Suspend)
    ensures Step(s, Suspend) == s.(tasks := Pair(e, Ready, c, Child(pid, Ready, 0, 2)), ready := [c, INIT], current := None)
  {
    assert Step(s, Suspend).tasks == Pair(e, Ready, c, Child(pid, Ready, 0, 2));
  }

  lemma DispatchChild(s: State, e: int, c: Id, pid: nat)
    requires s.tasks == Pair(e, Ready, c, Child(pid, Ready, 0, 2)) && c > INIT && s.current == None && s.ready == [c, INIT] && s.held == {} && !s.halted
    ensures Enabled(s, Dispatch)
    ensures Step(s, Dispatch) == s.(tasks := Pair(e, Ready, c, Child(pid, Running, 0, 2)), ready := [INIT], current := Some(c))
  {
    assert Step(s, Dispatch).tasks == Pair(e, Ready, c, Child(pid, Running, 0, 2));
  }

  lemma ExitChild(s: State, e: int, c: Id, pid: nat, code: int)
    requires s.tasks == Pair(e, Ready, c, Child(pid, Running, 0, 2)) && c > INIT && pid > 0 && s.current == Some(c) && s.held == {} && !s.halted
    ensures Enabled(s, Exit(code))
    ensures Step(s, Exit(code)) == s.(tasks := Pair(e, Ready, c, Child(pid, Zombie, code, 1)), current := None)
  {
    NobodyMoves(s.tasks);
    assert Step(s, Exit(code)).tasks == Pair(e, Ready, c, Child(pid, Zombie, code, 1));
  }

  lemma NobodyMoves(tasks: map<Id, Task>)
    ensures Reparented(tasks, [], []) == tasks
  {
    forall t | t in tasks ensures ReparentedOne(tasks[t], t, [], []) == tasks[t] {
      assert tasks[t].children + [] == tasks[t].children;
    }
  }

  lemma DispatchParent(s: State, e: int, c: Id, pid: nat, code: int)
    requires s.tasks == Pair(e, Ready, c, Child(pid, Zombie, code, 1)) && c > INIT && s.current == None && s.ready == [INIT] && s.held == {} && !s.halted
    ensures Enabled(s, Dispatch)
    ensures Step(s, Dispatch) == s.(tasks := Pair(e, Running, c, Child(pid, Zombie, code, 1)), ready := [], current := Some(INIT))
  {
    assert Step(s, Dispatch).tasks == Pair(e, Running, c, Child(pid, Zombie, code, 1));
  }

  lemma WaitOne(s: State, e: int, c: Id, pid: nat, code: int)
    requires s.tasks == Pair(e, Running, c, Child(pid, Zombie, code, 1)) && c > INIT && s.current == Some(INIT) && s.held == {} && !s.halted
    ensures Enabled(s, Wait(-1)) && FindZombie(s.tasks, s.tasks[INIT].children, -1) == 0
    ensures Step(s, Wait(-1)) == s.(tasks := map[INIT := Task(0, Running, None, [], e, 2)], pids := s.pids.(recycled := s.pids.recycled + [pid]), reaped := s.reaped + [c])
  {
    var kids := [c];
    assert s.tasks[INIT].children == kids && kids[..0] + kids[1..] == [];
    assert Step(s, Wait(-1)).tasks == map[INIT := Task(0, Running, None, [], e, 2)];
  }

  // One round, with memory.

  /** Fork, run the child until it exits with `code`, and wait for it. */
  function Round(code: int, ptr: nat): seq<Action>
  {
    [ForkCall, Schedule(Suspend), Schedule(Dispatch), Schedule(Exit(code)), Schedule(Dispatch), WaitCall(-1, ptr)]
  }

  function Rounds(code: int, ptr: nat, n: nat): seq<Action>
  {
    if n == 0 then [] else Round(code, ptr) + Rounds(code, ptr, n - 1)
  }

  /** The initial process runs alone and could fork if there were frames. */
  ghost predicate Start(w: World, ptr: nat)
  {
    Consistent(w) && Alone(w.state) && |w.slots| == w.state.next && PointsInto(w.slots[INIT], ptr) && Can(w, ForkCall)
  }

  /** One action more in front. */
  lemma Before(w: World, a: Action, rest: seq<Action>)
    requires Can(w, a) && HasFrames(w, a) && CanAll(Next(w, a), rest) && HasFramesAll(Next(w, a), rest)
    ensures var actions := [a] + rest;
            CanAll(w, actions) && HasFramesAll(w, actions) && Outcome(w, actions) == Outcome(Next(w, a), rest)
  {
    hide Can, Next, HasFrames;
    assert ([a] + rest)[0] == a && ([a] + rest)[1..] == rest;
  }

  lemma {:induction false} Join(w: World, a: seq<Action>, b: seq<Action>)
    requires CanAll(w, a) && HasFramesAll(w, a) && CanAll(Outcome(w, a), b) && HasFramesAll(Outcome(w, a), b)
    ensures CanAll(w, a + b) && HasFramesAll(w, a + b)
    decreases |a|
  {
    hide Can, Next, HasFrames;
    if a == [] {
      assert a + b == b;
    } else {
      Join(Next(w, a[0]), a[1..], b);
      assert a + b == [a[0]] + (a[1..] + b);
      Before(w, a[0], a[1..] + b);
    }
  }

  lemma ForkedWorld(w: World, ptr: nat)
    requires Start(w, ptr)
    ensures var (pid, pids) := PidAlloc(w.state.pids);
            var c := w.state.next;
            && pid > 0 && w.slots[INIT].Alive? && ForkedSpace(w.slots[INIT], pid).Alive?
            && Next(w, ForkCall) == World(w.state.(tasks := Pair(w.state.tasks[INIT].exitCode, Running, c, Child(pid, Ready, 0, 2)), ready := [c],
                                                   pids := pids, next := c + 1),
                                          w.slots + [ForkedSpace(w.slots[INIT], pid)], w.kernel + StackLasts(pid), w.env)
  {
    hide Inv, Matching, Contexts, PidAlloc, StackLasts, Step, Enabled;
    ForkAlone(w.state);
    ForkPidSet(w.state);
    assert w.state.tasks[INIT].pid in LivePids(w.state.tasks);
  }

  /** A scheduling step other than exit. */
  lemma ScheduleNext(w: World, e: Event)
    requires |w.slots| == w.state.next && (w.state.current.Some? ==> w.state.current.value < w.state.next)
    requires Enabled(w.state, e) && !e.Fork? && !e.Wait? && !e.Exit?
    ensures Can(w, Schedule(e)) && HasFrames(w, Schedule(e)) && Next(w, Schedule(e)) == w.(state := Step(w.state, e))
  {
    hide Enabled, Step;
  }

  lemma ExitNext(w: World, code: int, t: Id)
    requires |w.slots| == w.state.next && w.state.current == Some(t) && t < w.state.next
    requires Enabled(w.state, Exit(code)) && w.state.tasks[t].pid != 0
    ensures Can(w, Schedule(Exit(code))) && HasFrames(w, Schedule(Exit(code)))
    ensures Next(w, Schedule(Exit(code))) == w.(state := Step(w.state, Exit(code)), slots := w.slots[t := Emptied(w.slots[t])])
  {
    hide Step;
  }

  lemma WaitNext(w: World, ptr: nat, c: Id)
    requires |w.slots| == w.state.next && w.state.current == Some(INIT) && INIT < c < w.state.next && c in w.state.tasks
    requires Enabled(w.state, Wait(-1)) && Reaped(w.state, -1) == Some(c) && PointsInto(w.slots[INIT], ptr)
    ensures Can(w, WaitCall(-1, ptr)) && HasFrames(w, WaitCall(-1, ptr))
    ensures Next(w, WaitCall(-1, ptr))
         == w.(state := Step(w.state, Wait(-1)), slots := w.slots[INIT := AnsweredSpace(w.slots[INIT], ptr, w.state.tasks[c].exitCode)][c := Gone])
  {
    hide Step, PointsInto, AnsweredSpace, Reaped;
  }

  /** The world after a round: as before, but for the exit code in memory and the used-up identity. */
  ghost function AfterRound(w: World, code: int, ptr: nat): World
    requires INIT in w.state.tasks && |w.slots| > INIT && PointsInto(w.slots[INIT], ptr)
  {
    var (pid, pids) := PidAlloc(w.state.pids);
    World(w.state.(tasks := map[INIT := Task(0, Running, None, [], w.state.tasks[INIT].exitCode, 2)], pids := pids.(recycled := pids.recycled + [pid]),
                   next := w.state.next + 1, reaped := w.state.reaped + [w.state.next]),
          w.slots[INIT := AnsweredSpace(w.slots[INIT], ptr, code)] + [Gone], w.kernel + StackLasts(pid), w.env)
  }

  lemma OneRound(w: World, code: int, ptr: nat)
    requires Start(w, ptr) && HasFrames(w, ForkCall)
    ensures CanAll(w, Round(code, ptr)) && HasFramesAll(w, Round(code, ptr)) && Outcome(w, Round(code, ptr)) == AfterRound(w, code, ptr)
  {
    hide Consistent, PidAlloc, StackLasts, Step, Enabled, PointsInto, AnsweredSpace, ForkedSpace, HasFrames, CanAll, HasFramesAll, Outcome, Can, Next, Reaped;
    var (pid, pids) := PidAlloc(w.state.pids);
    var c, e := w.state.next, w.state.tasks[INIT].exitCode;
    ForkedWorld(w, ptr);
    var w1 := Next(w, ForkCall);
    SuspendOne(w1.state, e, c, pid);
    ScheduleNext(w1, Suspend);
    var w2 := Next(w1, Schedule(Suspend));
    DispatchChild(w2.state, e, c, pid);
    ScheduleNext(w2, Dispatch);
    var w3 := Next(w2, Schedule(Dispatch));
    ExitChild(w3.state, e, c, pid, code);
    ExitNext(w3, code, c);
    var w4 := Next(w3, Schedule(Exit(code)));
    DispatchParent(w4.state, e, c, pid, code);
    ScheduleNext(w4, Dispatch);
    var w5 := Next(w4, Schedule(Dispatch));
    WaitOne(w5.state, e, c, pid, code);
    ZombieFound(w5.state, c);
    WaitNext(w5, ptr, c);
    var w6 := Next(w5, WaitCall(-1, ptr));
    assert w6 == AfterRound(w, code, ptr);
    Done(w6);
    var r5 := [WaitCall(-1, ptr)] + [];
    Before(w5, WaitCall(-1, ptr), []);
    var r4 := [Schedule(Dispatch)] + r5;
    Before(w4, Schedule(Dispatch), r5);
    var r3 := [Schedule(Exit(code))] + r4;
    Before(w3, Schedule(Exit(code)), r4);
    var r2 := [Schedule(Dispatch)] + r3;
    Before(w2, Schedule(Dispatch), r3);
    var r1 := [Schedule(Suspend)] + r2;
    Before(w1, Schedule(Suspend), r2);
    Before(w, ForkCall, r1);
    assert [ForkCall] + r1 == Round(code, ptr);
  }

  lemma ZombieFound(s: State, c: Id)
    requires s.current == Some(INIT) && INIT in s.tasks && s.tasks[INIT].children == [c] && FindZombie(s.tasks, s.tasks[INIT].children, -1) == 0
    ensures Reaped(s, -1) == Some(c)
  {
  }

  lemma Done(w: World)
    ensures CanAll(w, []) && HasFramesAll(w, []) && Outcome(w, []) == w
  {
  }

  // And again.

  lemma ForkedFrames(slot: Slot, pid: nat)
    requires slot.Alive?
    ensures SlotFrames(ForkedSpace(slot, pid)) == NewFrames(slot.space.pages.Keys)
  {
    hide SlotFrames, NewFrames, ForkedContext, StackTop, Copy, Stored;
    StoredFrames(Copy(slot.space), TRAP_VPN, ForkedContext(PageAt(slot, TRAP_VPN), StackTop(pid)));
    CopyFrames(slot.space);
  }

  lemma AnsweredFrames(slot: Slot, ptr: nat, code: int)
    requires PointsInto(slot, ptr)
    ensures var x := AnsweredSpace(slot, ptr, code);
            PointsInto(x, ptr) && x.space.pages.Keys == slot.space.pages.Keys && SlotFrames(x) == SlotFrames(slot)
  {
    hide SlotFrames, WithCode;
    StoredFrames(slot.space, ptr / PAGE_SIZE, WithCode(PageAt(slot, ptr / PAGE_SIZE), ptr % PAGE_SIZE, code));
  }

  /** A round leaves the frames as they were, but for the nodes that the kernel's page table keeps for the next one. */
  lemma RoundFrames(w: World, code: int, ptr: nat)
    requires Start(w, ptr)
    ensures var w', pid := AfterRound(w, code, ptr), PidAlloc(w.state.pids).0;
            Used(w') == Used(w) + NodesFor(w.kernel, StackLasts(pid))
  {
    hide Consistent, PidAlloc, StackLasts, Tables, SlotFrames, AnsweredSpace, PointsInto, Can;
    var x := AnsweredSpace(w.slots[INIT], ptr, code);
    AnsweredFrames(w.slots[INIT], ptr, code);
    FramesChanged(w.slots, INIT, x);
    FramesAdded(w.slots[INIT := x], Gone);
    GoneFrames();
    assert |w.state.tasks.Keys| == 1;
  }

  lemma GoneFrames()
    ensures SlotFrames(Gone) == 0
  {
  }

  /** What is in use after the fork of a process that runs alone. */
  lemma FrameDemand(w: World, ptr: nat)
    requires Start(w, ptr)
    ensures var pid := PidAlloc(w.state.pids).0;
            Used(Next(w, ForkCall)) == Tables(w.kernel + StackLasts(pid)) + 4 + InUse(w.slots) + NewFrames(w.slots[INIT].space.pages.Keys)
  {
    hide Consistent, PidAlloc, StackLasts, Tables, SlotFrames, Can, Next, ForkedSpace, NewFrames, PointsInto;
    var pid := PidAlloc(w.state.pids).0;
    ForkedWorld(w, ptr);
    ForkedFrames(w.slots[INIT], pid);
    FramesAdded(w.slots, ForkedSpace(w.slots[INIT], pid));
    PairCount(w.state.tasks[INIT].exitCode, Running, w.state.next, Child(pid, Ready, 0, 2));
  }

  lemma PairCount(e: int, status: Status, c: Id, child: Task)
    requires c != INIT
    ensures |Pair(e, status, c, child)| == 2
  {
    assert Pair(e, status, c, child).Keys == {INIT, c};
  }

  lemma CanForkAgain(w: World, code: int, ptr: nat)
    requires Start(w, ptr) && HasFrames(w, ForkCall)
    ensures var w' := AfterRound(w, code, ptr);
            Start(w', ptr) && PidAlloc(w'.state.pids).0 == PidAlloc(w.state.pids).0
  {
    hide Consistent, StackLasts, AnsweredSpace, PointsInto, HasFrames, CanAll, HasFramesAll, Outcome, Next, StackStart;
    OneRound(w, code, ptr);
    RunConsistent(w, Round(code, ptr));
    AnsweredFrames(w.slots[INIT], ptr, code);
  }

  lemma HasFramesAgain(w: World, code: int, ptr: nat)
    requires Start(w, ptr) && HasFrames(w, ForkCall)
    ensures var w' := AfterRound(w, code, ptr);
            Start(w', ptr) && HasFrames(w', ForkCall)
  {
    hide Consistent, PidAlloc, StackLasts, AnsweredSpace, PointsInto, Can, Next, Tables, NewFrames, Used, InUse, Alone, SlotFrames;
    StartPoints(w, ptr);
    var w', pid := AfterRound(w, code, ptr), PidAlloc(w.state.pids).0;
    CanForkAgain(w, code, ptr);
    FrameDemand(w, ptr);
    FrameDemand(w', ptr);
    AnsweredFrames(w.slots[INIT], ptr, code);
    SameSlots(w.slots, AnsweredSpace(w.slots[INIT], ptr, code));
    assert w.kernel + StackLasts(pid) + StackLasts(pid) == w.kernel + StackLasts(pid);
  }

  lemma SameSlots(slots: seq<Slot>, x: Slot)
    requires |slots| > 0 && SlotFrames(x) == SlotFrames(slots[INIT])
    ensures InUse(slots[INIT := x] + [Gone]) == InUse(slots)
  {
    hide SlotFrames, InUse;
    FramesChanged(slots, INIT, x);
    FramesAdded(slots[INIT := x], Gone);
    GoneFrames();
  }

  /** However often: if there are frames for one fork, there are for any number of rounds. */
  lemma {:induction false} ForkAndReapForever(w: World, code: int, ptr: nat, n: nat)
    requires Start(w, ptr) && HasFrames(w, ForkCall)
    ensures CanAll(w, Rounds(code, ptr, n)) && HasFramesAll(w, Rounds(code, ptr, n))
    decreases n
  {
    hide Start, HasFrames, CanAll, HasFramesAll, Outcome, Round, AfterRound;
    if n == 0 {
      Done(w);
    } else {
      StartPoints(w, ptr);
      OneRound(w, code, ptr);
      HasFramesAgain(w, code, ptr);
      ForkAndReapForever(AfterRound(w, code, ptr), code, ptr, n - 1);
      Join(w, Round(code, ptr), Rounds(code, ptr, n - 1));
    }
  }

  lemma StartPoints(w: World, ptr: nat)
    requires Start(w, ptr)
    ensures INIT in w.state.tasks && |w.slots| > INIT && PointsInto(w.slots[INIT], ptr)
  {
  }

  /** The initial process right after boot, with a page for the exit codes. */
  lemma BootStart(init: Program, sections: seq<Section>, env: Env, ptr: nat)
    requires ProgramOk(init) && env.satp < WORD && env.handler < WORD && StackStart(1) > env.top
    requires InArea(init.areas, ptr / PAGE_SIZE) && ptr / PAGE_SIZE != TRAP_VPN && ptr % PAGE_SIZE + 4 <= PAGE_SIZE
    ensures var w := BootWorld(init, sections, env);
            Can(w, Schedule(Dispatch)) && HasFrames(w, Schedule(Dispatch)) && Start(Next(w, Schedule(Dispatch)), ptr)
  {
    hide Consistent, LoadedSpace, ProgramOk, InArea, KernelLasts, StackLasts, StackStart;
    var w := BootWorld(init, sections, env);
    BootConsistent(init, sections, env);
    BootPages(init, sections, env, ptr / PAGE_SIZE);
    ScheduleNext(w, Dispatch);
    NextConsistent(w, Schedule(Dispatch));
    assert Next(w, Schedule(Dispatch)).state.tasks == map[INIT := Task(0, Running, None, [], 0, 2)];
  }

  /** From boot on: if there are frames for one fork, the initial process can fork and reap forever. */
  lemma BootThenForever(init: Program, sections: seq<Section>, env: Env, code: int, ptr: nat, n: nat)
    requires ProgramOk(init) && env.satp < WORD && env.handler < WORD && StackStart(1) > env.top
    requires InArea(init.areas, ptr / PAGE_SIZE) && ptr / PAGE_SIZE != TRAP_VPN && ptr % PAGE_SIZE + 4 <= PAGE_SIZE
    requires var w := BootWorld(init, sections, env);
             Used(w) + StackFrames(w.kernel, 1) + NewFrames(w.slots[INIT].space.pages.Keys) <= env.frames
    ensures var w, actions := BootWorld(init, sections, env), [Schedule(Dispatch)] + Rounds(code, ptr, n);
            CanAll(w, actions) && HasFramesAll(w, actions)
  {
    hide Consistent, BootWorld, Can, Next, CanAll, HasFramesAll, Outcome, ProgramOk, InArea, StackStart, Rounds;
    var w := BootWorld(init, sections, env);
    BootStart(init, sections, env, ptr);
    var w' := Next(w, Schedule(Dispatch));
    FirstFork(init, sections, env, ptr);
    ForkAndReapForever(w', code, ptr, n);
    Before(w, Schedule(Dispatch), Rounds(code, ptr, n));
  }

  lemma FirstFork(init: Program, sections: seq<Section>, env: Env, ptr: nat)
    requires var w := BootWorld(init, sections, env);
             && Used(w) + StackFrames(w.kernel, 1) + NewFrames(w.slots[INIT].space.pages.Keys) <= env.frames
             && Can(w, Schedule(Dispatch)) && Start(Next(w, Schedule(Dispatch)), ptr)
    ensures HasFrames(Next(BootWorld(init, sections, env), Schedule(Dispatch)), ForkCall)
  {
    hide Consistent, LoadedSpace, KernelLasts, StackLasts, Tables, NewFrames, InUse, PointsInto;
    var w := BootWorld(init, sections, env);
    var w' := Next(w, Schedule(Dispatch));
    assert w'.state.pids == Pids(1, []) && w'.slots == w.slots && w'.kernel == w.kernel && w'.env == env;
    FrameDemand(w', ptr);
    assert |w.state.tasks| == 1;
  }
}
