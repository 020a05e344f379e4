/**
 Processes and their memory together: what each action of the kernel or of a running program means for
 the tasks and for their address spaces. The address space of task `t` is space `t`; it is copied at
 fork, replaced by exec, emptied at exit and freed when the task is reaped.
 */
module ProcessMemory {
  import opened Options
  import opened Seqs
  import opened Bytes
  import opened Paging
  import opened PageTree
  import opened TaskModel
  import opened TaskSteps
  import opened TaskRuns
  import opened MemorySystem
  import opened TrapContexts
  import opened KernelStacks

  /** A program to be loaded: its areas with the page of the trap context, and where it starts. */
  datatype Program = Program(areas: seq<AreaSpec>, entry: nat, sp: nat, sstatus: nat)

  /**
   What every trap context records of the kernel, the page below which the kernel's own areas end, and the
   number of frames there are.
   */
  datatype Env = Env(satp: nat, handler: nat, top: nat, frames: int)

  /** `kernel` are the keys of the last nodes of the kernel's page table. */
  datatype World = World(state: State, slots: seq<Slot>, kernel: set<nat>, env: Env)

  /** Scheduling steps and exit; the system calls that touch memory; a store to a page of the running task. */
  datatype Action =
    | Schedule(e: Event)
    | ForkCall
    | WaitCall(pid: int, ptr: nat)
    | ExecCall(program: Program)
    | Write(vpn: nat, bytes: Frame)

  ghost predicate ProgramOk(p: Program)
  {
    Loadable(p.areas) && InArea(p.areas, TRAP_VPN) && p.entry < WORD && p.sp < WORD && p.sstatus < WORD
  }

  /** A living task has an address space, a zombie an empty one, and a reaped task none. */
  ghost predicate Matching(tasks: map<Id, Task>, next: Id, slots: seq<Slot>)
  {
    && |slots| == next
    && (forall t | t in tasks :: t < next)
    && (forall t: nat | t < next :: slots[t].Gone? <==> t !in tasks)
    && (forall t | t in tasks :: slots[t].Exited? <==> tasks[t].status == Zombie)
  }

  ghost function PageAt(slot: Slot, v: nat): Frame
  {
    if slot.Alive? && v in slot.space.pages then slot.space.pages[v].bytes else ZeroFrame()
  }

  /** The trap context of an address space leads to this kernel and to the kernel stack of `pid`. */
  ghost predicate Enters(slot: Slot, pid: nat, env: Env)
  {
    slot.Alive? && TRAP_VPN in slot.space.pages && LeadsTo(PageAt(slot, TRAP_VPN), env.satp, StackTop(pid), env.handler)
  }

  /** Every living task enters the kernel on its own stack. */
  ghost predicate Contexts(tasks: map<Id, Task>, slots: seq<Slot>, env: Env)
  {
    forall t | t in tasks && tasks[t].status != Zombie :: t < |slots| && Enters(slots[t], tasks[t].pid, env)
  }

  ghost predicate Consistent(w: World)
  {
    && Inv(w.state) && Matching(w.state.tasks, w.state.next, w.slots) && Contexts(w.state.tasks, w.slots, w.env)
    && w.env.satp < WORD && w.env.handler < WORD
  }

  // The actions.

  /** The child that a `waitpid` takes, or none. */
  ghost function Reaped(s: State, pid: int): Option<Id>
    requires s.current.Some? && s.current.value in s.tasks
  {
    var kids := s.tasks[s.current.value].children;
    var i := FindZombie(s.tasks, kids, pid);
    if i < |kids| then Some(kids[i]) else None
  }

  /** The result of a `waitpid`. */
  ghost function Answer(s: State, pid: int): int
  {
    if s.current.Some? && s.current.value in s.tasks then WaitResult(s, pid) else -1
  }

  /** A pointer to four bytes inside one page of the program. */
  ghost predicate PointsInto(slot: Slot, ptr: nat)
  {
    slot.Alive? && ptr / PAGE_SIZE in slot.space.pages && ptr / PAGE_SIZE != TRAP_VPN && ptr % PAGE_SIZE + 4 <= PAGE_SIZE
  }

  /** There is a running task, and it is not waiting inside a read. */
  ghost predicate Calling(s: State)
  {
    !s.halted && s.current.Some? && s.current.value in s.tasks && s.current.value !in s.held
  }

  ghost predicate Can(w: World, a: Action)
  {
    var s := w.state;
    && |w.slots| == s.next && (s.current.Some? ==> s.current.value < s.next)
    && match a
       case Schedule(e) => Enabled(s, e) && !e.Fork? && !e.Wait?
       case ForkCall => Enabled(s, TaskModel.Fork) && StackStart(PidAlloc(s.pids).0) > w.env.top
       case WaitCall(pid, ptr) => Enabled(s, Wait(pid)) && (Reaped(s, pid).Some? ==> PointsInto(w.slots[s.current.value], ptr))
       case ExecCall(p) => Calling(s) && ProgramOk(p)
       case Write(vpn, bytes) =>
         && !s.halted && s.current.Some? && Allowed(w.slots, Store(s.current.value, vpn, bytes))
         && (vpn == TRAP_VPN ==> KeepsKernelWords(PageAt(w.slots[s.current.value], vpn), bytes))
  }

  /** Neither a trap nor the kernel's answer to a call changes the words that lead to the kernel. */
  ghost predicate KeepsKernelWords(page: Frame, page': Frame)
  {
    forall k | KERNEL_SATP <= k <= TRAP_HANDLER :: Word(page', k) == Word(page, k)
  }

  ghost function NextState(w: World, a: Action): State
    requires Can(w, a)
  {
    match a
    case Schedule(e) => Step(w.state, e)
    case ForkCall => Step(w.state, TaskModel.Fork)
    case WaitCall(pid, _) => Step(w.state, Wait(pid))
    case _ => w.state
  }

  /** The space of a zombie. */
  ghost function Emptied(slot: Slot): Slot
  {
    if slot.Alive? then Exited(slot.space.tables) else slot
  }

  /** The space of a forked child: a copy of the parent's, but for two words of the trap context. */
  ghost function ForkedSpace(slot: Slot, pid: nat): Slot
  {
    if slot.Alive? then Alive(Stored(Copy(slot.space), TRAP_VPN, ForkedContext(PageAt(slot, TRAP_VPN), StackTop(pid)))) else slot
  }

  /** The space of a loaded program, with its initial trap context. */
  ghost function LoadedSpace(p: Program, pid: nat, env: Env): Slot
  {
    var built := Built(p.areas);
    var page := PageAt(Alive(built), TRAP_VPN);
    Alive(Stored(built, TRAP_VPN, InitContext(page, p.entry, p.sp, p.sstatus, env.satp, StackTop(pid), env.handler)))
  }

  /** The caller's space after the exit code was stored for it. */
  ghost function AnsweredSpace(slot: Slot, ptr: nat, code: int): Slot
    requires PointsInto(slot, ptr)
  {
    var v := ptr / PAGE_SIZE;
    Alive(Stored(slot.space, v, WithCode(PageAt(slot, v), ptr % PAGE_SIZE, code)))
  }

  /** The effect of an action on the address spaces. */
  ghost function NextSlots(w: World, a: Action): seq<Slot>
    requires Can(w, a)
  {
    var s := w.state;
    if s.current.None? then w.slots
    else
      var t := s.current.value;
      match a
      case Schedule(e) => if e.Exit? && s.tasks[t].pid != 0 then w.slots[t := Emptied(w.slots[t])] else w.slots
      case ForkCall => w.slots + [ForkedSpace(w.slots[t], PidAlloc(s.pids).0)]
      case WaitCall(pid, ptr) =>
        var c := Reaped(s, pid);
        if c.Some? && c.value < |w.slots| && c.value in s.tasks
        then w.slots[t := AnsweredSpace(w.slots[t], ptr, s.tasks[c.value].exitCode)][c.value := Gone]
        else w.slots
      case ExecCall(p) => w.slots[t := LoadedSpace(p, s.tasks[t].pid, w.env)]
      case Write(vpn, bytes) => w.slots[t := Alive(Stored(w.slots[t].space, vpn, bytes))]
  }

  /** A new kernel stack may need new nodes in the kernel's page table, which stay when it goes. */
  ghost function NextKernel(w: World, a: Action): set<nat>
  {
    if a.ForkCall? then w.kernel + StackLasts(PidAlloc(w.state.pids).0) else w.kernel
  }

  ghost function Next(w: World, a: Action): World
    requires Can(w, a)
  {
    World(NextState(w, a), NextSlots(w, a), NextKernel(w, a), w.env)
  }

  /**
   The number of frames in use: the nodes of the kernel's page table, two frames for the kernel stack of each
   unreaped task, and the frames of the address spaces.
   */
  ghost function Used(w: World): nat
  {
    Tables(w.kernel) + 2 * |w.state.tasks| + InUse(w.slots)
  }

  /** There are frames for the action. While a program is loaded the old address space is still there. */
  ghost predicate HasFrames(w: World, a: Action)
    requires Can(w, a)
  {
    match a
    case ForkCall => Used(Next(w, a)) <= w.env.frames
    case ExecCall(p) => Used(w) + SlotFrames(LoadedSpace(p, w.state.tasks[w.state.current.value].pid, w.env)) <= w.env.frames
    case _ => true
  }

  ghost predicate CanAll(w: World, actions: seq<Action>)
    decreases |actions|
  {
    actions == [] || (Can(w, actions[0]) && CanAll(Next(w, actions[0]), actions[1..]))
  }

  ghost function Outcome(w: World, actions: seq<Action>): World
    requires CanAll(w, actions)
    decreases |actions|
  {
    if actions == [] then w else Outcome(Next(w, actions[0]), actions[1..])
  }

  /** At each action of the run there are frames for it, with those that have come back by then. */
  ghost predicate HasFramesAll(w: World, actions: seq<Action>)
    requires CanAll(w, actions)
    decreases |actions|
  {
    actions == [] || (HasFrames(w, actions[0]) && HasFramesAll(Next(w, actions[0]), actions[1..]))
  }

  // Tasks and address spaces keep matching.

  lemma CurrentAlive(s: State, slots: seq<Slot>)
    requires Inv(s) && s.current.Some? && Matching(s.tasks, s.next, slots)
    ensures s.current.value in s.tasks && s.tasks[s.current.value].status == Running
    ensures s.current.value < |slots| && slots[s.current.value].Alive?
  {
    hide Family, Counted, PidsOk, History;
    FrontIsReady(s);
  }

  lemma ForkMatches(s: State, slots: seq<Slot>, x: Slot)
    requires Inv(s) && s.current.Some? && s.current.value in s.tasks && Matching(s.tasks, s.next, slots) && x.Alive?
    ensures Matching(ForkStep(s).tasks, ForkStep(s).next, slots + [x])
  {
    hide Family, Counted, PidsOk, History, PidAlloc;
    FrontIsReady(s);
  }

  lemma ExitMatches(s: State, code: int, slots: seq<Slot>)
    requires Inv(s) && s.current.Some? && s.current.value in s.tasks && s.tasks[s.current.value].strong > 0 && Matching(s.tasks, s.next, slots)
    ensures var s' := ExitStep(s, code);
            Matching(s'.tasks, s'.next, if s.tasks[s.current.value].pid == 0 then slots else slots[s.current.value := Emptied(slots[s.current.value])])
  {
    hide Family, Counted, PidsOk, History;
    FrontIsReady(s);
  }

  lemma WaitMatches(s: State, pid: int, slots: seq<Slot>)
    requires Inv(s) && s.current.Some? && s.current.value in s.tasks && Matching(s.tasks, s.next, slots)
    ensures var c, s' := Reaped(s, pid), WaitStep(s, pid);
            if c.Some? then
              && c.value in s.tasks && s.tasks[c.value].status == Zombie && c.value < |slots| && slots[c.value].Exited? && c.value != s.current.value
              && Matching(s'.tasks, s'.next, slots[c.value := Gone]) && s'.reaped == s.reaped + [c.value]
            else s' == s
  {
    hide Scheduled, Family, Counted, PidsOk, History, FindZombie, WaitStep, TaskSteps.Removed, Matching;
    WaitRemoves(s, pid);
    WaitRest(s, pid);
    if Reaped(s, pid).Some? {
      RemovedMatches(s, WaitStep(s, pid), s.current.value, Reaped(s, pid).value, slots);
    }
  }

  lemma WaitRest(s: State, pid: int)
    requires s.current.Some? && s.current.value in s.tasks
    ensures var c, s' := Reaped(s, pid), WaitStep(s, pid);
            s'.next == s.next && (c.Some? ==> s'.reaped == s.reaped + [c.value])
  {
    hide FindZombie;
  }

  lemma RemovedMatches(s: State, s': State, p: Id, c: Id, slots: seq<Slot>)
    requires TaskSteps.Removed(s, s', p, c) && Matching(s.tasks, s.next, slots) && s'.next == s.next
    ensures c in s.tasks && s.tasks[c].status == Zombie && c != p && c < |slots| && slots[c].Exited? && Matching(s'.tasks, s'.next, slots[c := Gone])
  {
    hide NoDup;
    assert c in s.tasks;
  }

  lemma QuietMatches(s: State, e: Event, slots: seq<Slot>)
    requires Inv(s) && Enabled(s, e) && !e.Fork? && !e.Exit? && !e.Wait? && Matching(s.tasks, s.next, slots)
    ensures Matching(Step(s, e).tasks, Step(s, e).next, slots)
  {
    hide Family, Counted, PidsOk, History;
    FrontIsReady(s);
  }

  lemma AliveMatches(s: State, slots: seq<Slot>, t: Id, x: Slot)
    requires Matching(s.tasks, s.next, slots) && t < |slots| && slots[t].Alive? && x.Alive?
    ensures Matching(s.tasks, s.next, slots[t := x])
  {
  }

  // Trap contexts.

  /** Steps that keep pids and living tasks, and spaces that keep their trap contexts. */
  lemma ContextsKept(tasks: map<Id, Task>, tasks': map<Id, Task>, slots: seq<Slot>, slots': seq<Slot>, env: Env)
    requires Contexts(tasks, slots, env)
    requires forall t | t in tasks' && tasks'[t].status != Zombie :: t in tasks && tasks[t].status != Zombie && tasks'[t].pid == tasks[t].pid
    requires forall t | t in tasks' && tasks'[t].status != Zombie && t < |slots| :: t < |slots'| && slots'[t] == slots[t]
    ensures Contexts(tasks', slots', env)
  {
    hide Enters;
  }

  lemma StoredElsewhere(slot: Slot, v: nat, bytes: Frame, pid: nat, env: Env)
    requires Enters(slot, pid, env) && v != TRAP_VPN
    ensures Enters(Alive(Stored(slot.space, v, bytes)), pid, env)
  {
    hide LeadsTo;
  }

  lemma StoredContext(slot: Slot, bytes: Frame, pid: nat, env: Env)
    requires Enters(slot, pid, env) && KeepsKernelWords(PageAt(slot, TRAP_VPN), bytes)
    ensures Enters(Alive(Stored(slot.space, TRAP_VPN, bytes)), pid, env)
  {
    hide Word;
  }

  lemma ForkedEnters(slot: Slot, pid: nat, pid': nat, env: Env)
    requires Enters(slot, pid, env)
    ensures Enters(ForkedSpace(slot, pid'), pid', env)
  {
    hide LeadsTo, ForkedContext, StackTop;
    ForkedLeads(PageAt(slot, TRAP_VPN), env.satp, StackTop(pid), StackTop(pid'), env.handler);
  }

  lemma LoadedEnters(p: Program, pid: nat, env: Env)
    requires ProgramOk(p) && env.satp < WORD && env.handler < WORD
    ensures Enters(LoadedSpace(p, pid, env), pid, env) && TRAP_VPN in Built(p.areas).pages
  {
    hide LeadsTo, InitContext, StackTop, Built, Loadable, InArea;
    BuiltPages(p.areas, TRAP_VPN);
    InitLeads(PageAt(Alive(Built(p.areas)), TRAP_VPN), p.entry, p.sp, p.sstatus, env.satp, StackTop(pid), env.handler);
  }

  lemma OneContext(tasks: map<Id, Task>, slots: seq<Slot>, env: Env, t: Id, x: Slot)
    requires Contexts(tasks, slots, env) && t < |slots| && (t in tasks && tasks[t].status != Zombie ==> Enters(x, tasks[t].pid, env))
    ensures Contexts(tasks, slots[t := x], env)
  {
    hide Enters;
  }

  // Every action keeps the world consistent.

  lemma ScheduleConsistent(w: World, e: Event)
    requires Consistent(w) && Can(w, Schedule(e))
    ensures Consistent(Next(w, Schedule(e)))
  {
    hide Inv, Matching, Contexts;
    var s, s' := w.state, Step(w.state, e);
    StepInv(s, e);
    if e.Exit? {
      ExitMatches(s, e.code, w.slots);
      ExitContexts(s, e.code, w.slots, w.env);
    } else {
      QuietMatches(s, e, w.slots);
      QuietContexts(s, e, w.slots, w.env);
    }
  }

  lemma QuietContexts(s: State, e: Event, slots: seq<Slot>, env: Env)
    requires Inv(s) && Enabled(s, e) && !e.Fork? && !e.Exit? && !e.Wait? && Contexts(s.tasks, slots, env)
    ensures Contexts(Step(s, e).tasks, slots, env)
  {
    hide Family, Counted, PidsOk, History, Contexts;
    FrontIsReady(s);
    ContextsKept(s.tasks, Step(s, e).tasks, slots, slots, env);
  }

  lemma ExitContexts(s: State, code: int, slots: seq<Slot>, env: Env)
    requires Inv(s) && s.current.Some? && s.current.value in s.tasks && s.tasks[s.current.value].strong > 0 && s.current.value < |slots|
    requires Contexts(s.tasks, slots, env)
    ensures Contexts(ExitStep(s, code).tasks, if s.tasks[s.current.value].pid == 0 then slots else slots[s.current.value := Emptied(slots[s.current.value])], env)
  {
    hide Inv, Contexts;
    var t, s' := s.current.value, ExitStep(s, code);
    ContextsKept(s.tasks, s'.tasks, slots, if s.tasks[t].pid == 0 then slots else slots[t := Emptied(slots[t])], env);
  }

  lemma ForkConsistent(w: World)
    requires Consistent(w) && Can(w, ForkCall)
    ensures Consistent(Next(w, ForkCall))
  {
    hide Inv, Matching, Contexts, ForkStep, PidAlloc, ForkedSpace;
    var s, t := w.state, w.state.current.value;
    StepInv(s, TaskModel.Fork);
    CurrentAlive(s, w.slots);
    ContextAt(s.tasks, w.slots, w.env, t);
    ForkedEnters(w.slots[t], s.tasks[t].pid, PidAlloc(s.pids).0, w.env);
    var x := ForkedSpace(w.slots[t], PidAlloc(s.pids).0);
    assert x.Alive? by { EntersAlive(x, PidAlloc(s.pids).0, w.env); }
    ForkMatches(s, w.slots, x);
    ForkContexts(s, w.slots, w.env, x);
  }

  lemma ContextAt(tasks: map<Id, Task>, slots: seq<Slot>, env: Env, t: Id)
    requires Contexts(tasks, slots, env) && t in tasks && tasks[t].status != Zombie
    ensures t < |slots| && Enters(slots[t], tasks[t].pid, env) && slots[t].Alive? && TRAP_VPN in slots[t].space.pages
  {
  }

  lemma EntersAlive(x: Slot, pid: nat, env: Env)
    requires Enters(x, pid, env)
    ensures x.Alive?
  {
  }

  lemma ForkContexts(s: State, slots: seq<Slot>, env: Env, x: Slot)
    requires Inv(s) && s.current.Some? && s.current.value in s.tasks && |slots| == s.next && Contexts(s.tasks, slots, env)
    requires Enters(x, PidAlloc(s.pids).0, env)
    ensures Contexts(ForkStep(s).tasks, slots + [x], env)
  {
    hide Scheduled, Family, Counted, PidsOk, PidAlloc, Enters;
    var s' := ForkStep(s);
    forall t | t in s'.tasks && s'.tasks[t].status != Zombie ensures t < |slots + [x]| && Enters((slots + [x])[t], s'.tasks[t].pid, env) {
      assert t != s.next ==> t < |slots| && (slots + [x])[t] == slots[t];
    }
  }

  lemma WaitConsistent(w: World, pid: int, ptr: nat)
    requires Consistent(w) && Can(w, WaitCall(pid, ptr))
    ensures Consistent(Next(w, WaitCall(pid, ptr)))
  {
    hide Inv, Matching, Contexts, WaitStep, PointsInto, Reaped;
    var s, t := w.state, w.state.current.value;
    StepInv(s, Wait(pid));
    CurrentAlive(s, w.slots);
    WaitMatches(s, pid, w.slots);
    if Reaped(s, pid).Some? {
      var c := Reaped(s, pid).value;
      var x := AnsweredSpace(w.slots[t], ptr, s.tasks[c].exitCode);
      AliveMatches(s, w.slots, t, x);
      WaitMatches(s, pid, w.slots[t := x]);
      AnsweredContexts(s, w.slots, w.env, ptr, s.tasks[c].exitCode);
      WaitContexts(s, pid, w.slots[t := x], w.env);
    }
  }

  lemma AnsweredContexts(s: State, slots: seq<Slot>, env: Env, ptr: nat, code: int)
    requires s.current.Some? && s.current.value in s.tasks && s.tasks[s.current.value].status != Zombie && s.current.value < |slots|
    requires Contexts(s.tasks, slots, env) && PointsInto(slots[s.current.value], ptr)
    ensures Contexts(s.tasks, slots[s.current.value := AnsweredSpace(slots[s.current.value], ptr, code)], env)
  {
    hide Contexts, Enters, WithCode;
    var t := s.current.value;
    ContextAt(s.tasks, slots, env, t);
    StoredElsewhere(slots[t], ptr / PAGE_SIZE, WithCode(PageAt(slots[t], ptr / PAGE_SIZE), ptr % PAGE_SIZE, code), s.tasks[t].pid, env);
    OneContext(s.tasks, slots, env, t, AnsweredSpace(slots[t], ptr, code));
  }

  lemma WaitContexts(s: State, pid: int, slots: seq<Slot>, env: Env)
    requires Inv(s) && s.current.Some? && s.current.value in s.tasks && Contexts(s.tasks, slots, env)
    requires Reaped(s, pid).Some? && Reaped(s, pid).value < |slots|
    ensures Contexts(WaitStep(s, pid).tasks, slots[Reaped(s, pid).value := Gone], env)
  {
    hide Inv, Contexts, WaitStep, FindZombie, Enters, TaskSteps.Removed;
    var c, s' := Reaped(s, pid).value, WaitStep(s, pid);
    assert Family(s) by { FamilyOf(s); }
    WaitRemoves(s, pid);
    RemovedStatus(s, s', s.current.value, c);
    ContextsKept(s.tasks, s'.tasks, slots, slots[c := Gone], env);
  }

  lemma FamilyOf(s: State)
    requires Inv(s)
    ensures Family(s)
  {
  }

  lemma RemovedStatus(s: State, s': State, p: Id, c: Id)
    requires TaskSteps.Removed(s, s', p, c)
    ensures forall t | t in s'.tasks :: t in s.tasks && t != c && s'.tasks[t].status == s.tasks[t].status && s'.tasks[t].pid == s.tasks[t].pid
  {
    hide NoDup;
  }

  lemma ExecConsistent(w: World, p: Program)
    requires Consistent(w) && Can(w, ExecCall(p))
    ensures Consistent(Next(w, ExecCall(p)))
  {
    hide Inv, Matching, Contexts, ProgramOk, LoadedSpace, Enters;
    var s, t := w.state, w.state.current.value;
    CurrentAlive(s, w.slots);
    var x := LoadedSpace(p, s.tasks[t].pid, w.env);
    LoadedEnters(p, s.tasks[t].pid, w.env);
    assert x.Alive? by { EntersAlive(x, s.tasks[t].pid, w.env); }
    AliveMatches(s, w.slots, t, x);
    OneContext(s.tasks, w.slots, w.env, t, x);
  }

  lemma WriteConsistent(w: World, vpn: nat, bytes: Frame)
    requires Consistent(w) && Can(w, Write(vpn, bytes))
    ensures Consistent(Next(w, Write(vpn, bytes)))
  {
    hide Inv, Matching, Contexts, Enters, KeepsKernelWords, Stored;
    var s, t := w.state, w.state.current.value;
    CurrentAlive(s, w.slots);
    ContextAt(s.tasks, w.slots, w.env, t);
    var x := Alive(Stored(w.slots[t].space, vpn, bytes));
    if vpn == TRAP_VPN {
      StoredContext(w.slots[t], bytes, s.tasks[t].pid, w.env);
    } else {
      StoredElsewhere(w.slots[t], vpn, bytes, s.tasks[t].pid, w.env);
    }
    AliveMatches(s, w.slots, t, x);
    OneContext(s.tasks, w.slots, w.env, t, x);
  }

  lemma NextConsistent(w: World, a: Action)
    requires Consistent(w) && Can(w, a)
    ensures Consistent(Next(w, a))
  {
    hide Consistent, Can, Next;
    match a
    case Schedule(e) => ScheduleConsistent(w, e);
    case ForkCall => ForkConsistent(w);
    case WaitCall(pid, ptr) => WaitConsistent(w, pid, ptr);
    case ExecCall(p) => ExecConsistent(w, p);
    case Write(vpn, bytes) => WriteConsistent(w, vpn, bytes);
  }

  /** In every run each living task has an address space whose trap context leads to its own kernel stack. */
  lemma {:induction false} RunConsistent(w: World, actions: seq<Action>)
    requires Consistent(w) && CanAll(w, actions)
    ensures Consistent(Outcome(w, actions))
    decreases |actions|
  {
    hide Consistent, Can, Next;
    if actions != [] {
      NextConsistent(w, actions[0]);
      RunConsistent(Next(w, actions[0]), actions[1..]);
    }
  }

  // What the calls mean for memory.

  /**
   Fork: the child has the parent's pages, with the same flags, and the same bytes but for two words of
   the trap context: it returns 0 from the call, and enters the kernel on the stack of its own pid.
   */
  lemma ForkCopiesMemory(w: World)
    requires Consistent(w) && Can(w, ForkCall)
    ensures var t, w' := w.state.current.value, Next(w, ForkCall);
            && t < |w.slots| && w.slots[t].Alive? && |w'.slots| == |w.slots| + 1 && w'.slots[..|w.slots|] == w.slots
            && w'.slots[|w.slots|].Alive?
            && var parent, child := w.slots[t].space, w'.slots[|w.slots|].space;
               && child.spans == parent.spans && child.pages.Keys == parent.pages.Keys && TRAP_VPN in parent.pages
               && (forall v | v in parent.pages :: child.pages[v].flags == parent.pages[v].flags)
               && (forall v | v in parent.pages && v != TRAP_VPN :: child.pages[v] == parent.pages[v])
               && (forall k | 0 <= k < 512 ::
                     Word(child.pages[TRAP_VPN].bytes, k) == if k == 35 then StackTop(PidAlloc(w.state.pids).0) else if k == 10 then 0
                                                             else Word(parent.pages[TRAP_VPN].bytes, k))
  {
    hide Inv, Contexts, Matching, PidAlloc, StackTop, ForkedContext, Word, Step;
    var t := w.state.current.value;
    CurrentAlive(w.state, w.slots);
    ContextAt(w.state.tasks, w.slots, w.env, t);
    forall k | 0 <= k < 512 ensures Word(ForkedContext(PageAt(w.slots[t], TRAP_VPN), StackTop(PidAlloc(w.state.pids).0)), k)
        == if k == 35 then StackTop(PidAlloc(w.state.pids).0) else if k == 10 then 0 else Word(PageAt(w.slots[t], TRAP_VPN), k) {
      ForkedWords(PageAt(w.slots[t], TRAP_VPN), StackTop(PidAlloc(w.state.pids).0), k);
    }
  }

  /** A trap context with which a program starts at its entry point, on its own stack, with all other registers zero. */
  ghost predicate StartWords(page: Frame, p: Program, satp: nat, stackTop: nat, handler: nat)
  {
    forall k | 0 <= k < 37 ::
      Word(page, k) == if k == 2 then p.sp else if k < 32 then 0 else if k == 32 then p.sstatus else if k == 33 then p.entry
                       else if k == 34 then satp else if k == 35 then stackTop else handler
  }

  /** An address space as loading leaves it: the areas of the program with their bytes, and the trap context to start with. */
  ghost predicate Starts(slot: Slot, p: Program, satp: nat, stackTop: nat, handler: nat)
  {
    && slot.Alive? && (forall v :: v in slot.space.pages <==> InArea(p.areas, v))
    && (forall v | v in slot.space.pages && v != 0x7ff_fffe :: v in Built(p.areas).pages && slot.space.pages[v] == Built(p.areas).pages[v])
    && 0x7ff_fffe in slot.space.pages && StartWords(slot.space.pages[0x7ff_fffe].bytes, p, satp, stackTop, handler)
  }

  lemma LoadedStarts(p: Program, pid: nat, env: Env)
    requires ProgramOk(p) && env.satp < WORD && env.handler < WORD
    ensures Starts(LoadedSpace(p, pid, env), p, env.satp, StackTop(pid), env.handler)
  {
    hide InitContext, StackTop, Built, Loadable, InArea, Word;
    var page := PageAt(Alive(Built(p.areas)), TRAP_VPN);
    forall v: nat ensures v in Built(p.areas).pages <==> InArea(p.areas, v) {
      BuiltPages(p.areas, v);
    }
    forall k | 0 <= k < 37 ensures Word(InitContext(page, p.entry, p.sp, p.sstatus, env.satp, StackTop(pid), env.handler), k)
        == if k == 2 then p.sp else if k < 32 then 0 else if k == 32 then p.sstatus else if k == 33 then p.entry
           else if k == 34 then env.satp else if k == 35 then StackTop(pid) else env.handler {
      InitialWords(page, p.entry, p.sp, p.sstatus, env.satp, StackTop(pid), env.handler, k);
    }
  }

  /** From `w` to `w'` task `t` has got a new program, and every other task has kept its memory. */
  ghost predicate Started(w: World, w': World, t: Id, p: Program)
  {
    && t < |w'.slots| == |w.slots| && t in w.state.tasks && Starts(w'.slots[t], p, w.env.satp, StackTop(w.state.tasks[t].pid), w.env.handler)
    && w'.state == w.state && forall u | 0 <= u < |w.slots| && u != t :: w'.slots[u] == w.slots[u]
  }

  /** exec: the caller, and nobody else, gets the new program, and starts it at its entry point. */
  lemma ExecStarts(w: World, p: Program)
    requires Consistent(w) && Can(w, ExecCall(p))
    ensures w.state.current.Some? && Started(w, Next(w, ExecCall(p)), w.state.current.value, p)
  {
    hide Inv, Matching, Contexts, ProgramOk, LoadedSpace, Starts, StackTop;
    CurrentAlive(w.state, w.slots);
    LoadedStarts(p, w.state.tasks[w.state.current.value].pid, w.env);
  }

  /** The four bytes at `ptr` hold `code`, and nothing else differs between the two spaces. */
  ghost predicate OnlyCode(was: Space, now: Space, ptr: nat, code: int)
  {
    var v, o := ptr / PAGE_SIZE, ptr % PAGE_SIZE;
    && now.spans == was.spans && now.pages.Keys == was.pages.Keys && v in was.pages && o + 4 <= PAGE_SIZE
    && (forall u | u in was.pages && u != v :: now.pages[u] == was.pages[u]) && now.pages[v].flags == was.pages[v].flags
    && code % 0x1_0000_0000 == now.pages[v].bytes[o] as int + 256 * now.pages[v].bytes[o + 1] as int
                               + 65536 * now.pages[v].bytes[o + 2] as int + 16777216 * now.pages[v].bytes[o + 3] as int
    && (forall i | 0 <= i < PAGE_SIZE && !(o <= i < o + 4) :: now.pages[v].bytes[i] == was.pages[v].bytes[i])
  }

  /** From `w` to `w'` child `c` is gone and its exit code is stored at `ptr` in the space of `t`. */
  ghost predicate CodeDelivered(w: World, w': World, t: Id, c: Id, ptr: nat)
  {
    && t < |w.slots| == |w'.slots| && c < |w'.slots| && c != t && c in w.state.tasks && w'.slots[c].Gone?
    && w.slots[t].Alive? && w'.slots[t].Alive?
    && OnlyCode(w.slots[t].space, w'.slots[t].space, ptr, w.state.tasks[c].exitCode)
  }

  /** waitpid: the four bytes at the pointer hold the exit code of the reaped child; every other byte of the caller stays. */
  lemma WaitStoresCode(w: World, pid: int, ptr: nat)
    requires Consistent(w) && Can(w, WaitCall(pid, ptr)) && Reaped(w.state, pid).Some?
    ensures CodeDelivered(w, Next(w, WaitCall(pid, ptr)), w.state.current.value, Reaped(w.state, pid).value, ptr)
  {
    hide Inv, Contexts, Matching, Step, WithCode, Reaped;
    var t := w.state.current.value;
    CurrentAlive(w.state, w.slots);
    WaitMatches(w.state, pid, w.slots);
    var c := Reaped(w.state, pid).value;
    CodeStored(PageAt(w.slots[t], ptr / PAGE_SIZE), ptr % PAGE_SIZE, w.state.tasks[c].exitCode);
  }

  // The tasks of a run, without their memory.

  /** What an action is for the life cycle. */
  function EventsOf(a: Action): seq<Event>
  {
    match a
    case Schedule(e) => [e]
    case ForkCall => [TaskModel.Fork]
    case WaitCall(pid, _) => [Wait(pid)]
    case _ => []
  }

  function AllEvents(actions: seq<Action>): seq<Event>
  {
    if actions == [] then [] else EventsOf(actions[0]) + AllEvents(actions[1..])
  }

  /** A run of the machine is a run of the life cycle, so whatever holds in those holds here. */
  lemma {:induction false} TasksOfRun(w: World, actions: seq<Action>)
    requires CanAll(w, actions)
    ensures Possible(w.state, AllEvents(actions)) && Steps(w.state, AllEvents(actions)) == Outcome(w, actions).state
    decreases |actions|
  {
    hide NextSlots, NextKernel, Enabled, Step;
    if actions != [] {
      var a, w', rest := actions[0], Next(w, actions[0]), AllEvents(actions[1..]);
      TasksOfRun(w', actions[1..]);
      if EventsOf(a) == [] {
        assert EventsOf(a) + rest == rest;
      } else {
        var e := EventsOf(a)[0];
        assert EventsOf(a) + rest == [e] + rest && ([e] + rest)[1..] == rest;
        assert Enabled(w.state, e) && Step(w.state, e) == w'.state;
      }
    }
  }

  /** The code of a task that exits stays with it until it is reaped. */
  lemma ExitCodeStays(w: World, code: int, actions: seq<Action>)
    requires Consistent(w) && Can(w, Schedule(Exit(code))) && w.state.current.value != INIT
    requires CanAll(Next(w, Schedule(Exit(code))), actions)
    ensures var t, w' := w.state.current.value, Outcome(Next(w, Schedule(Exit(code))), actions);
            Consistent(w') && (t in w'.state.tasks ==> w'.state.tasks[t].exitCode == code)
  {
    hide Inv, Contexts, Matching, CanAll, Outcome, Steps, Possible, ChildOf;
    var w1, t := Next(w, Schedule(Exit(code))), w.state.current.value;
    NextConsistent(w, Schedule(Exit(code)));
    RunConsistent(w1, actions);
    TasksOfRun(w1, actions);
    ExitCodeDelivered(w.state, code, AllEvents(actions));
    var s' := Outcome(w1, actions).state;
    if t in s'.reaped {
      ReapedIsGone(s', t);
    }
  }

  /** The task that a waitpid would reap, if any. */
  ghost predicate WouldReap(w: World, pid: int, ptr: nat, t: Id)
  {
    Can(w, WaitCall(pid, ptr)) && Reaped(w.state, pid) == Some(t)
  }

  /**
   The way of an exit code: what a task passes to exit is what the waitpid that reaps it, after any run in
   between, stores at the pointer in the memory of its caller.
   */
  lemma ExitCodeArrives(w: World, code: int, actions: seq<Action>, pid: int, ptr: nat)
    requires Consistent(w) && Can(w, Schedule(Exit(code))) && w.state.current.value != INIT
    requires CanAll(Next(w, Schedule(Exit(code))), actions)
    requires WouldReap(Outcome(Next(w, Schedule(Exit(code))), actions), pid, ptr, w.state.current.value)
    ensures WaitStores(Outcome(Next(w, Schedule(Exit(code))), actions), pid, ptr, code)
  {
    hide Consistent, Next, CanAll, Outcome, OnlyCode, Reaped, StoredIn;
    ExitCodeStays(w, code, actions);
    ReaperGetsCode(Outcome(Next(w, Schedule(Exit(code))), actions), pid, ptr, w.state.current.value);
  }

  lemma ReaperGetsCode(w: World, pid: int, ptr: nat, t: Id)
    requires Consistent(w) && WouldReap(w, pid, ptr, t)
    ensures t in w.state.tasks && StoredIn(w, Next(w, WaitCall(pid, ptr)), w.state.current.value, ptr, w.state.tasks[t].exitCode)
  {
    hide Consistent, Next, OnlyCode, Reaped;
    WaitStoresCode(w, pid, ptr);
  }

  /** The waitpid stores `code` at `ptr` in the memory of its caller. */
  ghost predicate WaitStores(w: World, pid: int, ptr: nat, code: int)
  {
    && Can(w, WaitCall(pid, ptr)) && w.state.current.Some?
    && StoredIn(w, Next(w, WaitCall(pid, ptr)), w.state.current.value, ptr, code)
  }

  /** From `w` to `w'` only the four bytes at `ptr` in the space of `t` change, and they hold `code`. */
  ghost predicate StoredIn(w: World, w': World, t: Id, ptr: nat, code: int)
  {
    t < |w.slots| && t < |w'.slots| && w.slots[t].Alive? && w'.slots[t].Alive? && OnlyCode(w.slots[t].space, w'.slots[t].space, ptr, code)
  }

  // Isolation of processes over runs.

  /** Task `t` is not the running one at any action of the run. */
  ghost predicate NeverRuns(w: World, actions: seq<Action>, t: Id)
    requires CanAll(w, actions)
    decreases |actions|
  {
    actions == [] || (w.state.current != Some(t) && NeverRuns(Next(w, actions[0]), actions[1..], t))
  }

  lemma OnlyTheRunningTask(w: World, a: Action, t: Id)
    requires Consistent(w) && Can(w, a) && w.state.current != Some(t) && t < |w.slots| && w.slots[t].Alive?
    ensures var slots := Next(w, a).slots; t < |slots| && slots[t] == w.slots[t]
  {
    hide Inv, Matching, Contexts, Step, ForkedSpace, LoadedSpace, AnsweredSpace, Stored, PidAlloc, Reaped;
    if a.WaitCall? {
      CurrentAlive(w.state, w.slots);
      WaitMatches(w.state, a.pid, w.slots);
    }
  }

  /**
   While a living task does not run, its memory stays as it is, page for page, whatever the others
   do: schedule, fork, exec, exit, wait or write.
   */
  lemma {:induction false} MemoryIsPrivate(w: World, actions: seq<Action>, t: Id)
    requires Consistent(w) && CanAll(w, actions) && NeverRuns(w, actions, t) && t < |w.slots| && w.slots[t].Alive?
    ensures var slots := Outcome(w, actions).slots; t < |slots| && slots[t] == w.slots[t]
    decreases |actions|
  {
    hide Consistent, Can, Next;
    if actions != [] {
      NextConsistent(w, actions[0]);
      OnlyTheRunningTask(w, actions[0], t);
      MemoryIsPrivate(Next(w, actions[0]), actions[1..], t);
    }
  }
}
