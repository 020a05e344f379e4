/**
 The whole machine: tasks, their address spaces, the kernel's address space with the kernel stacks, and
 one physical memory for all of them.
 */
module Machines {
  import opened Seqs
  import opened Paging
  import opened FrameAlloc
  import opened PageTree
  import opened MemorySets
  import opened MemoryOwners
  import opened MemorySystem
  import opened MainMemory
  import opened KernelStacks
  import opened TrapContexts
  import opened TaskModel
  import opened TaskRuns
  import opened TaskKernel
  import opened TaskStacks
  import opened ProcessMemory

  /** The world after boot: the initial process, loaded and ready. */
  ghost function BootWorld(init: Program, sections: seq<Section>, env: Env): World
  {
    World(TaskRuns.Boot, [LoadedSpace(init, 0, env)], KernelLasts(sections) + StackLasts(0), env)
  }

  lemma BootConsistent(init: Program, sections: seq<Section>, env: Env)
    requires ProgramOk(init) && env.satp < WORD && env.handler < WORD
    ensures Consistent(BootWorld(init, sections, env)) && LivePids(TaskRuns.Boot.tasks) == {0}
  {
    hide Inv, LoadedSpace, ProgramOk, Matching, Contexts, Enters, LivePids, KernelLasts, StackLasts;
    BootInv();
    LoadedEnters(init, 0, env);
    EntersAlive(LoadedSpace(init, 0, env), 0, env);
    OneTask();
    BootMatches(LoadedSpace(init, 0, env), env);
  }

  /** From boot on the initial process has exactly the pages of its areas. */
  lemma BootPages(init: Program, sections: seq<Section>, env: Env, v: nat)
    ensures var w := BootWorld(init, sections, env);
            |w.slots| == 1 && w.slots[0].Alive? && (v in w.slots[0].space.pages <==> InArea(init.areas, v))
  {
    hide Built, InitContext, StackTop, InArea, KernelLasts, StackLasts;
    BuiltPages(init.areas, v);
  }

  /** It starts at its entry point, on its own stack, with the bytes of its areas. */
  lemma BootStarts(init: Program, sections: seq<Section>, env: Env)
    requires ProgramOk(init) && env.satp < WORD && env.handler < WORD
    ensures var w := BootWorld(init, sections, env);
            |w.slots| == 1 && Starts(w.slots[0], init, env.satp, 0xffff_ffff_ffff_f000, env.handler)
  {
    hide LoadedSpace, ProgramOk, Starts, KernelLasts, StackLasts, StackTop;
    StackTopMeans(0);
    LoadedStarts(init, 0, env);
  }

  /** So a run from boot can store to any of them: dispatch, then the store. */
  lemma BootThenStore(init: Program, sections: seq<Section>, env: Env, v: nat, bytes: Frame)
    requires InArea(init.areas, v) && v != TRAP_VPN
    ensures var w, actions := BootWorld(init, sections, env), [Schedule(Dispatch), Write(v, bytes)];
            && CanAll(w, actions) && |Outcome(w, actions).slots| == 1
            && PageAt(Outcome(w, actions).slots[0], v) == bytes
  {
    hide LoadedSpace, InArea, KernelLasts, StackLasts;
    var w, actions := BootWorld(init, sections, env), [Schedule(Dispatch), Write(v, bytes)];
    BootPages(init, sections, env, v);
    var w1 := Next(w, actions[0]);
    assert w1.slots == w.slots && w1.state.current.Some? && w1.state.current.value == INIT;
    assert actions[1..] == [Write(v, bytes)];
    assert actions[1..][1..] == [];
    var w2 := Next(w1, Write(v, bytes));
    assert CanAll(w2, []) && Outcome(w2, []) == w2;
    assert CanAll(w1, actions[1..]) && Outcome(w1, actions[1..]) == w2;
  }

  lemma BootMatches(x: Slot, env: Env)
    requires x.Alive? && Enters(x, 0, env)
    ensures Matching(TaskRuns.Boot.tasks, 1, [x]) && Contexts(TaskRuns.Boot.tasks, [x], env)
  {
    hide Enters;
    assert TaskRuns.Boot.tasks.Keys == {INIT};
  }

  /** A frame belongs to the space of a task. */
  ghost predicate OfSomeTask(tasks: map<Id, Task>, owners: seq<set<nat>>, x: nat)
  {
    exists t :: t in tasks && t < |owners| && x in owners[t]
  }

  lemma TaskSlots(tasks: map<Id, Task>, next: Id, slots: seq<Slot>)
    requires Matching(tasks, next, slots)
    ensures forall t | t in tasks :: t < |slots| && !slots[t].Gone?
  {
  }

  lemma OwnersAreTasks(tasks: map<Id, Task>, next: Id, slots: seq<Slot>, owners: seq<set<nat>>, x: nat)
    requires Matching(tasks, next, slots) && |owners| == |slots| && forall i | 0 <= i < |slots| && slots[i].Gone? :: owners[i] == {}
    ensures OwnedBySome(owners, x) <==> OfSomeTask(tasks, owners, x)
  {
    if OwnedBySome(owners, x) {
      var t :| 0 <= t < |owners| && x in owners[t];
      assert t in tasks;
    }
  }

  lemma OwnersDiffer(owners: seq<set<nat>>)
    requires forall i, j | 0 <= i < j < |owners| :: owners[i] !! owners[j]
    ensures forall i, j | 0 <= i < |owners| && 0 <= j < |owners| && i != j :: owners[i] !! owners[j]
  {
  }

  /** A child was reaped exactly when the result is a pid, and then it is the child's. */
  lemma ReapedResult(s: State, pid: int)
    requires Inv(s) && s.current.Some? && s.current.value in s.tasks
    ensures var c := Reaped(s, pid);
            && (c.Some? <==> WaitResult(s, pid) >= 0)
            && (c.Some? ==> c.value in s.tasks && WaitResult(s, pid) == s.tasks[c.value].pid)
  {
    hide Inv;
    var kids := s.tasks[s.current.value].children;
    if Reaped(s, pid).Some? {
      ZombieMatches(s.tasks, kids, pid);
    }
  }

  class Machine {
    const kernel: Kernel
    const memory: SharedMemory
    /** The address of `trap_handler`. */
    const handler: nat

    constructor (kernel: Kernel, memory: SharedMemory, handler: nat)
      ensures this.kernel == kernel && this.memory == memory && this.handler == handler
    {
      this.kernel, this.memory, this.handler := kernel, memory, handler;
    }

    ghost function Environment(): Env
    {
      memory.Environment(handler)
    }

    ghost function Snapshot(): World
      reads kernel, kernel.pidAllocator, memory.spaces, memory.space.pageTable
    {
      World(kernel.Snapshot(), memory.spaces.slots, memory.space.pageTable.Lasts(), Environment())
    }

    ghost function Objects(): set<object>
      reads memory.space, memory.spaces
    {
      {kernel, kernel.pidAllocator, memory, memory.mem, memory.space, memory.space.pageTable}
      + (set a | a in memory.space.areas) + memory.spaces.repr + {memory.spaces}
    }

    /** The world is consistent, memory holds it, and the kernel stacks are those of the unreaped tasks. */
    ghost predicate Valid()
      reads kernel, kernel.pidAllocator, memory, memory.mem, memory.space, memory.space.areas, memory.space.pageTable, memory.spaces, memory.spaces.repr
    {
      && Consistent(Snapshot()) && memory.Valid() && memory.stacks == LivePids(kernel.tasks)
      && kernel !in memory.spaces.repr && kernel.pidAllocator !in memory.spaces.repr
    }

    /**
     Frame conservation: the frames in use are exactly those of the kernel's space and of the spaces of the
     unreaped tasks, and no frame belongs to two of them.
     */
    lemma FramesConserved()
      requires Valid()
      ensures forall t | t in kernel.tasks :: t < |memory.spaces.sets| == |memory.spaces.owners| && memory.spaces.owners[t] == memory.spaces.sets[t].Footprint()
      ensures forall x :: x in memory.mem.live <==> x in memory.space.Footprint() || OfSomeTask(kernel.tasks, memory.spaces.owners, x)
      ensures forall t | t in kernel.tasks :: memory.spaces.owners[t] !! memory.space.Footprint()
      ensures forall t, u | t in kernel.tasks && u in kernel.tasks && t != u :: memory.spaces.owners[t] !! memory.spaces.owners[u]
    {
      hide Inv, Contexts, SharedMemory.Valid, LivePids, NodeFrames, OfSomeTask, OwnedBySome, Matching, Shared;
      memory.FramesAccounted();
      memory.OwnersAre();
      var tasks, next, slots, owners := kernel.tasks, kernel.next, memory.spaces.slots, memory.spaces.owners;
      TaskSlots(tasks, next, slots);
      forall x ensures OwnedBySome(owners, x) <==> OfSomeTask(tasks, owners, x) {
        OwnersAreTasks(tasks, next, slots, owners, x);
      }
      OwnersDiffer(owners);
    }

    /** At any time every living task can trap into the kernel, on its own kernel stack. */
    lemma TrapsReady()
      requires Valid()
      ensures forall t | t in kernel.tasks && kernel.tasks[t].status != Zombie :: memory.TrapReady(t, kernel.tasks[t].pid, handler)
    {
      hide Inv, Matching, Contexts, SharedMemory.Valid, SharedMemory.TrapReady, Enters;
      forall t | t in kernel.tasks && kernel.tasks[t].status != Zombie ensures memory.TrapReady(t, kernel.tasks[t].pid, handler) {
        ContextAt(kernel.tasks, memory.spaces.slots, Environment(), t);
        assert kernel.tasks[t].pid in memory.stacks;
        memory.TrapFindsItsWay(t, kernel.tasks[t].pid, handler);
      }
    }

    /** The number of frames in use is a function of the world: every other frame is free. */
    lemma FramesCounted()
      requires Valid()
      ensures memory.mem.Free() == Snapshot().env.frames - Used(Snapshot()) >= 0
    {
      hide Inv, Matching, Contexts, SharedMemory.Valid, LivePids, Tables, InUse;
      memory.FramesCounted();
      StackCount(kernel.Snapshot());
    }

    /** `fork`. */
    method Fork() returns (pid: nat)
      requires Valid() && Can(Snapshot(), ForkCall) && HasFrames(Snapshot(), ForkCall)
      modifies Objects()
      ensures Valid() && Snapshot() == Next(old(Snapshot()), ForkCall) && fresh(Objects() - old(Objects()))
      ensures old(kernel.next) in kernel.tasks && pid == kernel.tasks[old(kernel.next)].pid && pid !in old(LivePids(kernel.tasks))
    {
      hide Inv, Matching, Contexts, SharedMemory.Valid, ForkStep, PidAlloc, LivePids, ForkedSpace, StackStart, StackLasts, StackFrames, Used, SlotFrames, HasFrames;
      ghost var w := Snapshot();
      FramesCounted();
      ForkFrames(w);
      NextConsistent(w, ForkCall);
      CurrentAlive(w.state, w.slots);
      var t := kernel.current.value;
      ContextAt(w.state.tasks, w.slots, w.env, t);
      ForkPidSet(w.state);
      pid := kernel.Fork();
      memory.ForkTask(t, pid);
    }

    /** `waitpid`: the exit code is stored for the caller, and the child's stack and address space are freed. */
    method Waitpid(pid: int, ptr: nat) returns (r: int)
      requires Valid() && Can(Snapshot(), WaitCall(pid, ptr))
      modifies Objects()
      ensures Valid() && Snapshot() == Next(old(Snapshot()), WaitCall(pid, ptr)) && fresh(Objects() - old(Objects()))
      ensures r == Answer(old(kernel.Snapshot()), pid)
    {
      hide Inv, Matching, Contexts, SharedMemory.Valid, WaitStep, WaitResult, LivePids, FindZombie, AnsweredSpace, PointsInto;
      ghost var w := Snapshot();
      NextConsistent(w, WaitCall(pid, ptr));
      CurrentAlive(w.state, w.slots);
      WaitMatches(w.state, pid, w.slots);
      WaitPidSet(w.state, pid);
      ReapedResult(w.state, pid);
      var t := kernel.current.value;
      var kids := kernel.tasks[t].children;
      var i := FindZombie(kernel.tasks, kids, pid);
      var code;
      r, code := kernel.Waitpid(pid);
      if i < |kids| {
        memory.ReapTask(t, kids[i], r, ptr, code.value);
      }
    }

    /** `exit`: the frames of the areas are free at once. */
    method Exit(code: int)
      requires Valid() && Can(Snapshot(), Schedule(TaskModel.Exit(code)))
      modifies Objects()
      ensures Valid() && Snapshot() == Next(old(Snapshot()), Schedule(TaskModel.Exit(code))) && fresh(Objects() - old(Objects()))
    {
      hide Inv, Matching, Contexts, SharedMemory.Valid, ExitStep, LivePids;
      ghost var w := Snapshot();
      NextConsistent(w, Schedule(TaskModel.Exit(code)));
      CurrentAlive(w.state, w.slots);
      QuietStep(w.state, TaskModel.Exit(code));
      var t, pid := kernel.current.value, kernel.tasks[kernel.current.value].pid;
      kernel.Exit(code);
      if pid != 0 {
        memory.Perform(Recycle(t));
      }
    }

    /** `exec`: a new address space replaces the old one. */
    method Exec(p: Program)
      requires Valid() && Can(Snapshot(), ExecCall(p)) && HasFrames(Snapshot(), ExecCall(p))
      modifies Objects()
      ensures Valid() && Snapshot() == Next(old(Snapshot()), ExecCall(p)) && fresh(Objects() - old(Objects()))
    {
      hide Inv, Matching, Contexts, SharedMemory.Valid, LivePids, LoadedSpace, ProgramOk, Used, SlotFrames;
      ghost var w := Snapshot();
      FramesCounted();
      NextConsistent(w, ExecCall(p));
      CurrentAlive(w.state, w.slots);
      var t := kernel.current.value;
      memory.ExecTask(t, p, kernel.tasks[t].pid, handler);
    }

    /** A store by the running task, or by the kernel on its behalf. */
    method WritePage(vpn: nat, bytes: Frame)
      requires Valid() && Can(Snapshot(), Write(vpn, bytes))
      modifies Objects()
      ensures Valid() && Snapshot() == Next(old(Snapshot()), Write(vpn, bytes)) && fresh(Objects() - old(Objects()))
    {
      hide Inv, Matching, Contexts, SharedMemory.Valid, LivePids, KeepsKernelWords, Stored;
      NextConsistent(Snapshot(), Write(vpn, bytes));
      memory.Perform(Store(kernel.current.value, vpn, bytes));
    }

    /** The steps that touch no memory. */
    method Quiet(e: Event)
      requires Valid() && Can(Snapshot(), Schedule(e)) && !e.Exit?
      modifies kernel, kernel.pidAllocator
      ensures Valid() && Snapshot() == Next(old(Snapshot()), Schedule(e))
    {
      hide Inv, Matching, Contexts, SharedMemory.Valid, LivePids, DispatchStep, SuspendStep, BeginReadStep, EndReadStep;
      NextConsistent(Snapshot(), Schedule(e));
      QuietStep(kernel.Snapshot(), e);
      match e {
        case Dispatch => kernel.Dispatch();
        case Suspend => kernel.Suspend();
        case BeginRead => kernel.BeginRead();
        case EndRead => kernel.EndRead();
      }
    }

    method Perform(a: Action)
      requires Valid() && Can(Snapshot(), a) && HasFrames(Snapshot(), a)
      modifies Objects()
      ensures Valid() && Snapshot() == Next(old(Snapshot()), a) && fresh(Objects() - old(Objects()))
    {
      hide Valid, Next, Enabled, ProgramOk, PidAlloc, HasFrames;
      match a {
        case Schedule(e) =>
          if e.Exit? {
            Exit(e.code);
          } else {
            Quiet(e);
          }
        case ForkCall => var pid := Fork();
        case WaitCall(pid, ptr) => var r := Waitpid(pid, ptr);
        case ExecCall(p) => Exec(p);
        case Write(vpn, bytes) => WritePage(vpn, bytes);
      }
    }

    /**
     Any run of the machine, as long as there are frames for each fork and exec when it happens, counting those
     that exit, exec and waitpid have given back by then. Throughout, the frames in use are those of the kernel's
     space and of the unreaped tasks.
     */
    method Run(actions: seq<Action>)
      requires Valid() && CanAll(Snapshot(), actions) && HasFramesAll(Snapshot(), actions)
      modifies Objects()
      ensures Valid() && Snapshot() == Outcome(old(Snapshot()), actions)
      decreases |actions|
    {
      hide Valid, Can, Next, HasFrames;
      if actions != [] {
        Perform(actions[0]);
        Run(actions[1..]);
      }
    }

    /** The machine around a memory that holds the initial process. */
    static method Assemble(memory: SharedMemory, handler: nat, ghost init: Program, ghost sections: seq<Section>) returns (m: Machine)
      requires memory.Valid() && memory.stacks == {} + {0} && ProgramOk(init) && handler < WORD && Token(memory.space.pageTable.rootPpn) < WORD
      requires memory.spaces.slots == [LoadedSpace(init, 0, memory.Environment(handler))]
      requires memory.space.pageTable.Lasts() == KernelLasts(sections) + StackLasts(0)
      ensures m.Valid() && fresh(m) && fresh(m.kernel) && fresh(m.kernel.pidAllocator) && m.memory == memory && m.handler == handler
      ensures m.Snapshot() == BootWorld(init, sections, memory.Environment(handler))
    {
      hide Inv, Matching, Contexts, SharedMemory.Valid, LivePids, LoadedSpace, ProgramOk, KernelLasts, StackLasts;
      var kernel := new Kernel();
      m := new Machine(kernel, memory, handler);
      BootConsistent(init, sections, memory.Environment(handler));
      OneTask();
    }

    /** The initial process: its address space and its kernel stack. */
    static method LoadFirst(memory: SharedMemory, handler: nat, init: Program, ghost sections: seq<Section>)
      requires memory.Valid() && memory.stacks == {} && memory.spaces.slots == [] && memory.space.pageTable.Lasts() == KernelLasts(sections)
      requires ProgramOk(init) && handler < WORD && StackStart(0) > memory.top
      requires memory.mem.Total() >= Used(BootWorld(init, sections, memory.Environment(handler)))
      modifies memory`stacks, memory.space, memory.space.pageTable, memory.mem, memory.spaces.repr, memory.spaces
      ensures memory.Valid() && memory.stacks == {} + {0} && Token(memory.space.pageTable.rootPpn) < WORD
      ensures memory.spaces.slots == [LoadedSpace(init, 0, memory.Environment(handler))]
      ensures memory.space.pageTable.Lasts() == KernelLasts(sections) + StackLasts(0)
      ensures fresh(memory.spaces.repr - old(memory.spaces.repr)) && forall a | a in memory.space.areas :: a in old(memory.space.areas) || fresh(a)
    {
      hide SharedMemory.Valid, LoadedSpace, ProgramOk, KernelLasts, StackLasts, Tables, StackStart, SlotFrames, Used;
      memory.RootBound();
      BootFrames(init, sections, memory.Environment(handler));
      memory.FramesCounted();
      memory.LoadTask(init, 0, handler);
      memory.FramesCounted();
      memory.AddStack(0);
    }

    /**
     Boot (os/src/main.rs:68-80): right after the frame allocator was initialised, build the kernel's space
     from its sections, load the initial process, and give it its kernel stack. `null` is the failing
     assertion when sections share a page.
     */
    static method Boot(mem: Memory, sections: seq<Section>, trampoline: nat, top: nat, handler: nat, init: Program) returns (m: Machine?)
      requires mem.Valid() && mem.live == {} && trampoline < PPN_LIMIT && handler < WORD && ProgramOk(init) && StackStart(0) > top
      requires forall i | 0 <= i < |sections| :: SectionOk(sections[i], top)
      requires var env := Env(Token(mem.NextFrame()), handler, top, mem.Total());
               Used(BootWorld(init, sections, env)) <= mem.Total()
      modifies mem
      ensures m != null <==> SectionsApart(sections)
      ensures m != null ==> fresh(m) && m.Valid() && m.memory.mem == mem && fresh(m.Objects() - {mem})
      ensures m != null ==> m.memory.sections == sections && m.memory.spaces.trampoline == trampoline && m.handler == handler
      ensures m != null ==> m.Snapshot() == BootWorld(init, sections, Env(Token(old(mem.NextFrame())), handler, top, mem.Total()))
    {
      hide Inv, Matching, Contexts, SharedMemory.Valid, LivePids, BootWorld, ProgramOk, SectionOk, SectionsApart, Memory.Valid, Used, KernelLasts, StackLasts, Tables,
           LoadedSpace;
      mem.FreeIsRest();
      BootFrames(init, sections, Env(Token(mem.NextFrame()), handler, top, mem.Total()));
      var memory := BootMemory(mem, sections, trampoline, top);
      if memory == null {
        return null;
      }
      LoadFirst(memory, handler, init, sections);
      m := Assemble(memory, handler, init, sections);
    }

    /** Boot and any run that can follow. */
    static method BootAndRun(mem: Memory, sections: seq<Section>, trampoline: nat, top: nat, handler: nat, init: Program, actions: seq<Action>)
      returns (m: Machine)
      requires mem.Valid() && mem.live == {} && trampoline < PPN_LIMIT && handler < WORD && ProgramOk(init) && StackStart(0) > top
      requires (forall i | 0 <= i < |sections| :: SectionOk(sections[i], top)) && SectionsApart(sections)
      requires var w := BootWorld(init, sections, Env(Token(mem.NextFrame()), handler, top, mem.Total()));
               Used(w) <= mem.Total() && CanAll(w, actions) && HasFramesAll(w, actions)
      modifies mem
      ensures m.Valid() && m.memory.mem == mem && m.memory.sections == sections && m.memory.spaces.trampoline == trampoline && m.handler == handler
      ensures m.Snapshot() == Outcome(BootWorld(init, sections, Env(Token(old(mem.NextFrame())), handler, top, mem.Total())), actions)
    {
      hide Machine.Valid, BootWorld, ProgramOk, SectionOk, SectionsApart, StackStart, Memory.Valid, Used;
      var booted := Boot(mem, sections, trampoline, top, handler, init);
      m := booted;
      m.Run(actions);
    }
  }

  /** What the parts of booting take of the frames that are in use afterwards. */
  lemma BootFrames(init: Program, sections: seq<Section>, env: Env)
    ensures Used(BootWorld(init, sections, env))
         == Tables(KernelLasts(sections)) + StackFrames(KernelLasts(sections), 0) + SlotFrames(LoadedSpace(init, 0, env))
    ensures InUse([LoadedSpace(init, 0, env)]) == SlotFrames(LoadedSpace(init, 0, env)) && InUse([]) == 0
    ensures Used(BootWorld(init, sections, env)) >= Tables(KernelLasts(sections)) && StackFrames(KernelLasts(sections), 0) >= 0
  {
    hide Tables, KernelLasts, StackLasts, LoadedSpace, SlotFrames;
    FramesAdded([], LoadedSpace(init, 0, env));
    assert [] + [LoadedSpace(init, 0, env)] == [LoadedSpace(init, 0, env)];
    StackNeedsSome(KernelLasts(sections), 0);
    assert |TaskRuns.Boot.tasks| == 1;
  }

  /**
   Booting takes few frames beside those of the program, also when the sections cover all physical memory: about one
   for each 512 pages below `top`.
   */
  lemma BootIsSmall(init: Program, sections: seq<Section>, top: nat, env: Env)
    requires forall i | 0 <= i < |sections| :: SectionOk(sections[i], top)
    ensures Used(BootWorld(init, sections, env)) <= 7 + top / 512 + top / 262144 + SlotFrames(LoadedSpace(init, 0, env))
  {
    hide Tables, SectionsLasts, SectionOk, StackLasts, LoadedSpace, SlotFrames, Used, BootWorld;
    BootFrames(init, sections, env);
    KernelIsSmall(sections, top);
    FirstStackLasts();
    assert KernelLasts(sections) + StackLasts(0) == KernelLasts(sections);
  }

  /** The first stack lies under the same last node as the trampoline. */
  lemma FirstStackLasts()
    ensures StackLasts(0) == {TRAMPOLINE_LAST}
  {
    var start := StackStart(0);
    assert forall v | v in Range(start, StackEnd(0)) :: v / 512 == TRAMPOLINE_LAST;
    assert start in Range(start, StackEnd(0));
  }

  /** A fork takes the frames of the copy and of the new stack. */
  lemma ForkFrames(w: World)
    requires Consistent(w) && Can(w, ForkCall) && HasFrames(w, ForkCall)
    ensures var t, pid := w.state.current.value, PidAlloc(w.state.pids).0;
            t < |w.slots| && w.env.frames - Used(w) >= SlotFrames(ForkedSpace(w.slots[t], pid)) + StackFrames(w.kernel, pid)
  {
    hide Inv, Matching, Contexts, ForkStep, PidAlloc, ForkedSpace, StackLasts, Tables, SlotFrames;
    var t, pid := w.state.current.value, PidAlloc(w.state.pids).0;
    ForkTaskCount(w.state);
    FramesAdded(w.slots, ForkedSpace(w.slots[t], pid));
  }
}
