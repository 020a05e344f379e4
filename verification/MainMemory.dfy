/**
 One physical memory (os/src/mm): the kernel's address space with its own areas and the kernel stacks,
 and beside it the address spaces of the tasks. Every frame in use belongs to exactly one of them.
 */
module MainMemory {
  import opened Options
  import opened Seqs
  import opened Paging
  import opened FrameAlloc
  import opened PageTree
  import opened PageTables
  import opened MemorySets
  import opened MemoryOwners
  import opened MemorySystem
  import opened KernelStacks
  import opened TrapContexts
  import opened TaskModel
  import opened ProcessMemory

  class SharedMemory {
    const mem: Memory
    const space: MemorySet
    const spaces: Spaces
    /** The kernel's own areas lie below this page. */
    const top: nat
    /** The kernel's own areas. */
    ghost const sections: seq<Section>
    /** The pids that have a kernel stack. */
    ghost var stacks: set<nat>

    constructor (mem: Memory, space: MemorySet, spaces: Spaces, top: nat, ghost sections: seq<Section>)
      requires mem.Valid() && space.Valid(mem) && space.extra == {TRAMPOLINE_VPN} && StacksOf(space.model, {}, top) && space.data == map[]
      requires spaces.mem == mem && spaces.Valid() && spaces.outside == space.Footprint()
      requires space !in spaces.repr && space.pageTable !in spaces.repr && forall a | a in space.areas :: a !in spaces.repr
      requires KernelMap(space.pageTable.table, sections, spaces.trampoline, top)
      ensures this.mem == mem && this.space == space && this.spaces == spaces && this.top == top && this.sections == sections
      ensures stacks == {} && Valid()
    {
      hide OwnedAt, Agrees, StacksOf, NodeFrames, Memory.Valid, MemorySet.Valid, Holds, Shared, Parted, TwoEach, KernelMap;
      this.mem, this.space, this.spaces, this.top, this.sections, stacks := mem, space, spaces, top, sections, {};
      new;
      HoldsOwned(space, mem);
      NoStacks();
    }

    ghost function Environment(handler: nat): Env
    {
      Env(Token(space.pageTable.rootPpn), handler, top, mem.Total())
    }

    ghost predicate Apart()
      reads this, space, spaces
    {
      && this !in spaces.repr && mem !in spaces.repr && space !in spaces.repr && space.pageTable !in spaces.repr
      && forall a | a in space.areas :: a !in spaces.repr
    }

    ghost predicate KernelSpace(ram: seq<Frame>, live: set<nat>)
      reads this, space, space.areas, space.pageTable
    {
      && OwnedAt(space, ram, live) && Agrees(space.model, space.pageTable.table, space.extra)
      && space.extra == {TRAMPOLINE_VPN} && StacksOf(space.model, stacks, top) && TwoEach(space.data, stacks)
      && KernelMap(space.pageTable.table, sections, spaces.trampoline, top)
    }

    /** The number of frames in use. */
    ghost function Taken(): nat
      reads this, space.pageTable, spaces
    {
      Tables(space.pageTable.Lasts()) + 2 * |stacks| + InUse(spaces.slots)
    }

    lemma FramesCounted()
      requires Valid()
      ensures mem.Free() == mem.Total() - Taken() >= 0
      ensures mem.Free() == spaces.Room() - InUse(spaces.slots)
    {
      hide Spaces.ValidAt, OwnedAt, Agrees, StacksOf, NodeFrames, Memory.Valid, Tables, KernelMap;
      spaces.FramesCounted();
      HoldsOwned(space, mem);
      space.FootprintCount(mem);
      FreeFrames(mem);
    }

    ghost predicate Valid()
      reads this, mem, space, space.areas, space.pageTable, spaces, spaces.repr
    {
      && Apart() && KernelSpace(mem.ram, mem.live) && spaces.mem == mem && spaces.Valid() && spaces.outside == space.Footprint()
    }

    /** The frames in use are those of the kernel's space and of the tasks' spaces, each of one of them only. */
    lemma FramesAccounted()
      requires Valid()
      ensures Shared(space.Footprint(), spaces.owners, mem.live)
      ensures forall x :: x in mem.live <==> x in space.Footprint() || OwnedBySome(spaces.owners, x)
      ensures forall i | 0 <= i < |spaces.owners| :: spaces.owners[i] !! space.Footprint()
      ensures forall i, j | 0 <= i < j < |spaces.owners| :: spaces.owners[i] !! spaces.owners[j]
    {
      hide KernelSpace, Holds, Memory.Valid, Parted, NodeFrames;
      SharedMeans(space.Footprint(), spaces.owners, mem.live);
    }

    /** In the kernel's space every page of a section is that frame, with the permissions of the section. */
    lemma SectionSeen(i: nat, v: nat)
      requires Valid() && i < |sections| && InSection(sections[i], v)
      ensures var perm := sections[i].perm;
              HardwareWalk(mem.ram, space.pageTable.rootPpn, v, 0)
              == if perm / 2 % 2 == 1 || (perm / 8 % 2 == 1 && perm / 4 % 2 == 0) then var withV: nat := perm + (1 - perm % 2); Some((v, withV)) else None
    {
      hide Tree, NodeFrames, NoDup, Full, Held, Agrees, StacksOf, TwoEach, Spaces.ValidAt, Memory.Valid, MemorySet.Listed, HardwareWalk, SectionOk, InSection,
           Injective, Entry, WithV;
      var perm := sections[i].perm;
      InSectionBelow(sections[i], v, top);
      assert Identical(space.pageTable.table, v, perm);
      EntryMeans(v, perm);
      MappedMeans(space.pageTable.nodes, mem.ram, space.pageTable.table, v, v, perm);
    }

    /** Page `v` of the kernel's space is a frame of a stack, readable and writable. */
    ghost predicate StackPage(v: int)
      reads space, space.pageTable, mem
    {
      v >= 0 && v in space.data && HardwareWalk(mem.ram, space.pageTable.rootPpn, v, 0) == Some((space.data[v], 7))
    }

    /** Both pages of every stack are there. */
    lemma StackSeen(id: nat, v: nat)
      requires Valid() && id in stacks && StackStart(id) <= v < StackEnd(id)
      ensures StackPage(v)
    {
      hide Tree, NodeFrames, NoDup, Full, StacksOf, TwoEach, Spaces.ValidAt, Memory.Valid, MemorySet.Listed, HardwareWalk, KernelMap, Injective,
           Held, Agrees, FirstAt, Entry, WithV, IsStack, StackStart, StackEnd;
      StackIndex(space.model, stacks, top, id);
      StackPageMapped(space.model, space.pageTable.table, space.data, space.extra, FirstAt(space.model, StackStart(id)), id, v);
      MappedMeans(space.pageTable.nodes, mem.ram, space.pageTable.table, v, space.data[v], R + W);
    }

    lemma TrampolineSeen()
      requires Valid()
      ensures HardwareWalk(mem.ram, space.pageTable.rootPpn, 0x7ff_ffff, 0) == Some((spaces.trampoline, 11))
    {
      hide Tree, NodeFrames, NoDup, Full, Held, Agrees, StacksOf, TwoEach, Spaces.ValidAt, Memory.Valid, MemorySet.Listed, HardwareWalk, SectionOk,
           SectionsIdentical, Injective, Entry, WithV;
      EntryMeans(spaces.trampoline, R + X);
      MappedMeans(space.pageTable.nodes, mem.ram, space.pageTable.table, 0x7ff_ffff, spaces.trampoline, R + X);
    }

    /**
     A trap of task `t` finds its way: its trap context names the kernel's page table, the end of the stack of `pid`
     and the handler; that stack is mapped; and the page of the code that switches the tables is the same in both.
     */
    ghost predicate TrapReady(t: nat, pid: nat, handler: nat)
      reads this, space, space.pageTable, mem, spaces, spaces.repr
    {
      && t < |spaces.slots| == |spaces.sets| && spaces.slots[t].Alive? && 0x7ff_fffe in spaces.slots[t].space.pages
      && (var context := spaces.slots[t].space.pages[0x7ff_fffe].bytes;
          && Word(context, 34) == 0x8000_0000_0000_0000 + space.pageTable.rootPpn
          && VirtAddr(Word(context, 35)) == PAGE_SIZE * StackEnd(pid) && Word(context, 36) == handler)
      && StackPage(StackEnd(pid) - 1) && StackPage(StackEnd(pid) - 2)
      && spaces.Within()
      && HardwareWalk(mem.ram, spaces.sets[t].pageTable.rootPpn, 0x7ff_ffff, 0) == Some((spaces.trampoline, 11))
      && HardwareWalk(mem.ram, space.pageTable.rootPpn, 0x7ff_ffff, 0) == Some((spaces.trampoline, 11))
    }

    lemma TrapFindsItsWay(t: nat, pid: nat, handler: nat)
      requires Valid() && pid in stacks && t < |spaces.slots| && Enters(spaces.slots[t], pid, Environment(handler))
      ensures TrapReady(t, pid, handler)
    {
      hide KernelSpace, Holds, Parted, Shared, Memory.Valid, HardwareWalk, Word, StackTop, VirtAddr, StackPage, NodeFrames;
      StackStarts(pid);
      StackTopMeans(pid);
      StackSeen(pid, StackEnd(pid) - 1);
      StackSeen(pid, StackEnd(pid) - 2);
      TrampolineSeen();
      spaces.TrampolineSeen(t);
    }

    lemma StackStarts(id: nat)
      requires Valid() && id in stacks
      ensures StackStart(id) >= 0
    {
      hide Spaces.ValidAt, OwnedAt, Agrees, NodeFrames, Memory.Valid, KernelMap, HasStack, Known;
    }

    /** The owners are the footprints of the spaces that are not gone. */
    lemma OwnersAre()
      requires Valid()
      ensures |spaces.owners| == |spaces.sets| == |spaces.slots|
      ensures forall i | 0 <= i < |spaces.sets| ::
                spaces.owners[i] == if spaces.slots[i].Gone? then {} else spaces.sets[i].Footprint()
    {
      hide KernelSpace, OwnedAt, Agrees, Memory.Valid, Parted, NodeFrames, Shared, Shows, Spans, Trampoline;
    }

    /** After an operation on the tasks' spaces the kernel's space is as it was. */
    lemma KernelStays(r: seq<Frame>, l: set<nat>)
      requires KernelSpace(r, l) && Unwritten(r, mem.ram, space.Footprint()) && space.Footprint() <= mem.live
      ensures KernelSpace(mem.ram, mem.live)
    {
      hide OwnedAt, Agrees, StacksOf, Unwritten, NodeFrames, TwoEach, KernelMap;
      OwnedStill(space, r, mem.ram, l, mem.live);
    }

    /** Any operation on the tasks' spaces. */
    method Perform(op: Op)
      requires Valid() && Allowed(spaces.slots, op) && Fits(mem.Free() + InUse(spaces.slots), spaces.slots, op)
      modifies spaces.repr, mem
      ensures Valid() && spaces.slots == Apply(old(spaces.slots), op) && fresh(spaces.repr - old(spaces.repr))
      ensures mem.Free() + InUse(spaces.slots) == old(mem.Free() + InUse(spaces.slots))
      ensures stacks == old(stacks) && space.areas == old(space.areas) && space.pageTable.Lasts() == old(space.pageTable.Lasts())
    {
      hide Spaces.ValidAt, Unwritten, OwnedAt, Agrees, StacksOf, NodeFrames, Memory.Valid, Allowed, Fits, Apply, TwoEach, KernelMap, InUse;
      ghost var r, l := mem.ram, mem.live;
      spaces.FramesCounted();
      spaces.Perform(op);
      spaces.OutsideLive();
      KernelStays(r, l);
      spaces.FramesCounted();
    }

    /** The bytes of a page of a task. */
    method Read(i: nat, vpn: nat) returns (bytes: Frame)
      requires Valid() && i < |spaces.slots| && spaces.slots[i].Alive? && vpn in spaces.slots[i].space.pages
      ensures bytes == spaces.slots[i].space.pages[vpn].bytes
    {
      bytes := spaces.LoadFrom(i, vpn);
    }

    /** A new space for a program. */
    method Load(areas: seq<AreaSpec>)
      requires Valid() && Loadable(areas) && mem.Free() >= SlotFrames(Alive(Built(areas)))
      modifies spaces.repr, mem
      ensures Valid() && spaces.slots == old(spaces.slots) + [Alive(Built(areas))] && fresh(spaces.repr - old(spaces.repr))
      ensures mem.Free() + InUse(spaces.slots) == old(mem.Free() + InUse(spaces.slots))
      ensures stacks == old(stacks) && space.areas == old(space.areas) && space.pageTable.Lasts() == old(space.pageTable.Lasts())
    {
      hide Spaces.ValidAt, Unwritten, OwnedAt, Agrees, StacksOf, NodeFrames, Memory.Valid, Loadable, Built, TwoEach, KernelMap, InUse, SlotFrames;
      ghost var r, l := mem.ram, mem.live;
      spaces.FramesCounted();
      spaces.CreateFrom(areas);
      spaces.OutsideLive();
      KernelStays(r, l);
      spaces.FramesCounted();
    }

    /** The last space takes the place of space `i`. */
    method ReplaceByLast(i: nat)
      requires Valid() && i < |spaces.slots| - 1 && !spaces.slots[i].Gone?
      modifies spaces.repr, mem
      ensures Valid() && spaces.slots == old(spaces.slots)[..|old(spaces.slots)| - 1][i := old(spaces.slots)[|old(spaces.slots)| - 1]]
      ensures spaces.repr == old(spaces.repr)
      ensures stacks == old(stacks) && space.areas == old(space.areas) && space.pageTable.Lasts() == old(space.pageTable.Lasts())
    {
      hide Spaces.ValidAt, Unwritten, OwnedAt, Agrees, StacksOf, NodeFrames, Memory.Valid, TwoEach, KernelMap;
      ghost var r, l := mem.ram, mem.live;
      spaces.ReplaceByLast(i);
      spaces.OutsideLive();
      KernelStays(r, l);
    }

    lemma RootBound()
      requires Valid()
      ensures Token(space.pageTable.rootPpn) < WORD
    {
      hide Spaces.ValidAt, Agrees, StacksOf, Held, Injective, Memory.Valid, MemorySet.Listed, KernelMap;
      RootInMemory(space.pageTable.nodes, mem.ram, space.pageTable.table);
    }

    /** After a change of the kernel's space the tasks' spaces are as they were. */
    ghost method Resume(r: seq<Frame>, l: set<nat>)
      requires Apart() && mem.Valid() && KernelSpace(mem.ram, mem.live) && spaces.mem == mem && spaces.ValidAt(r, l)
      requires Confined(r, mem.ram, l, mem.live, spaces.outside, space.Footprint())
      modifies spaces`outside
      ensures Valid() && spaces.outside == space.Footprint()
    {
      hide KernelSpace, Spaces.ValidAt, Memory.Valid, Confined, NodeFrames;
      spaces.Resume(r, l, space.Footprint());
    }

    /** `KernelStack::new` for a pid without a stack. */
    method AddStack(id: nat)
      requires Valid() && id !in stacks && StackStart(id) > top && mem.Free() >= StackFrames(space.pageTable.Lasts(), id)
      modifies this`stacks, space, space.pageTable, mem, spaces`outside
      ensures Valid() && stacks == old(stacks) + {id}
      ensures space.pageTable.Lasts() == old(space.pageTable.Lasts()) + StackLasts(id) && forall a | a in space.areas :: a in old(space.areas) || fresh(a)
    {
      hide KernelSpace, Spaces.ValidAt, NodeFrames, Memory.Valid, Confined, StackStart, StackLasts, StackFrames;
      ghost var r, l := mem.ram, mem.live;
      AddKernelStack(id);
      Resume(r, l);
    }

    method AddKernelStack(id: nat)
      requires mem.Valid() && KernelSpace(mem.ram, mem.live)
      requires id !in stacks && StackStart(id) > top && mem.Free() >= StackFrames(space.pageTable.Lasts(), id)
      modifies this`stacks, space, space.pageTable, mem
      ensures mem.Valid() && KernelSpace(mem.ram, mem.live) && stacks == old(stacks) + {id}
      ensures Confined(old(mem.ram), mem.ram, old(mem.live), mem.live, old(space.Footprint()), space.Footprint())
      ensures space.pageTable.Lasts() == old(space.pageTable.Lasts()) + StackLasts(id) && forall a | a in space.areas :: a in old(space.areas) || fresh(a)
    {
      hide OwnedAt, Agrees, StacksOf, NodeFrames, Memory.Valid, Confined, MemorySet.Valid, StackStart, TwoEach, KernelMap, StackLasts, StackFrames, PageCount;
      HoldsOwned(space, mem);
      ghost var ids := stacks;
      stacks := stacks + {id};
      NewStack(space, mem, id, ids, top);
      KernelMapKept(old(space.pageTable.table), space.pageTable.table, sections, spaces.trampoline, top);
      HoldsOwned(space, mem);
      TwoMore(old(space.data), space.data, ids, id);
    }

    /** Dropping the `KernelStack` of a pid. */
    method RemoveStack(id: nat)
      requires Valid() && id in stacks
      modifies this`stacks, space, space.areas, space.pageTable, mem, spaces`outside
      ensures Valid() && stacks == old(stacks) - {id}
      ensures space.pageTable.Lasts() == old(space.pageTable.Lasts()) && forall a | a in space.areas :: a in old(space.areas)
    {
      hide KernelSpace, Spaces.ValidAt, NodeFrames, Memory.Valid, Confined;
      ghost var r, l := mem.ram, mem.live;
      RemoveKernelStack(id);
      Resume(r, l);
    }

    method RemoveKernelStack(id: nat)
      requires mem.Valid() && KernelSpace(mem.ram, mem.live) && id in stacks
      modifies this`stacks, space, space.areas, space.pageTable, mem
      ensures mem.Valid() && KernelSpace(mem.ram, mem.live) && stacks == old(stacks) - {id}
      ensures Confined(old(mem.ram), mem.ram, old(mem.live), mem.live, old(space.Footprint()), space.Footprint())
      ensures space.pageTable.Lasts() == old(space.pageTable.Lasts()) && forall a | a in space.areas :: a in old(space.areas)
    {
      hide OwnedAt, Agrees, StacksOf, NodeFrames, Memory.Valid, Confined, MemorySet.Valid, StackStart, StackEnd, Range, TwoEach, KernelMap, PageCount;
      HoldsOwned(space, mem);
      ghost var ids := stacks;
      StackLeavesMap(space.model, space.pageTable.table, ids, id, sections, spaces.trampoline, top);
      stacks := stacks - {id};
      DropStack(space, mem, id, ids, top);
      HoldsOwned(space, mem);
      TwoLess(old(space.data), space.data, ids, id);
      assert StacksOf(space.model, stacks, top);
      assert KernelMap(space.pageTable.table, sections, spaces.trampoline, top);
    }

    /** The memory of a fork: the copied space with the child's own trap context, and its kernel stack. */
    method ForkTask(t: nat, pid: nat)
      requires Valid() && t < |spaces.slots| && spaces.slots[t].Alive? && TRAP_VPN in spaces.slots[t].space.pages
      requires pid !in stacks && StackStart(pid) > top
      requires mem.Free() >= SlotFrames(ForkedSpace(spaces.slots[t], pid)) + StackFrames(space.pageTable.Lasts(), pid)
      modifies this, space, space.pageTable, mem, spaces, spaces.repr
      ensures Valid() && spaces.slots == old(spaces.slots) + [ForkedSpace(old(spaces.slots)[t], pid)] && stacks == old(stacks) + {pid}
      ensures fresh(spaces.repr - old(spaces.repr)) && forall a | a in space.areas :: a in old(space.areas) || fresh(a)
      ensures space.pageTable.Lasts() == old(space.pageTable.Lasts()) + StackLasts(pid)
    {
      hide Valid, Apply, Allowed, ForkedSpace, StackTop, StackStart, ForkedContext, StackFrames, StackLasts, SlotFrames, InUse;
      ForkSlots(spaces.slots, t, pid);
      StackNeedsSome(space.pageTable.Lasts(), pid);
      Lengths();
      var child := |spaces.sets|;
      Perform(MemorySystem.Fork(t));
      AddStack(pid);
      var page := Read(child, TRAP_VPN);
      Perform(Store(child, TRAP_VPN, ForkedContext(page, StackTop(pid))));
    }

    lemma Lengths()
      requires Valid()
      ensures |spaces.sets| == |spaces.slots|
    {
      spaces.Lengths();
    }

    /** The memory of a waitpid: the code is stored for the caller; the child's stack and space are freed. */
    method ReapTask(t: nat, c: nat, pid: nat, ptr: nat, code: int)
      requires Valid() && t < |spaces.slots| && c < |spaces.slots| && c != t && PointsInto(spaces.slots[t], ptr) && !spaces.slots[c].Gone?
      requires pid in stacks
      modifies this, space, space.areas, space.pageTable, mem, spaces, spaces.repr
      ensures Valid() && spaces.slots == old(spaces.slots)[t := AnsweredSpace(old(spaces.slots)[t], ptr, code)][c := Gone]
      ensures stacks == old(stacks) - {pid} && fresh(spaces.repr - old(spaces.repr))
      ensures space.pageTable.Lasts() == old(space.pageTable.Lasts()) && forall a | a in space.areas :: a in old(space.areas)
    {
      hide Valid, Apply, Allowed, PointsInto, AnsweredSpace, WithCode;
      WaitSlots(spaces.slots, t, c, ptr, code);
      Pointed(spaces.slots[t], ptr);
      var page := Read(t, ptr / PAGE_SIZE);
      Perform(Store(t, ptr / PAGE_SIZE, WithCode(page, ptr % PAGE_SIZE, code)));
      RemoveStack(pid);
      Perform(Drop(c));
    }

    /** The memory of an exec: a loaded program with its initial trap context takes the place of the old space. */
    method ExecTask(t: nat, p: Program, pid: nat, handler: nat)
      requires Valid() && t < |spaces.slots| && spaces.slots[t].Alive? && ProgramOk(p) && handler < WORD
      requires Token(space.pageTable.rootPpn) < WORD && mem.Free() >= SlotFrames(LoadedSpace(p, pid, Environment(handler)))
      modifies spaces.repr, mem
      ensures Valid() && spaces.slots == old(spaces.slots)[t := LoadedSpace(p, pid, Environment(handler))]
      ensures stacks == old(stacks) && space.areas == old(space.areas) && fresh(spaces.repr - old(spaces.repr))
      ensures space.pageTable.Lasts() == old(space.pageTable.Lasts())
    {
      hide Valid, Apply, Allowed, Built, InitContext, LoadedSpace, Loadable, StackTop, SlotFrames, InUse;
      ghost var slots, n0 := spaces.slots, |spaces.slots|;
      Lengths();
      var n := |spaces.sets|;
      LoadTask(p, pid, handler);
      ReplaceByLast(t);
      assert (slots + [LoadedSpace(p, pid, Environment(handler))])[..n0] == slots;
    }

    /** A new space for a program with its initial trap context. */
    method LoadTask(p: Program, pid: nat, handler: nat)
      requires Valid() && ProgramOk(p) && handler < WORD && Token(space.pageTable.rootPpn) < WORD
      requires mem.Free() >= SlotFrames(LoadedSpace(p, pid, Environment(handler)))
      modifies spaces.repr, mem
      ensures Valid() && spaces.slots == old(spaces.slots) + [LoadedSpace(p, pid, Environment(handler))]
      ensures stacks == old(stacks) && space.areas == old(space.areas) && fresh(spaces.repr - old(spaces.repr))
      ensures space.pageTable.Lasts() == old(space.pageTable.Lasts())
    {
      hide Valid, Apply, Allowed, Built, InitContext, LoadedSpace, Loadable, StackTop, SlotFrames, InUse;
      LoadSlots(spaces.slots, p, pid, Environment(handler));
      Lengths();
      var n := |spaces.sets|;
      Load(p.areas);
      var page := Read(n, TRAP_VPN);
      var satp := Token(space.pageTable.rootPpn);
      Perform(Store(n, TRAP_VPN, InitContext(page, p.entry, p.sp, p.sstatus, satp, StackTop(pid), handler)));
    }
  }

  /** The kernel's space at boot, and no task's space yet. `null` is an overlap of the kernel's sections. */
  method BootMemory(mem: Memory, sections: seq<Section>, trampoline: nat, top: nat) returns (memory: SharedMemory?)
    requires mem.Valid() && mem.live == {} && trampoline < PPN_LIMIT && top <= TRAMPOLINE_VPN
    requires forall i | 0 <= i < |sections| :: SectionOk(sections[i], top)
    requires mem.Free() >= Tables(KernelLasts(sections))
    modifies mem
    ensures memory != null <==> SectionsApart(sections)
    ensures memory != null ==> memory.Valid() && memory.spaces.slots == [] && memory.stacks == {} && memory.mem == mem && memory.top == top
    ensures memory != null ==> memory.sections == sections && memory.spaces.trampoline == trampoline
    ensures memory != null ==> fresh(memory) && fresh(memory.space) && fresh(memory.space.pageTable) && fresh(memory.spaces)
    ensures memory != null ==> (forall a | a in memory.space.areas :: fresh(a)) && fresh(memory.spaces.repr)
    ensures memory != null ==> memory.space.pageTable.rootPpn == old(mem.NextFrame()) && memory.space.pageTable.Lasts() == KernelLasts(sections)
  {
    hide SectionOk, SectionsApart, Memory.Valid, MemorySet.Valid, StacksOf, Spaces.ValidAt, NodeFrames, OwnedAt, Agrees, TwoEach, KernelLasts, KernelUpTo, Tables,
         SectionsIdentical, TrampolineAt;
    var ok, space := NewKernel(mem, sections, trampoline, top);
    if !ok {
      return null;
    }
    KernelDone(space, mem, sections, top, trampoline);
    HoldsOwned(space, mem);
    var spaces := new Spaces(mem, trampoline);
    assert mem.live == space.Footprint();
    memory := new SharedMemory(mem, space, spaces, top, sections);
  }

  /** Every stack has two pages. */
  ghost predicate TwoEach(data: map<nat, nat>, stacks: set<nat>)
  {
    PageCount(data) == 2 * |stacks|
  }

  lemma NoStacks()
    ensures TwoEach(map[], {})
  {
  }

  lemma TwoMore(data: map<nat, nat>, data': map<nat, nat>, stacks: set<nat>, id: nat)
    requires TwoEach(data, stacks) && PageCount(data') == PageCount(data) + 2 && id !in stacks
    ensures TwoEach(data', stacks + {id})
  {
    hide PageCount;
  }

  lemma TwoLess(data: map<nat, nat>, data': map<nat, nat>, stacks: set<nat>, id: nat)
    requires TwoEach(data, stacks) && PageCount(data') == PageCount(data) - 2 && id in stacks
    ensures TwoEach(data', stacks - {id})
  {
    hide PageCount;
  }

  lemma ForkSlots(slots: seq<Slot>, t: Id, pid: nat)
    requires t < |slots| && slots[t].Alive? && TRAP_VPN in slots[t].space.pages
    ensures var n, page := |slots|, PageAt(slots[t], TRAP_VPN);
            var forked := Apply(slots, MemorySystem.Fork(t));
            && Allowed(slots, MemorySystem.Fork(t)) && |forked| == n + 1 && forked[n] == Alive(Copy(slots[t].space))
            && TRAP_VPN in forked[n].space.pages && forked[n].space.pages[TRAP_VPN].bytes == page
            && InUse(forked) == InUse(slots) + SlotFrames(ForkedSpace(slots[t], pid))
            && Allowed(forked, Store(n, TRAP_VPN, ForkedContext(page, StackTop(pid))))
            && Apply(forked, Store(n, TRAP_VPN, ForkedContext(page, StackTop(pid)))) == slots + [ForkedSpace(slots[t], pid)]
  {
    hide ForkedContext, Copy, StackTop, InUse, SlotFrames;
    CopyKeepsPages(slots[t].space);
    FramesAdded(slots, Alive(Copy(slots[t].space)));
    StoredFrames(Copy(slots[t].space), TRAP_VPN, ForkedContext(PageAt(slots[t], TRAP_VPN), StackTop(pid)));
  }

  lemma CopyKeepsPages(s: Space)
    ensures Copy(s).pages == s.pages
  {
  }

  /** A store takes no frame. */
  lemma StoredFrames(s: Space, v: nat, bytes: Frame)
    ensures SlotFrames(Alive(Stored(s, v, bytes))) == SlotFrames(Alive(s))
  {
    hide Tables;
    assert v in s.pages ==> s.pages[v := s.pages[v].(bytes := bytes)].Keys == s.pages.Keys;
  }

  lemma WaitSlots(slots: seq<Slot>, t: Id, c: Id, ptr: nat, code: int)
    requires t < |slots| && c < |slots| && c != t && PointsInto(slots[t], ptr) && !slots[c].Gone?
    ensures var v := ptr / PAGE_SIZE;
            var answered := Apply(slots, Store(t, v, WithCode(PageAt(slots[t], v), ptr % PAGE_SIZE, code)));
            && Allowed(slots, Store(t, v, WithCode(PageAt(slots[t], v), ptr % PAGE_SIZE, code))) && Allowed(answered, Drop(c))
            && Apply(answered, Drop(c)) == slots[t := AnsweredSpace(slots[t], ptr, code)][c := Gone]
  {
    hide WithCode, Stored;
  }

  lemma Pointed(slot: Slot, ptr: nat)
    requires PointsInto(slot, ptr)
    ensures slot.Alive? && ptr / PAGE_SIZE in slot.space.pages && ptr % PAGE_SIZE + 4 <= PAGE_SIZE
    ensures slot.space.pages[ptr / PAGE_SIZE].bytes == PageAt(slot, ptr / PAGE_SIZE)
  {
  }

  lemma LoadSlots(slots: seq<Slot>, p: Program, pid: nat, env: Env)
    requires ProgramOk(p) && env.satp < WORD && env.handler < WORD
    ensures TRAP_VPN in Built(p.areas).pages && SlotFrames(LoadedSpace(p, pid, env)) == SlotFrames(Alive(Built(p.areas)))
    ensures var n, loaded := |slots|, slots + [Alive(Built(p.areas))];
            var bytes := InitContext(PageAt(Alive(Built(p.areas)), TRAP_VPN), p.entry, p.sp, p.sstatus, env.satp, StackTop(pid), env.handler);
            && Allowed(loaded, Store(n, TRAP_VPN, bytes))
            && Apply(loaded, Store(n, TRAP_VPN, bytes)) == slots + [LoadedSpace(p, pid, env)]
  {
    hide InitContext, Stored, Built, ProgramOk, StackTop, SlotFrames;
    LoadedEnters(p, pid, env);
    StoredFrames(Built(p.areas), TRAP_VPN, InitContext(PageAt(Alive(Built(p.areas)), TRAP_VPN), p.entry, p.sp, p.sstatus, env.satp, StackTop(pid), env.handler));
  }

  lemma RootInMemory(n: Nodes, ram: seq<Frame>, table: map<nat, nat>)
    requires Tree(n, ram, table)
    ensures n.root < PPN_LIMIT
  {
    hide Injective;
    assert n.root in NodeFrames(n);
  }

  lemma SharedMeans(outside: set<nat>, owners: seq<set<nat>>, live: set<nat>)
    requires Shared(outside, owners, live)
    ensures forall x :: x in live <==> x in outside || OwnedBySome(owners, x)
    ensures forall i | 0 <= i < |owners| :: owners[i] !! outside
    ensures forall i, j | 0 <= i < j < |owners| :: owners[i] !! owners[j]
  {
    var all := [outside] + owners;
    assert all[0] == outside && forall i | 0 <= i < |owners| :: all[i + 1] == owners[i];
    forall x ensures OwnedBySome(all, x) <==> x in outside || OwnedBySome(owners, x) {
      if OwnedBySome(owners, x) {
        var i :| 0 <= i < |owners| && x in owners[i];
        assert x in all[i + 1];
      }
      if OwnedBySome(all, x) {
        var i :| 0 <= i < |all| && x in all[i];
        assert i > 0 ==> x in owners[i - 1];
      }
    }
    forall i, j | 0 <= i < j < |owners| ensures owners[i] !! owners[j] {
      assert all[i + 1] !! all[j + 1];
    }
  }
}
