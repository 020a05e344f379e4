/** The board the kernel is built for (os/src/boards/qemu.rs, os/src/linker-qemu.ld): it boots and runs as proved. */
module Boards {
  import opened Options
  import opened Paging
  import opened FrameAlloc
  import opened PageTree
  import opened MemorySets
  import opened MemorySystem
  import opened KernelStacks
  import opened TrapContexts
  import opened ProcessMemory
  import opened MainMemory
  import opened Machines

  const BASE_ADDRESS: nat := 0x8020_0000
  const MEMORY_END: nat := 0x8_0100_0000
  const MEMORY_PAGES: nat := MEMORY_END / PAGE_SIZE

  /** Where the linker puts the ends of the kernel's sections. */
  datatype Image = Image(etext: nat, erodata: nat, edata: nat, ekernel: nat)

  /** The linker script aligns each of them, and the kernel lies in memory. */
  predicate Linked(k: Image)
  {
    && k.etext % PAGE_SIZE == k.erodata % PAGE_SIZE == k.edata % PAGE_SIZE == k.ekernel % PAGE_SIZE == 0
    && BASE_ADDRESS <= k.etext <= k.erodata <= k.edata <= k.ekernel <= MEMORY_END
  }

  /** What `new_kernel` maps: the sections, all of the rest of memory, and the registers of the devices. */
  function Sections(k: Image): (s: seq<Section>)
    ensures |s| == 7
  {
    [Section(BASE_ADDRESS, k.etext, R + X), Section(k.etext, k.erodata, R), Section(k.erodata, k.edata, R + W), Section(k.edata, k.ekernel, R + W),
     Section(k.ekernel, MEMORY_END, R + W), Section(0x10_0000, 0x10_2000, R + W), Section(0x1000_1000, 0x1000_2000, R + W)]
  }

  lemma SectionsOk(k: Image)
    requires Linked(k)
    ensures forall i | 0 <= i < |Sections(k)| :: SectionOk(Sections(k)[i], MEMORY_PAGES)
  {
  }

  lemma InOneSection(k: Image, i: nat, j: nat, v: nat)
    requires Linked(k) && j < i < 7
    ensures !(InSection(Sections(k)[i], v) && InSection(Sections(k)[j], v))
  {
  }

  lemma SectionsDisjoint(k: Image)
    requires Linked(k)
    ensures SectionsApart(Sections(k))
  {
    hide InSection, Linked, Sections;
    var s := Sections(k);
    forall i | 0 <= i < |s| ensures ApartFromEarlier(s, i) {
      forall v | InSection(s[i], v) ensures !InSome(s[..i], v) {
        forall j | 0 <= j < i ensures !InSection(s[..i][j], v) {
          InOneSection(k, i, j, v);
        }
      }
    }
  }

  /** What the hardware makes of page `v` in the kernel's space: the frame of the same number, and flags. */
  ghost predicate SeenAs(memory: SharedMemory, v: nat, flags: nat)
    reads memory.mem, memory.space.pageTable
  {
    HardwareWalk(memory.mem.ram, memory.space.pageTable.rootPpn, v, 0) == Some((v, flags))
  }

  /**
   At any time the kernel sees all of memory from its first address on, and the registers of the devices, at the
   physical addresses: its code readable and executable, its constants readable, all else readable and writable.
   So what it can write it cannot execute.
   */
  lemma KernelSeesMemory(k: Image, memory: SharedMemory, v: nat)
    requires Linked(k) && memory.Valid() && memory.sections == Sections(k)
    ensures BASE_ADDRESS / PAGE_SIZE <= v < MEMORY_PAGES ==>
              SeenAs(memory, v, if v < k.etext / PAGE_SIZE then 11 else if v < k.erodata / PAGE_SIZE then 3 else 7)
    ensures v == 0x100 || v == 0x101 || v == 0x1_0001 ==> SeenAs(memory, v, 7)
  {
    hide SharedMemory.Valid, HardwareWalk, Linked, Sections;
    InWhich(k, v);
    var i := WhichSection(k, v);
    if i < 7 {
      memory.SectionSeen(i, v);
    }
  }

  /** The section that holds page `v`, or 7. */
  ghost function WhichSection(k: Image, v: nat): nat
  {
    if v == 0x100 || v == 0x101 then 5
    else if v == 0x1_0001 then 6
    else if !(BASE_ADDRESS / PAGE_SIZE <= v < MEMORY_PAGES) then 7
    else if v < k.etext / PAGE_SIZE then 0
    else if v < k.erodata / PAGE_SIZE then 1
    else if v < k.edata / PAGE_SIZE then 2
    else if v < k.ekernel / PAGE_SIZE then 3
    else 4
  }

  lemma InWhich(k: Image, v: nat)
    requires Linked(k)
    ensures var i := WhichSection(k, v);
            i < 7 ==> InSection(Sections(k)[i], v) && Sections(k)[i].perm == if i == 0 then 10 else if i == 1 then 2 else 6
  {
  }

  /** The first frame that the allocator manages is the root of the kernel's page table. */
  function Environment(k: Image, handler: nat): Env
  {
    Env(Token(k.ekernel / PAGE_SIZE), handler, MEMORY_PAGES, MEMORY_PAGES - k.ekernel / PAGE_SIZE)
  }

  /** A kernel image and a program that leave 16431 of the frames free can boot. */
  lemma BoardHasFrames(k: Image, init: Program, handler: nat)
    requires Linked(k) && k.ekernel / PAGE_SIZE + 16431 + SlotFrames(LoadedSpace(init, 0, Environment(k, handler))) <= MEMORY_PAGES
    ensures Used(BootWorld(init, Sections(k), Environment(k, handler))) <= MEMORY_PAGES - k.ekernel / PAGE_SIZE
  {
    hide Used, BootWorld, SlotFrames, LoadedSpace, Sections, SectionOk;
    SectionsOk(k);
    BootIsSmall(init, Sections(k), MEMORY_PAGES, Environment(k, handler));
  }

  /**
   The frame allocator is given all memory from the end of the kernel on, and the kernel's space maps all of it.
   Booting then succeeds, and every run that can follow is the abstract run.
   */
  method BootBoard(k: Image, ram: seq<Frame>, trampoline: nat, handler: nat, init: Program, actions: seq<Action>) returns (m: Machine)
    requires Linked(k) && MEMORY_PAGES <= |ram| <= PPN_LIMIT && trampoline < PPN_LIMIT && handler < WORD && ProgramOk(init)
    requires k.ekernel / PAGE_SIZE + 16431 + SlotFrames(LoadedSpace(init, 0, Environment(k, handler))) <= MEMORY_PAGES
    requires var w := BootWorld(init, Sections(k), Environment(k, handler));
             CanAll(w, actions) && HasFramesAll(w, actions)
    ensures m.Valid() && m.memory.sections == Sections(k) && m.Snapshot() == Outcome(BootWorld(init, Sections(k), Environment(k, handler)), actions)
  {
    hide Used, BootWorld, SlotFrames, LoadedSpace, Sections, SectionOk, SectionsApart, CanAll, HasFramesAll, ProgramOk, Machine.Valid, Memory.Valid;
    SectionsOk(k);
    SectionsDisjoint(k);
    BoardHasFrames(k, init, handler);
    var mem := new Memory(k.ekernel / PAGE_SIZE, MEMORY_PAGES, ram);
    m := Machine.BootAndRun(mem, Sections(k), trampoline, MEMORY_PAGES, handler, init, actions);
  }
}
