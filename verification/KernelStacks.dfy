/** Kernel stacks in the kernel's address space (os/src/task/pid.rs:61-111). */
module KernelStacks {
  import opened Options
  import opened Seqs
  import opened Paging
  import opened FrameAlloc
  import opened PageTree
  import opened PageTables
  import opened MemoryAreas
  import opened MemorySets
  import opened MemoryFork

  const KERNEL_STACK_SIZE: nat := 8192
  /** `usize::MAX - PAGE_SIZE + 1`. */
  const TRAMPOLINE: nat := 0x1_0000_0000_0000_0000 - PAGE_SIZE
  const VA_LIMIT: nat := 0x80_0000_0000

  /** `kernel_stack_position`. */
  function StackPosition(id: nat): (nat, nat)
    requires StackStart(id) >= 0
  {
    var top := TRAMPOLINE - id * (KERNEL_STACK_SIZE + PAGE_SIZE);
    (top - KERNEL_STACK_SIZE, top)
  }

  /** `KernelStack::get_top`. */
  function StackTop(id: nat): (top: nat)
    ensures top < 0x1_0000_0000_0000_0000
  {
    if StackStart(id) >= 0 then StackPosition(id).1 else 0
  }

  /** `VirtAddr::from` keeps 39 bits. */
  function VirtAddr(a: nat): nat
  {
    a % VA_LIMIT
  }

  /** First page and end of a stack. */
  function StackStart(id: nat): int
  {
    VPN_LIMIT - 3 - 3 * id
  }

  function StackEnd(id: nat): int
  {
    VPN_LIMIT - 1 - 3 * id
  }

  lemma StackAddresses(id: nat)
    requires StackStart(id) >= 0
    ensures var (bottom, top) := StackPosition(id);
            && VirtAddr(bottom) == PAGE_SIZE * StackStart(id) && VirtAddr(top) == PAGE_SIZE * StackEnd(id)
            && VirtAddr(bottom) / PAGE_SIZE == StackStart(id) && (VirtAddr(top) - 1 + PAGE_SIZE) / PAGE_SIZE == StackEnd(id)
            && 0 <= StackStart(id) < StackEnd(id) < VPN_LIMIT && StackEnd(id) == StackStart(id) + 2
  {
    var (bottom, top) := StackPosition(id);
    var high := 0x1_0000_0000_0000_0000 - VA_LIMIT;
    assert high == 0x1ff_ffff * VA_LIMIT;
    assert top == high + PAGE_SIZE * StackEnd(id) && bottom == high + PAGE_SIZE * StackStart(id);
    Masked(PAGE_SIZE * StackEnd(id));
    Masked(PAGE_SIZE * StackStart(id));
  }

  /** The address in a trap context is where the stack of that pid ends: each pid further takes three pages. */
  lemma StackTopMeans(id: nat)
    requires StackStart(id) >= 0
    ensures StackTop(id) == 0xffff_ffff_ffff_f000 - 12288 * id && VirtAddr(StackTop(id)) == PAGE_SIZE * StackEnd(id)
  {
    hide StackStart, StackEnd, VirtAddr;
    StackAddresses(id);
  }

  lemma Masked(a: nat)
    requires a < VA_LIMIT
    ensures (0x1ff_ffff * VA_LIMIT + a) % VA_LIMIT == a
  {
  }

  /** Stacks of different pids are apart, and the page below each stack belongs to none. */
  lemma StacksApart(p: nat, q: nat)
    ensures p != q ==> StackEnd(p) < StackStart(q) || StackEnd(q) < StackStart(p)
    ensures !(StackStart(q) <= StackStart(p) - 1 < StackEnd(q))
    ensures StackEnd(p) <= TRAMPOLINE_VPN
  {
  }

  function StackArea(id: nat, frames: map<nat, nat>): Area
    requires StackStart(id) >= 0
  {
    StackAddresses(id);
    Area(StackStart(id), StackEnd(id), true, R + W, frames)
  }

  ghost predicate IsStack(a: Area, id: nat)
  {
    StackStart(id) >= 0 && a == StackArea(id, a.frames)
  }

  /** The kernel's own areas are mapped identically and end below page `top`. */
  ghost predicate KernelArea(a: Area, top: nat)
  {
    !a.framed && a.start <= a.end <= top
  }

  /** The keys of the last nodes on the paths to the pages of a stack. */
  ghost function StackLasts(id: nat): set<nat>
  {
    if StackStart(id) >= 0 then LastsOf(StackStart(id), StackEnd(id)) else {}
  }

  /** How many frames a new stack takes in a page table with these last nodes. */
  ghost function StackFrames(lasts: set<nat>, id: nat): int
  {
    NodesFor(lasts, StackLasts(id)) + 2
  }

  ghost predicate HasStack(model: seq<Area>, id: nat)
  {
    exists i | 0 <= i < |model| :: IsStack(model[i], id)
  }

  ghost predicate Known(a: Area, ids: set<nat>, top: nat)
  {
    KernelArea(a, top) || exists id :: id in ids && IsStack(a, id)
  }

  /** Beside the kernel's own areas there is exactly one stack for each of `ids`. */
  ghost predicate StacksOf(model: seq<Area>, ids: set<nat>, top: nat)
  {
    && (forall id | id in ids :: StackStart(id) > top && HasStack(model, id))
    && (forall i | 0 <= i < |model| :: Known(model[i], ids, top))
  }

  /** The pages of a new stack are free. */
  lemma StackIsFree(model: seq<Area>, table: map<nat, nat>, extra: set<nat>, ids: set<nat>, top: nat, id: nat)
    requires StacksOf(model, ids, top) && Agrees(model, table, extra) && extra <= {TRAMPOLINE_VPN}
    requires id !in ids && StackStart(id) > top
    ensures forall v | StackStart(id) <= v < StackEnd(id) :: v !in table
  {
    hide AreaMapped;
    forall v: nat | StackStart(id) <= v < StackEnd(id) ensures v !in table {
      forall i | 0 <= i < |model| ensures !In(model[i], v) {
        KnownIsApart(model[i], ids, top, id, v);
      }
      assert !MappedBy(model, v);
      StacksApart(id, id);
    }
  }

  lemma KnownIsApart(a: Area, ids: set<nat>, top: nat, id: nat, v: nat)
    requires Known(a, ids, top) && id !in ids && StackStart(id) > top && StackStart(id) <= v < StackEnd(id)
    ensures !In(a, v)
  {
    if !KernelArea(a, top) {
      var other :| other in ids && IsStack(a, other);
      StacksApart(id, other);
    }
  }

  lemma StackAdded(model: seq<Area>, ids: set<nat>, top: nat, id: nat, a: Area)
    requires StacksOf(model, ids, top) && IsStack(a, id) && StackStart(id) > top
    ensures StacksOf(model + [a], ids + {id}, top)
  {
    hide IsStack, StackStart;
    var m := model + [a];
    assert m[|model|] == a;
    forall x | x in ids + {id} ensures StackStart(x) > top && HasStack(m, x) {
      if x in ids {
        var i :| 0 <= i < |model| && IsStack(model[i], x);
        assert m[i] == model[i];
      } else {
        assert IsStack(m[|model|], x);
      }
    }
    forall i | 0 <= i < |m| ensures Known(m[i], ids + {id}, top) {
      if i < |model| {
        KnownMore(model[i], ids, top, id);
      }
    }
  }

  lemma KnownMore(a: Area, ids: set<nat>, top: nat, id: nat)
    requires Known(a, ids, top)
    ensures Known(a, ids + {id}, top)
  {
    hide IsStack;
    if !KernelArea(a, top) {
      var x :| x in ids && IsStack(a, x);
      assert x in ids + {id};
    }
  }

  /** An area that starts where a stack starts is that stack. */
  lemma StackFound(a: Area, ids: set<nat>, top: nat, id: nat)
    requires Known(a, ids, top) && StackStart(id) > top && a.start == StackStart(id)
    ensures IsStack(a, id)
  {
    if !KernelArea(a, top) {
      var x :| x in ids && IsStack(a, x);
      StacksApart(x, id);
    }
  }

  lemma {:induction false} FirstExists(model: seq<Area>, v: nat, i: nat)
    requires i < |model| && model[i].start == v
    ensures FirstAt(model, v) < |model|
  {
    if model[0].start != v {
      FirstExists(model[1..], v, i - 1);
    }
  }

  lemma StackRemoved(model: seq<Area>, ids: set<nat>, top: nat, id: nat, k: nat)
    requires StacksOf(model, ids, top) && k < |model| && IsStack(model[k], id) && id in ids
    requires forall i, j | 0 <= i < j < |model| :: Apart(model[i], model[j])
    ensures StacksOf(model[..k] + model[k + 1..], ids - {id}, top)
  {
    hide Apart;
    var m := model[..k] + model[k + 1..];
    assert forall i | 0 <= i < |m| :: m[i] == model[if i < k then i else i + 1];
    forall x | x in ids - {id} ensures HasStack(m, x) {
      var i :| 0 <= i < |model| && IsStack(model[i], x);
      assert i != k;
      assert m[if i < k then i else i - 1] == model[i];
    }
    forall i | 0 <= i < |m| ensures Known(m[i], ids - {id}, top) {
      var j := if i < k then i else i + 1;
      assert Known(model[j], ids, top);
      OneStack(model, j, k, id);
      KnownLess(m[i], ids, top, id);
    }
  }

  lemma KnownLess(a: Area, ids: set<nat>, top: nat, id: nat)
    requires Known(a, ids, top) && !IsStack(a, id)
    ensures Known(a, ids - {id}, top)
  {
    hide IsStack;
    if !KernelArea(a, top) {
      var x :| x in ids && IsStack(a, x);
      assert x in ids - {id};
    }
  }

  lemma OneStack(model: seq<Area>, j: nat, k: nat, id: nat)
    requires j < |model| && k < |model| && j != k && IsStack(model[k], id)
    requires forall i, j | 0 <= i < j < |model| :: Apart(model[i], model[j])
    ensures !IsStack(model[j], id)
  {
    StackAddresses(id);
    var v := model[k].start;
    assert In(model[k], v);
    assert if j < k then Apart(model[j], model[k]) else Apart(model[k], model[j]);
    assert !In(model[j], v);
  }

  lemma StackIndex(model: seq<Area>, ids: set<nat>, top: nat, id: nat)
    requires StacksOf(model, ids, top) && id in ids
    ensures StackStart(id) >= 0
    ensures var k := FirstAt(model, StackStart(id));
            k < |model| && IsStack(model[k], id) && model[k].start == StackStart(id) && model[k].end == StackEnd(id)
  {
    hide FirstAt;
    StackAddresses(id);
    assert HasStack(model, id);
    var i :| 0 <= i < |model| && IsStack(model[i], id);
    FirstExists(model, StackStart(id), i);
    StackFound(model[FirstAt(model, StackStart(id))], ids, top, id);
  }

  lemma StackPageMapped(model: seq<Area>, table: map<nat, nat>, data: map<nat, nat>, extra: set<nat>, k: nat, id: nat, v: nat)
    requires Held(model, data) && Agrees(model, table, extra) && k < |model| && IsStack(model[k], id) && StackStart(id) <= v < StackEnd(id)
    ensures v in data && v < VPN_LIMIT && PageMapped(table, v, data[v], R + W)
  {
    hide PageMapped, Apart, HeldBy;
    assert In(model[k], v) && AreaHeld(model[k], data) && AreaMapped(model[k], table);
  }

  lemma FramesLeave(model: seq<Area>, data: map<nat, nat>, k: nat)
    requires k < |model| && Held(model, data) && Injective(data)
    ensures forall i, j | 0 <= i < j < |model| :: Apart(model[i], model[j])
    ensures (data - Range(model[k].start, model[k].end)).Values == data.Values - model[k].frames.Values
    ensures model[k].frames.Values <= data.Values
  {
    hide Injective, Apart, AreaHeld, HeldBy, Range;
    HeldFacts(model[k], data);
    RemovedValues(data, model[k]);
  }

  /** Removing the first area that starts where the stack starts removes the stack. */
  lemma StackThere(model: seq<Area>, data: map<nat, nat>, ids: set<nat>, top: nat, id: nat)
    requires StacksOf(model, ids, top) && Held(model, data) && Injective(data) && id in ids
    ensures StackStart(id) >= 0
    ensures var k := FirstAt(model, StackStart(id));
            && k < |model| && model[k].start == StackStart(id) && model[k].end == StackEnd(id)
            && StacksOf(model[..k] + model[k + 1..], ids - {id}, top)
            && (data - Range(model[k].start, model[k].end)).Values == data.Values - model[k].frames.Values
            && model[k].frames.Values <= data.Values && PageCount(data - Range(model[k].start, model[k].end)) == PageCount(data) - 2
  {
    hide Injective, Apart, Held, StacksOf, IsStack, FirstAt, Range, StackStart, StackEnd, PageCount;
    StackIndex(model, ids, top, id);
    var k := FirstAt(model, StackStart(id));
    FramesLeave(model, data, k);
    StackRemoved(model, ids, top, id, k);
    StackLeaves(model, data, id, k);
  }

  lemma StackLeaves(model: seq<Area>, data: map<nat, nat>, id: nat, k: nat)
    requires Held(model, data) && k < |model| && IsStack(model[k], id)
    ensures PageCount(data - Range(model[k].start, model[k].end)) == PageCount(data) - 2
  {
    hide Apart, HeldBy;
    var a := model[k];
    StackAddresses(id);
    assert AreaHeld(a, data);
    forall v | a.start <= v < a.end ensures v in data {
      assert In(a, v);
    }
    RangeCount(a.start, a.end);
    assert (data - Range(a.start, a.end)).Keys == data.Keys - Range(a.start, a.end) && Range(a.start, a.end) <= data.Keys;
  }

  /** `KernelStack::new`. The assertion that its pages are not mapped cannot fail. */
  method NewStack(space: MemorySet, mem: Memory, id: nat, ghost ids: set<nat>, ghost top: nat)
    requires space.Valid(mem) && space.extra <= {TRAMPOLINE_VPN} && StacksOf(space.model, ids, top)
    requires id !in ids && StackStart(id) > top && mem.Free() >= StackFrames(space.pageTable.Lasts(), id)
    modifies space, space.pageTable, mem
    ensures space.Valid(mem) && space.extra == old(space.extra) && StacksOf(space.model, ids + {id}, top)
    ensures forall v :: v in space.pageTable.table <==> v in old(space.pageTable.table) || StackStart(id) <= v < StackEnd(id)
    ensures forall v | v in old(space.pageTable.table) :: space.pageTable.table[v] == old(space.pageTable.table)[v]
    ensures Confined(old(mem.ram), mem.ram, old(mem.live), mem.live, old(space.Footprint()), space.Footprint())
    ensures space.pageTable.Lasts() == old(space.pageTable.Lasts()) + StackLasts(id) && PageCount(space.data) == PageCount(old(space.data)) + 2
    ensures forall a | a in space.areas :: a in old(space.areas) || fresh(a)
  {
    hide MemorySet.Owned, Agrees, StacksOf, Confined, StackEnd, StackStart, AreaFrames, LastsOf, NodesFor, PageCount, Held, StackLasts, StackFrames, VirtAddr, StackPosition;
    StackAddresses(id);
    StackNeeds(space.pageTable.Lasts(), id);
    SetHeld(space, mem);
    StackIsFree(space.model, space.pageTable.table, space.extra, ids, top, id);
    var (bottom, stackTop) := StackPosition(id);
    var ok := space.InsertFramedArea(VirtAddr(bottom), VirtAddr(stackTop), R + W, mem);
    StackAdded(old(space.model), ids, top, id, space.model[|old(space.model)|]);
    assert space.model == old(space.model) + [space.model[|old(space.model)|]];
    StackPages(old(space.model), old(space.data), old(space.pageTable.table), space.pageTable.table, old(space.extra), space.model[|old(space.model)|]);
  }

  lemma StackNeeds(lasts: set<nat>, id: nat)
    requires StackStart(id) >= 0
    ensures AreaFrames(lasts, StackStart(id), StackEnd(id), true) == StackFrames(lasts, id) && LastsOf(StackStart(id), StackEnd(id)) == StackLasts(id)
  {
    hide NodesFor, LastsOf;
  }

  /** A stack has two pages of its own. */
  lemma StackPages(model: seq<Area>, data: map<nat, nat>, t: map<nat, nat>, t': map<nat, nat>, extra: set<nat>, a: Area)
    requires Held(model, data) && Agrees(model, t, extra) && Filled(t, t', a.start, a.end, a.framed, a.perm, a.frames)
    requires (forall v | a.start <= v < a.end :: v !in t) && a.framed && a.end == a.start + 2
    ensures PageCount(data + a.frames) == PageCount(data) + 2
  {
    hide Held, Agrees, PageMapped;
    NewPages(model, data, t, t', extra, a);
    assert a.frames.Keys == Range(a.start, a.end);
    RangeCount(a.start, a.end);
    assert (data + a.frames).Keys == data.Keys + a.frames.Keys && data.Keys !! a.frames.Keys;
  }

  /** Dropping a `KernelStack` unmaps exactly its own pages and frees exactly its own frames. */
  method DropStack(space: MemorySet, mem: Memory, id: nat, ghost ids: set<nat>, ghost top: nat)
    requires space.Valid(mem) && StacksOf(space.model, ids, top) && id in ids
    modifies space, space.areas, space.pageTable, mem
    ensures space.Valid(mem) && space.extra == old(space.extra) && StacksOf(space.model, ids - {id}, top)
    ensures space.data.Values <= old(space.data).Values
    ensures StackStart(id) >= 0 && space.pageTable.table == old(space.pageTable.table) - Range(StackStart(id), StackEnd(id))
    ensures mem.live == old(mem.live) - (old(space.data).Values - space.data.Values)
    ensures Confined(old(mem.ram), mem.ram, old(mem.live), mem.live, old(space.Footprint()), space.Footprint())
    ensures space.pageTable.Lasts() == old(space.pageTable.Lasts()) && PageCount(space.data) == PageCount(old(space.data)) - 2
    ensures forall a | a in space.areas :: a in old(space.areas)
  {
    hide PageTable.Valid, MemorySet.Listed, Agrees, Confined, StackStart, StackEnd, FirstAt, StacksOf, IsStack, Held, Injective, PageCount;
    StackThere(space.model, space.data, ids, top, id);
    var (bottom, stackTop) := StackPosition(id);
    StackAddresses(id);
    space.RemoveAreaWithStartVpn(VirtAddr(bottom) / PAGE_SIZE, mem);
  }

  // The kernel's own areas.

  /** An identically mapped section of the kernel, from the linker or the board's memory map. */
  datatype Section = Section(startVa: nat, endVa: nat, perm: nat)

  predicate InSection(s: Section, v: nat)
  {
    s.startVa / PAGE_SIZE <= v && v * PAGE_SIZE < s.endVa
  }

  ghost predicate InSome(sections: seq<Section>, v: nat)
  {
    exists i | 0 <= i < |sections| :: InSection(sections[i], v)
  }

  /** No page of section `i` lies in an earlier one. */
  ghost predicate ApartFromEarlier(sections: seq<Section>, i: nat)
    requires i < |sections|
  {
    forall v | InSection(sections[i], v) :: !InSome(sections[..i], v)
  }

  /** No page lies in two sections. */
  ghost predicate SectionsApart(sections: seq<Section>)
  {
    forall i | 0 <= i < |sections| :: ApartFromEarlier(sections, i)
  }

  ghost predicate SectionOk(s: Section, top: nat)
  {
    s.startVa <= s.endVa && 0 < s.endVa <= PAGE_SIZE * top && s.perm < 256
  }

  /** The keys of the last nodes on the paths to the pages of a section. */
  ghost function SectionLasts(s: Section): set<nat>
  {
    LastsOf(s.startVa / PAGE_SIZE, (s.endVa + PAGE_SIZE - 1) / PAGE_SIZE)
  }

  ghost function SectionsLasts(sections: seq<Section>): set<nat>
  {
    if sections == [] then {} else SectionsLasts(sections[..|sections| - 1]) + SectionLasts(sections[|sections| - 1])
  }

  /** The last nodes of a kernel space with these sections and the trampoline. */
  ghost function KernelLasts(sections: seq<Section>): set<nat>
  {
    SectionsLasts(sections) + {TRAMPOLINE_LAST}
  }

  lemma PagesOf(s: Section, v: nat)
    requires 0 < s.endVa
    ensures InSection(s, v) <==> s.startVa / PAGE_SIZE <= v < (s.endVa - 1 + PAGE_SIZE) / PAGE_SIZE
  {
  }

  lemma EndsBelow(s: Section, top: nat)
    requires SectionOk(s, top)
    ensures s.startVa / PAGE_SIZE <= (s.endVa - 1 + PAGE_SIZE) / PAGE_SIZE <= top
  {
  }

  lemma InOneMore(sections: seq<Section>, i: nat, v: nat)
    requires i < |sections|
    ensures InSome(sections[..i + 1], v) <==> InSome(sections[..i], v) || InSection(sections[i], v)
  {
    var m := sections[..i + 1];
    assert m[i] == sections[i];
    assert forall j | 0 <= j < i :: m[j] == sections[..i][j];
  }

  /** Section `i` takes its share of the nodes for all sections. */
  lemma NextLasts(sections: seq<Section>, i: nat)
    requires i < |sections|
    ensures KernelLasts(sections[..i + 1]) == KernelLasts(sections[..i]) + SectionLasts(sections[i])
    ensures Tables(KernelLasts(sections[..i + 1])) <= Tables(KernelLasts(sections))
  {
    hide SectionLasts, Tables;
    assert sections[..i + 1][..i] == sections[..i];
    LastsBelow(sections, i + 1);
    TablesMonotone(KernelLasts(sections[..i + 1]), KernelLasts(sections));
    assert KernelLasts(sections[..i + 1]) + KernelLasts(sections) == KernelLasts(sections);
  }

  lemma {:induction false} LastsBelow(sections: seq<Section>, i: nat)
    requires i <= |sections|
    ensures SectionsLasts(sections[..i]) <= SectionsLasts(sections)
    decreases |sections|
  {
    hide SectionLasts;
    if i < |sections| {
      LastsBelow(sections[..|sections| - 1], i);
      assert sections[..|sections| - 1][..i] == sections[..i];
    } else {
      assert sections[..i] == sections;
    }
  }

  /**
   The nodes for the kernel's space are few: at most one for 512 pages below `top`, one for 512 of these, and
   five. So there are frames for them also when a section covers all the frames there are.
   */
  lemma KernelIsSmall(sections: seq<Section>, top: nat)
    requires forall i | 0 <= i < |sections| :: SectionOk(sections[i], top)
    ensures Tables(KernelLasts(sections)) <= 5 + top / 512 + top / 262144
  {
    hide SectionOk, SectionsLasts, Above, Range;
    var lasts := KernelLasts(sections);
    SectionsBelow(sections, top);
    OneMoreThanRange(lasts, top / 512 + 1, TRAMPOLINE_LAST);
    AboveBelow(lasts, top);
    OneMoreThanRange(Above(lasts), top / 262144 + 1, TRAMPOLINE_LAST / 512);
  }

  lemma OneMoreThanRange(s: set<nat>, n: nat, x: nat)
    requires s <= Range(0, n) + {x}
    ensures |s| <= n + 1
  {
    hide Range;
    RangeCount(0, n);
    Smaller(s, Range(0, n) + {x});
  }

  lemma AboveBelow(lasts: set<nat>, top: nat)
    requires lasts <= Range(0, top / 512 + 1) + {TRAMPOLINE_LAST}
    ensures Above(lasts) <= Range(0, top / 262144 + 1) + {TRAMPOLINE_LAST / 512}
  {
    forall k | k in lasts ensures k / 512 in Range(0, top / 262144 + 1) + {TRAMPOLINE_LAST / 512} {
      assert k <= top / 512 ==> k / 512 <= top / 262144;
    }
  }

  lemma {:induction false} SectionsBelow(sections: seq<Section>, top: nat)
    requires forall i | 0 <= i < |sections| :: SectionOk(sections[i], top)
    ensures SectionsLasts(sections) <= Range(0, top / 512 + 1)
  {
    hide SectionOk, SectionLasts;
    if sections != [] {
      SectionsBelow(sections[..|sections| - 1], top);
      SectionBelow(sections[|sections| - 1], top);
    }
  }

  lemma SectionBelow(s: Section, top: nat)
    requires SectionOk(s, top)
    ensures SectionLasts(s) <= Range(0, top / 512 + 1)
  {
    EndsBelow(s, top);
    forall v | v in Range(s.startVa / PAGE_SIZE, (s.endVa + PAGE_SIZE - 1) / PAGE_SIZE) ensures v / 512 in Range(0, top / 512 + 1) {
      assert v <= top;
    }
  }

  /** What is mapped after the first `i` sections. */
  ghost predicate SectionsMapped(table: map<nat, nat>, sections: seq<Section>, i: nat)
  {
    i <= |sections| && forall v :: v in table <==> v == TRAMPOLINE_VPN || InSome(sections[..i], v)
  }

  lemma SectionAdded(t: map<nat, nat>, t': map<nat, nat>, sections: seq<Section>, i: nat, a: Area)
    requires i < |sections| && SectionsMapped(t, sections, i) && 0 < sections[i].endVa
    requires a.start == sections[i].startVa / PAGE_SIZE && a.end == (sections[i].endVa - 1 + PAGE_SIZE) / PAGE_SIZE
    requires Filled(t, t', a.start, a.end, a.framed, a.perm, a.frames)
    ensures SectionsMapped(t', sections, i + 1)
  {
    hide InSome, InSection, PageMapped;
    forall v: nat ensures v in t' <==> v == TRAMPOLINE_VPN || InSome(sections[..i + 1], v) {
      InOneMore(sections, i, v);
      PagesOf(sections[i], v);
    }
  }

  /** Page `v` is mapped to itself, with these permissions and V. */
  predicate Identical(table: map<nat, nat>, v: nat, perm: nat)
  {
    v in table && table[v] == 1024 * v + perm + (1 - perm % 2)
  }

  /** The pages of the first `i` sections are mapped to themselves, with the permissions of their sections. */
  ghost predicate SectionsIdentical(table: map<nat, nat>, sections: seq<Section>, i: nat)
  {
    i <= |sections| && forall k, v | 0 <= k < i && InSection(sections[k], v) :: Identical(table, v, sections[k].perm)
  }

  /** The trampoline page is mapped to `ppn`, valid, readable and executable. */
  predicate TrampolineAt(table: map<nat, nat>, ppn: nat)
  {
    TRAMPOLINE_VPN in table && table[TRAMPOLINE_VPN] == 1024 * ppn + 11
  }

  /** Mapping one more section on free pages. */
  lemma SectionIdentical(t: map<nat, nat>, t': map<nat, nat>, sections: seq<Section>, i: nat, a: Area, ppn: nat)
    requires i < |sections| && SectionsIdentical(t, sections, i) && TrampolineAt(t, ppn) && 0 < sections[i].endVa
    requires a.start == sections[i].startVa / PAGE_SIZE && a.end == (sections[i].endVa - 1 + PAGE_SIZE) / PAGE_SIZE
    requires a.perm == sections[i].perm && !a.framed && Filled(t, t', a.start, a.end, a.framed, a.perm, a.frames)
    requires forall v | a.start <= v < a.end :: v !in t
    ensures SectionsIdentical(t', sections, i + 1) && TrampolineAt(t', ppn)
  {
    hide InSection, PageMapped;
    forall k, v: nat | 0 <= k < i + 1 && InSection(sections[k], v) ensures Identical(t', v, sections[k].perm) {
      if k < i {
        assert Identical(t, v, sections[k].perm);
      } else {
        PagesOf(sections[i], v);
        assert PageMapped(t', v, Target(a.framed, a.frames, v), a.perm);
        MappedIdentically(t', v, a.perm);
      }
    }
  }

  lemma MappedIdentically(t: map<nat, nat>, v: nat, perm: nat)
    requires PageMapped(t, v, v, perm)
    ensures Identical(t, v, perm)
  {
    EntryMeans(v, perm);
  }

  /** What the kernel's table maps beside the stacks: its sections to themselves, and the trampoline. */
  ghost predicate KernelMap(table: map<nat, nat>, sections: seq<Section>, trampoline: nat, top: nat)
  {
    && top <= TRAMPOLINE_VPN && trampoline < PPN_LIMIT && (forall i | 0 <= i < |sections| :: SectionOk(sections[i], top))
    && SectionsIdentical(table, sections, |sections|) && TrampolineAt(table, trampoline)
  }

  lemma KernelMapKept(t: map<nat, nat>, t': map<nat, nat>, sections: seq<Section>, trampoline: nat, top: nat)
    requires KernelMap(t, sections, trampoline, top) && forall v | v in t && (v <= top || v == TRAMPOLINE_VPN) :: v in t' && t'[v] == t[v]
    ensures KernelMap(t', sections, trampoline, top)
  {
    hide InSection, SectionOk;
    forall k, v | 0 <= k < |sections| && InSection(sections[k], v) ensures Identical(t', v, sections[k].perm) {
      assert Identical(t, v, sections[k].perm);
      InSectionBelow(sections[k], v, top);
    }
  }

  /** The pages of a stack lie above the sections and below the trampoline. */
  lemma StackLeavesMap(model: seq<Area>, table: map<nat, nat>, ids: set<nat>, id: nat, sections: seq<Section>, trampoline: nat, top: nat)
    requires StacksOf(model, ids, top) && id in ids && KernelMap(table, sections, trampoline, top)
    ensures StackStart(id) >= 0 && KernelMap(table - Range(StackStart(id), StackEnd(id)), sections, trampoline, top)
  {
    hide SectionsIdentical, TrampolineAt, HasStack, Known, SectionOk;
    StacksApart(id, id);
    KernelMapKept(table, table - Range(StackStart(id), StackEnd(id)), sections, trampoline, top);
  }

  lemma InSectionBelow(s: Section, v: nat, top: nat)
    requires SectionOk(s, top) && InSection(s, v)
    ensures v < top && s.perm < 256
  {
    assert v * PAGE_SIZE < PAGE_SIZE * top;
  }

  /** Section `i` meets no mapped page exactly when it meets no earlier section. */
  lemma SectionFree(t: map<nat, nat>, sections: seq<Section>, i: nat, top: nat)
    requires i < |sections| && SectionsMapped(t, sections, i) && SectionOk(sections[i], top) && top <= TRAMPOLINE_VPN
    ensures (forall v | sections[i].startVa / PAGE_SIZE <= v < (sections[i].endVa - 1 + PAGE_SIZE) / PAGE_SIZE :: v !in t)
            <==> ApartFromEarlier(sections, i)
  {
    hide InSome, InSection;
    EndsBelow(sections[i], top);
    forall v: nat ensures InSection(sections[i], v) <==> sections[i].startVa / PAGE_SIZE <= v < (sections[i].endVa - 1 + PAGE_SIZE) / PAGE_SIZE {
      PagesOf(sections[i], v);
    }
  }

  /** The kernel's space with the trampoline and its first `i` sections. */
  ghost predicate KernelUpTo(space: MemorySet, mem: Memory, sections: seq<Section>, i: nat, top: nat, trampoline: nat)
    requires i <= |sections|
    reads space, space.areas, space.pageTable, mem
  {
    && space.Valid(mem) && space.extra == {TRAMPOLINE_VPN} && StacksOf(space.model, {}, top) && space.data == map[]
    && SectionsMapped(space.pageTable.table, sections, i) && space.pageTable.Lasts() == KernelLasts(sections[..i])
    && SectionsIdentical(space.pageTable.table, sections, i) && TrampolineAt(space.pageTable.table, trampoline)
  }

  /** `new_kernel`: succeeds exactly when no two sections share a page and there are frames for the page table. */
  method NewKernel(mem: Memory, sections: seq<Section>, trampoline: nat, ghost top: nat) returns (ok: bool, space: MemorySet)
    requires mem.Valid() && mem.Free() >= 1 && trampoline < PPN_LIMIT && top <= TRAMPOLINE_VPN
    requires forall i | 0 <= i < |sections| :: SectionOk(sections[i], top)
    modifies mem
    ensures fresh(space) && fresh(space.pageTable) && forall a | a in space.areas :: fresh(a)
    ensures space.pageTable.rootPpn == old(mem.NextFrame())
    ensures ok <==> SectionsApart(sections) && old(mem.Free()) >= Tables(KernelLasts(sections))
    ensures ok ==> KernelUpTo(space, mem, sections, |sections|, top, trampoline) && space.pageTable.Lasts() == KernelLasts(sections)
    ensures ok ==> Beside(old(mem.ram), mem.ram, old(mem.live), mem.live, space.Footprint())
  {
    hide KernelUpTo, Confined, SectionOk, Beside, KernelLasts, Tables, ApartFromEarlier, SectionLasts, Memory.Valid, NodeFrames;
    ghost var r, l := mem.ram, mem.live;
    TrampolineNodes(sections);
    ok, space := BareKernel(mem, sections, trampoline, top);
    if !ok {
      return;
    }
    for i := 0 to |sections|
      invariant fresh(space) && fresh(space.pageTable) && forall a | a in space.areas :: fresh(a)
      invariant KernelUpTo(space, mem, sections, i, top, trampoline) && mem.Free() == old(mem.Free()) - Tables(KernelLasts(sections[..i]))
      invariant forall j | 0 <= j < i :: ApartFromEarlier(sections, j)
      invariant Beside(r, mem.ram, l, mem.live, space.Footprint())
    {
      NextLasts(sections, i);
      ghost var r1, l1, f1 := mem.ram, mem.live, space.Footprint();
      ok := PushSection(space, mem, sections, i, top, trampoline);
      if !ok {
        return;
      }
      BesideMore(r, r1, mem.ram, l, l1, mem.live, f1, space.Footprint());
    }
    assert sections[..|sections|] == sections;
    KernelDone(space, mem, sections, top, trampoline);
    ok := true;
  }

  /** A space with the trampoline, before the first section. */
  method BareKernel(mem: Memory, sections: seq<Section>, trampoline: nat, ghost top: nat) returns (ok: bool, space: MemorySet)
    requires mem.Valid() && mem.Free() >= 1 && trampoline < PPN_LIMIT
    modifies mem
    ensures fresh(space) && fresh(space.pageTable) && space.areas == [] && space.pageTable.rootPpn == old(mem.NextFrame())
    ensures ok <==> old(mem.Free()) >= Tables(KernelLasts(sections[..0]))
    ensures ok ==> KernelUpTo(space, mem, sections, 0, top, trampoline) && mem.Free() == old(mem.Free()) - Tables(KernelLasts(sections[..0]))
    ensures ok ==> Beside(old(mem.ram), mem.ram, old(mem.live), mem.live, space.Footprint())
  {
    hide MemorySet.Valid, StacksOf, Confined, SectionsMapped, Entry, WithV, Beside, KernelLasts, Tables, NodesFor, Memory.Valid;
    ghost var r, l := mem.ram, mem.live;
    space := new MemorySet(mem);
    BesideFirst(r, mem.ram, l, mem.live, space.Footprint());
    ghost var r1, l1, f1 := mem.ram, mem.live, space.Footprint();
    TrampolineNodes(sections);
    ok := space.MapTrampoline(mem, trampoline);
    if ok {
      BesideMore(r, r1, mem.ram, l, l1, mem.live, f1, space.Footprint());
      NoSections(space.pageTable.table, sections, top);
    }
  }

  lemma SetHeld(space: MemorySet, mem: Memory)
    requires space.Owned(mem)
    ensures Held(space.model, space.data)
  {
  }

  lemma KernelDone(space: MemorySet, mem: Memory, sections: seq<Section>, top: nat, trampoline: nat)
    requires KernelUpTo(space, mem, sections, |sections|, top, trampoline)
    ensures mem.Free() >= 0 && space.pageTable.Lasts() == KernelLasts(sections)
    ensures space.Valid(mem) && space.extra == {TRAMPOLINE_VPN} && StacksOf(space.model, {}, top) && space.data == map[]
    ensures SectionsIdentical(space.pageTable.table, sections, |sections|) && TrampolineAt(space.pageTable.table, trampoline)
  {
    hide KernelLasts;
    assert sections[..|sections|] == sections;
  }

  lemma StackNeedsSome(lasts: set<nat>, id: nat)
    ensures StackFrames(lasts, id) >= 0
  {
    hide NodesFor, StackLasts;
    NodesNeeded(lasts, StackLasts(id));
  }

  lemma TrampolineNodes(sections: seq<Section>)
    ensures KernelLasts(sections[..0]) == {} + {TRAMPOLINE_LAST} && Tables(KernelLasts(sections[..0])) == 1 + NodesFor({}, {TRAMPOLINE_LAST})
    ensures Tables(KernelLasts(sections[..0])) <= Tables(KernelLasts(sections))
  {
    hide Above;
    NoneAbove();
    LastsBelow(sections, 0);
    TablesMonotone(KernelLasts(sections[..0]), KernelLasts(sections));
    assert KernelLasts(sections[..0]) + KernelLasts(sections) == KernelLasts(sections);
  }

  method PushSection(space: MemorySet, mem: Memory, sections: seq<Section>, i: nat, ghost top: nat, ghost trampoline: nat) returns (ok: bool)
    requires i < |sections| && SectionOk(sections[i], top) && top <= TRAMPOLINE_VPN && KernelUpTo(space, mem, sections, i, top, trampoline)
    modifies space, space.pageTable, mem
    ensures ok <==> ApartFromEarlier(sections, i) && old(mem.Free()) >= NodesFor(KernelLasts(sections[..i]), SectionLasts(sections[i]))
    ensures ok ==> KernelUpTo(space, mem, sections, i + 1, top, trampoline)
    ensures ok ==> mem.Free() == old(mem.Free()) - NodesFor(KernelLasts(sections[..i]), SectionLasts(sections[i]))
    ensures forall a | a in space.areas :: a in old(space.areas) || fresh(a)
    ensures ok ==> Confined(old(mem.ram), mem.ram, old(mem.live), mem.live, old(space.Footprint()), space.Footprint())
  {
    hide MemorySet.Valid, StacksOf, Confined, Filled, SectionsMapped, SectionsIdentical, TrampolineAt, SectionOk, ApartFromEarlier, NodesFor, LastsOf, KernelLasts, Memory.Valid, NodeFrames;
    var s := sections[i];
    SectionFacts(s, top);
    EndsBelow(s, top);
    SectionFree(space.pageTable.table, sections, i, top);
    NextLasts(sections, i);
    ghost var t, m := space.pageTable.table, space.model;
    var area := new MapArea(s.startVa, s.endVa, false, s.perm);
    ok := space.Push(area, None, mem);
    if ok {
      SectionAdded(t, space.pageTable.table, sections, i, area.Value());
      SectionIdentical(t, space.pageTable.table, sections, i, area.Value(), trampoline);
      KernelAreaAdded(m, area.Value(), top);
      NoFrames(t, space.pageTable.table, area.Value());
    }
  }

  lemma NoFrames(t: map<nat, nat>, t': map<nat, nat>, a: Area)
    requires Filled(t, t', a.start, a.end, a.framed, a.perm, a.frames) && !a.framed
    ensures a.frames == map[]
  {
  }

  lemma SectionFacts(s: Section, top: nat)
    requires SectionOk(s, top)
    ensures s.startVa <= s.endVa && 0 < s.endVa && s.perm < 256
  {
  }

  lemma NoSections(table: map<nat, nat>, sections: seq<Section>, top: nat)
    requires table.Keys == {TRAMPOLINE_VPN}
    ensures SectionsMapped(table, sections, 0) && StacksOf([], {}, top)
  {
    forall v ensures v in table <==> v == TRAMPOLINE_VPN {
      assert v in table <==> v in table.Keys;
    }
  }

  lemma KernelAreaAdded(model: seq<Area>, a: Area, top: nat)
    requires StacksOf(model, {}, top) && !a.framed && a.start <= a.end <= top
    ensures StacksOf(model + [a], {}, top)
  {
  }
}
