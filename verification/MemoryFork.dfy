/** `MemorySet::from_existed_user` (os/src/mm/memory_set.rs:240-258): copying an address space. */
module MemoryFork {
  import opened Options
  import opened Seqs
  import opened Paging
  import opened FrameAlloc
  import opened PageTree
  import opened PageTables
  import opened MemoryAreas
  import opened MemorySets

  /** The same area on other frames. */
  ghost predicate SameArea(a: Area, b: Area)
  {
    b == a.(frames := b.frames)
  }

  /** The first areas of `model`, on other frames. */
  ghost predicate CloneOf(model: seq<Area>, copy: seq<Area>)
  {
    |copy| <= |model| && forall i | 0 <= i < |copy| :: SameArea(model[i], copy[i])
  }

  /** Every page of the copy holds what the page held at the time of the copy. */
  ghost predicate PagesCopied(data: map<nat, nat>, ram: seq<Frame>, data': map<nat, nat>, ram': seq<Frame>)
  {
    forall v | v in data' :: v in data && data[v] < |ram| && data'[v] < |ram'| && ram'[data'[v]] == ram[data[v]]
  }

  /** The number of frames of an address space that was just built with these pages and the trampoline. */
  ghost function NewFrames(pages: set<nat>): nat
  {
    Tables(PageLasts(pages) + {TRAMPOLINE_LAST}) + |pages|
  }

  /** Beside the frames `l` there is room for such an address space. */
  ghost predicate Enough(mem: Memory, l: set<nat>, pages: set<nat>)
  {
    mem.Total() - |l| >= NewFrames(pages)
  }

  ghost predicate Framed(model: seq<Area>)
  {
    forall i | 0 <= i < |model| :: model[i].framed
  }

  /**
   Fork's copy of an address space: the same pages with the same permissions and contents, on frames
   that nobody else uses. The trampoline page is shared.
   */
  method FromExistedUser(user: MemorySet, mem: Memory, trampoline: nat) returns (ms: MemorySet)
    requires user.Valid(mem) && Framed(user.model) && user.extra == {TRAMPOLINE_VPN} && trampoline < PPN_LIMIT
    requires TRAMPOLINE_VPN in user.pageTable.table && user.pageTable.table[TRAMPOLINE_VPN] == Entry(trampoline, WithV(R + X))
    requires mem.Free() >= NewFrames(user.data.Keys)
    modifies mem
    ensures fresh(ms) && fresh(ms.pageTable) && fresh(ms.areas) && ms.Valid(mem) && user.Valid(mem)
    ensures ms.Footprint() !! old(mem.live) && mem.live == old(mem.live) + ms.Footprint() && |mem.ram| == |old(mem.ram)|
    ensures forall x: nat | x < |mem.ram| && x in old(mem.live) :: mem.ram[x] == old(mem.ram)[x]
    ensures ms.data.Keys == user.data.Keys && PagesCopied(user.data, mem.ram, ms.data, mem.ram)
    ensures ms.pageTable.table.Keys == user.pageTable.table.Keys
    ensures forall v | v in user.pageTable.table :: EntryFlags(ms.pageTable.table[v]) == EntryFlags(user.pageTable.table[v])
    ensures ms.pageTable.table[TRAMPOLINE_VPN] == user.pageTable.table[TRAMPOLINE_VPN] && ms.extra == {TRAMPOLINE_VPN}
    ensures |ms.model| == |user.model| && CloneOf(user.model, ms.model)
    ensures ms.pageTable.Lasts() == PageLasts(user.data.Keys) + {TRAMPOLINE_LAST}
  {
    hide Tree, NoDup, NodeFrames, Injective, Held, Agrees, Filled, Memory.Valid, Confined, Entry, WithV, EntryFlags,
         CloneOf, PagesCopied, NewFrames, Enough, ZeroFrame, InitialPage, Framed, Beside, Full, PageLasts, NodesFor, HardwareWalk;
    ghost var r, l := mem.ram, mem.live;
    StartWith(mem, user.data.Keys);
    ms := new MemorySet(mem);
    BesideFirst(r, mem.ram, l, mem.live, ms.Footprint());
    ghost var r1, l1, f1 := mem.ram, mem.live, ms.Footprint();
    var mapped := ms.MapTrampoline(mem, trampoline);
    BesideMore(r, r1, mem.ram, l, l1, mem.live, f1, ms.Footprint());
    StaysBeside(user.pageTable.nodes, r, mem.ram, l, mem.live, ms.Footprint(), user.pageTable.table);
    CloneFirst(user.model, user.data, r, mem.ram);
    for i := 0 to |user.areas|
      invariant fresh(ms) && fresh(ms.pageTable) && fresh(ms.areas) && ms.Valid(mem) && user.Valid(mem)
      invariant |ms.model| == i && CloneOf(user.model, ms.model) && ms.extra == {TRAMPOLINE_VPN}
      invariant TRAMPOLINE_VPN in ms.pageTable.table && ms.pageTable.table[TRAMPOLINE_VPN] == Entry(trampoline, WithV(R + X))
      invariant Beside(r, mem.ram, l, mem.live, ms.Footprint()) && PagesCopied(user.data, r, ms.data, mem.ram)
      invariant ms.pageTable.Lasts() == PageLasts(ms.data.Keys) + {TRAMPOLINE_LAST}
    {
      AppendCopy(user, ms, i, mem, r, l);
    }
    BesideFacts(user.data, r, ms.data, mem.ram, l, mem.live, ms.Footprint());
    CloneKeys(user.model, user.data, user.pageTable.table, ms.model, ms.data, ms.pageTable.table, {TRAMPOLINE_VPN});
    CloneFlags(user.model, user.pageTable.table, ms.model, ms.pageTable.table, TRAMPOLINE_VPN);
  }

  /** One round of the loop over the areas: map a clone of area `i` and copy its pages. */
  method AppendCopy(user: MemorySet, ms: MemorySet, i: nat, mem: Memory, ghost r: seq<Frame>, ghost l: set<nat>)
    requires user != ms && user.pageTable != ms.pageTable && user.Valid(mem) && ms.Valid(mem) && i < |user.areas|
    requires Framed(user.model) && |ms.model| == i && CloneOf(user.model, ms.model) && ms.extra == user.extra == {TRAMPOLINE_VPN}
    requires Beside(r, mem.ram, l, mem.live, ms.Footprint()) && PagesCopied(user.data, r, ms.data, mem.ram) && user.Footprint() <= l
    requires ms.pageTable.Lasts() == PageLasts(ms.data.Keys) + {TRAMPOLINE_LAST} && Enough(mem, l, user.data.Keys)
    modifies ms, ms.pageTable, mem
    ensures ms.Valid(mem) && user.Valid(mem) && |ms.areas| == i + 1 && ms.areas[..i] == old(ms.areas) && fresh(ms.areas[i])
    ensures |ms.model| == i + 1 && CloneOf(user.model, ms.model) && ms.extra == {TRAMPOLINE_VPN}
    ensures Beside(r, mem.ram, l, mem.live, ms.Footprint()) && PagesCopied(user.data, r, ms.data, mem.ram)
    ensures ms.pageTable.Lasts() == PageLasts(ms.data.Keys) + {TRAMPOLINE_LAST}
    ensures forall v | v in old(ms.pageTable.table) :: v in ms.pageTable.table && ms.pageTable.table[v] == old(ms.pageTable.table)[v]
  {
    hide Tree, NoDup, NodeFrames, Injective, Held, Agrees, Memory.Valid, CloneOf, PagesCopied, Enough, Framed, Beside, Full, PageLasts;
    ghost var a, d, r1 := user.model[i], ms.data, mem.ram;
    FramedAt(user.model, i);
    var area := PushClone(user, ms, i, mem, r, l);
    ghost var r2 := mem.ram;
    CopyReady(user.model, user.data, user.pageTable.table, user.extra, ms.model, ms.data, ms.pageTable.table, i);
    CopyApart(r, r2, l, mem.live, NodeFrames(user.pageTable.nodes) + user.data.Values, ms.Footprint(), ms.data.Values);
    CopyPages(user.pageTable, ms.pageTable, mem, area.start, area.end, a.perm, user.data, ms.data);
    BesideWrite(r, r2, mem.ram, l, mem.live, ms.Footprint(), ms.data, area.start, area.end);
    CopiedMore(user.data, r, l, d, r1, ms.data, r2, mem.ram, area.Value());
  }

  /** Map a clone of area `i`, without its contents. */
  method PushClone(user: MemorySet, ms: MemorySet, i: nat, mem: Memory, ghost r: seq<Frame>, ghost l: set<nat>) returns (area: MapArea)
    requires user != ms && user.pageTable != ms.pageTable && user.Valid(mem) && ms.Valid(mem) && i < |user.areas|
    requires Framed(user.model) && |ms.model| == i && CloneOf(user.model, ms.model) && ms.extra == user.extra == {TRAMPOLINE_VPN}
    requires Beside(r, mem.ram, l, mem.live, ms.Footprint()) && PagesCopied(user.data, r, ms.data, mem.ram) && user.Footprint() <= l
    requires ms.pageTable.Lasts() == PageLasts(ms.data.Keys) + {TRAMPOLINE_LAST} && Enough(mem, l, user.data.Keys)
    modifies ms, ms.pageTable, mem
    ensures ms.Valid(mem) && user.Valid(mem) && ms.areas == old(ms.areas) + [area] && fresh(area)
    ensures ms.model == old(ms.model) + [area.Value()] && CloneOf(user.model, ms.model) && SameArea(user.model[i], area.Value()) && ms.extra == {TRAMPOLINE_VPN}
    ensures Beside(r, mem.ram, l, mem.live, ms.Footprint()) && Unwritten(old(mem.ram), mem.ram, old(ms.data).Values)
    ensures ms.data == old(ms.data) + area.dataFrames && ms.pageTable.Lasts() == PageLasts(ms.data.Keys) + {TRAMPOLINE_LAST}
    ensures area.start <= area.end <= VPN_LIMIT && forall v | v in old(ms.data) :: !(area.start <= v < area.end)
    ensures forall v | v in area.dataFrames :: area.start <= v < area.end && v !in old(ms.data)
    ensures forall v | v in old(ms.pageTable.table) :: v in ms.pageTable.table && ms.pageTable.table[v] == old(ms.pageTable.table)[v]
  {
    hide Tree, NoDup, NodeFrames, Injective, Held, Agrees, Filled, Memory.Valid, Confined, Entry, WithV,
         CloneOf, PagesCopied, Enough, ZeroFrame, InitialPage, Framed, Beside, Full, PageLasts, AreaFrames, LastsOf;
    ghost var t, d := ms.pageTable.table, ms.data;
    assert user.areas[i].Value() == user.model[i];
    NoConflict(user.model, user.data, user.pageTable.table, ms.model, t, user.extra, i);
    FramedAt(user.model, i);
    EnoughLeft(user, ms, i, mem, r, l);
    ghost var r1, l1, f1 := mem.ram, mem.live, ms.Footprint();
    area := new MapArea.FromAnother(user.areas[i]);
    var ok := ms.Push(area, None, mem);
    BesideMore(r, r1, mem.ram, l, l1, mem.live, f1, ms.Footprint());
    UserStays(user.pageTable.nodes, user.pageTable.table, r, r1, mem.ram, l, l1, mem.live, f1, ms.Footprint());
    CloneMore(user.model, ms.model, i, area.Value());
    NewPages(old(ms.model), d, t, ms.pageTable.table, ms.extra, area.Value());
    LastsAdded(d, ms.data, t, ms.pageTable.table, area.Value());
  }

  /** What is left is enough for the next area. */
  lemma EnoughLeft(user: MemorySet, ms: MemorySet, i: nat, mem: Memory, r: seq<Frame>, l: set<nat>)
    requires user.Valid(mem) && ms.Valid(mem) && i < |user.model| && user.model[i].framed
    requires Beside(r, mem.ram, l, mem.live, ms.Footprint()) && PagesCopied(user.data, r, ms.data, mem.ram)
    requires ms.pageTable.Lasts() == PageLasts(ms.data.Keys) + {TRAMPOLINE_LAST} && Enough(mem, l, user.data.Keys)
    requires forall v | user.model[i].start <= v < user.model[i].end :: v !in ms.pageTable.table
    ensures mem.Free() >= AreaFrames(ms.pageTable.Lasts(), user.model[i].start, user.model[i].end, true)
  {
    hide PageTable.Valid, MemorySet.Listed, Held, Agrees, Injective, PagesCopied, Beside, NewFrames, AreaFrames, PageLasts, Memory.Valid;
    TableMemory(ms.pageTable, mem);
    var a := user.model[i];
    mem.FreeIsRest();
    ms.FootprintCount(mem);
    BesideCount(r, mem.ram, l, mem.live, ms.Footprint());
    AreaPagesLeft(user.model, user.data, i, ms.model, ms.data, ms.pageTable.table, ms.extra, r, mem.ram);
    ShareOfFrames(user.data.Keys, ms.data.Keys, a.start, a.end);
  }


  /** The loop that copies the pages of one area. */
  method CopyPages(from: PageTable, to: PageTable, mem: Memory, start: nat, end: nat, ghost perm: nat, ghost src: map<nat, nat>, ghost dst: map<nat, nat>)
    requires from.Valid(mem) && to.Valid(mem) && start <= end <= VPN_LIMIT
    requires forall v | start <= v < end :: PageOf(from.table, src, v, perm) && PageOf(to.table, dst, v, perm)
    requires Injective(dst) && dst.Values <= mem.live && src.Values <= mem.live && dst.Values !! src.Values
    requires dst.Values !! NodeFrames(from.nodes) && dst.Values !! NodeFrames(to.nodes)
    modifies mem`ram
    ensures from.Valid(mem) && to.Valid(mem) && |mem.ram| == |old(mem.ram)|
    ensures forall v | start <= v < end :: Copied(old(mem.ram), mem.ram, src, dst, v)
    ensures forall x: nat | x < |mem.ram| && x !in Taken(dst, start, end) :: mem.ram[x] == old(mem.ram)[x]
  {
    hide Tree, NoDup, NodeFrames, Injective, Memory.Valid, Taken, EntryPpn, IsValid, PageMapped;
    RangeNone(dst, start);
    for vpn := start to end
      invariant from.Valid(mem) && to.Valid(mem) && |mem.ram| == |old(mem.ram)|
      invariant forall v | start <= v < vpn :: Copied(old(mem.ram), mem.ram, src, dst, v)
      invariant forall x: nat | x < |mem.ram| && x !in Taken(dst, start, vpn) :: mem.ram[x] == old(mem.ram)[x]
    {
      assert PageOf(from.table, src, vpn, perm) && PageOf(to.table, dst, vpn, perm);
      MappedPage(from.table, src, vpn, perm);
      MappedPage(to.table, dst, vpn, perm);
      var s := from.Translate(mem, vpn);
      var d := to.Translate(mem, vpn);
      LivePage(mem, src, vpn);
      LivePage(mem, dst, vpn);
      RangeMore(dst, start, vpn);
      NotTaken(src, dst, start, vpn);
      ghost var r := mem.ram;
      mem.Write(EntryPpn(d.value), mem.ram[EntryPpn(s.value)]);
      TreeFrame(from.nodes, r, mem.ram, from.table);
      TreeFrame(to.nodes, r, mem.ram, to.table);
      forall v | start <= v < vpn ensures Copied(old(mem.ram), mem.ram, src, dst, v) {
        assert Copied(old(mem.ram), r, src, dst, v);
        OtherPage(dst, v, vpn);
      }
    }
  }

  /** Page `v` is mapped to its frame. */
  ghost predicate PageOf(table: map<nat, nat>, data: map<nat, nat>, v: nat, perm: nat)
  {
    v in data && PageMapped(table, v, data[v], perm)
  }

  ghost predicate Copied(ram: seq<Frame>, ram': seq<Frame>, src: map<nat, nat>, dst: map<nat, nat>, v: nat)
  {
    v in src && v in dst && src[v] < |ram| && dst[v] < |ram'| && ram'[dst[v]] == ram[src[v]]
  }

  lemma MappedPage(table: map<nat, nat>, data: map<nat, nat>, v: nat, perm: nat)
    requires PageOf(table, data, v, perm)
    ensures v in table && v in data && EntryPpn(table[v]) == data[v]
  {
    hide Entry, WithV, EntryPpn;
    MapArea.MappedFrame(table, v, data[v], perm);
  }

  lemma LivePage(mem: Memory, data: map<nat, nat>, v: nat)
    requires mem.Valid() && v in data && data.Values <= mem.live
    ensures data[v] < |mem.ram| && data[v] in data.Values
  {
    assert data[v] in data.Values;
  }

  lemma NotTaken(src: map<nat, nat>, dst: map<nat, nat>, start: nat, v: nat)
    requires v in src && dst.Values !! src.Values
    ensures src[v] !in Taken(dst, start, v)
  {
    assert src[v] in src.Values;
    assert forall w | w in dst :: dst[w] in dst.Values;
  }

  lemma OtherPage(dst: map<nat, nat>, v: nat, w: nat)
    requires Injective(dst) && v in dst && w in dst && v != w
    ensures dst[v] != dst[w]
  {
  }

  /** The frames `fp` of a set that was built beside everything that was there. */
  ghost predicate Beside(r0: seq<Frame>, r: seq<Frame>, l0: set<nat>, l: set<nat>, fp: set<nat>)
  {
    && |r| == |r0| && fp !! l0 && l == l0 + fp
    && forall x: nat | x < |r0| && x in l0 :: r[x] == r0[x]
  }

  lemma BesideFirst(r0: seq<Frame>, r: seq<Frame>, l0: set<nat>, l: set<nat>, fp: set<nat>)
    requires Confined(r0, r, l0, l, {}, fp)
    ensures Beside(r0, r, l0, l, fp)
  {
    assert l - fp == l0;
  }

  lemma BesideMore(r0: seq<Frame>, r1: seq<Frame>, r2: seq<Frame>, l0: set<nat>, l1: set<nat>, l2: set<nat>, f1: set<nat>, f2: set<nat>)
    requires Beside(r0, r1, l0, l1, f1) && Confined(r1, r2, l1, l2, f1, f2)
    ensures Beside(r0, r2, l0, l2, f2)
  {
    assert l1 - f1 == l0;
    assert l2 - f2 == l0;
  }

  /** A set that was there before stays as it was. */
  lemma StaysBeside(n: Nodes, r0: seq<Frame>, r: seq<Frame>, l0: set<nat>, l: set<nat>, fp: set<nat>, table: map<nat, nat>)
    requires Beside(r0, r, l0, l, fp) && Tree(n, r0, table) && NodeFrames(n) <= l0
    ensures Tree(n, r, table) && l0 <= l && |r| == |r0|
  {
    hide Tree, NodeFrames;
    TreeFrame(n, r0, r, table);
  }

  lemma CloneFirst(model: seq<Area>, data: map<nat, nat>, r: seq<Frame>, ram: seq<Frame>)
    ensures CloneOf(model, []) && PagesCopied(data, r, map[], ram)
  {
  }

  lemma TableMemory(pt: PageTable, mem: Memory)
    requires pt.Valid(mem)
    ensures mem.Valid()
  {
  }

  lemma FramedAt(model: seq<Area>, i: nat)
    requires Framed(model) && i < |model|
    ensures model[i].framed
  {
  }

  lemma BesideCount(r0: seq<Frame>, r: seq<Frame>, l0: set<nat>, l: set<nat>, fp: set<nat>)
    requires Beside(r0, r, l0, l, fp)
    ensures |l| == |l0| + |fp|
  {
  }

  lemma StartWith(mem: Memory, pages: set<nat>)
    requires mem.Valid() && mem.Free() >= NewFrames(pages)
    ensures Enough(mem, mem.live, pages) && mem.Free() >= 1 + NodesFor({}, {TRAMPOLINE_LAST}) >= 1
    ensures PageLasts({}) + {TRAMPOLINE_LAST} == {} + {TRAMPOLINE_LAST}
  {
    hide NewFrames, Memory.Valid, NodesFor, PageLasts;
    mem.FreeIsRest();
    FirstNodes(pages);
  }

  lemma FirstNodes(pages: set<nat>)
    ensures NewFrames(pages) >= 1 + NodesFor({}, {TRAMPOLINE_LAST}) >= 1
    ensures PageLasts({}) + {TRAMPOLINE_LAST} == {} + {TRAMPOLINE_LAST}
  {
    hide Above, PageLasts;
    assert {} + {TRAMPOLINE_LAST} == {TRAMPOLINE_LAST};
    TablesMonotone({TRAMPOLINE_LAST}, PageLasts(pages));
    assert {TRAMPOLINE_LAST} + PageLasts(pages) == PageLasts(pages) + {TRAMPOLINE_LAST};
    assert PageLasts({}) == {} by { NoLasts(); }
    assert Above({}) == {} by { NoneAbove(); }
  }

  lemma NoLasts()
    ensures PageLasts({}) == {}
  {
  }

  lemma NoneAbove()
    ensures Above({}) == {}
  {
  }

  /** The pages copied so far and those of the next area are different pages of the original. */
  lemma AreaPagesLeft(model: seq<Area>, data: map<nat, nat>, i: nat, copy: seq<Area>, data': map<nat, nat>, table': map<nat, nat>, extra: set<nat>,
                      r: seq<Frame>, ram: seq<Frame>)
    requires i < |model| && model[i].framed && Held(model, data) && Held(copy, data') && Agrees(copy, table', extra) && PagesCopied(data, r, data', ram)
    requires forall v | model[i].start <= v < model[i].end :: v !in table'
    ensures model[i].start <= model[i].end
    ensures data'.Keys + Range(model[i].start, model[i].end) <= data.Keys && data'.Keys !! Range(model[i].start, model[i].end)
  {
    hide Agrees, HeldBy, MappedBy, Apart;
    assert AreaHeld(model[i], data);
    forall v | v in data' ensures v in table' {
      HeldIff(copy, data', v);
      HeldIsMapped(copy, v);
      MappedIff(copy, table', extra, v);
    }
    forall v | model[i].start <= v < model[i].end ensures v in data {
      assert In(model[i], v);
    }
  }

  lemma ShareOfFrames(all: set<nat>, some: set<nat>, start: nat, end: nat)
    requires start <= end && some + Range(start, end) <= all && some !! Range(start, end)
    ensures AreaFrames(PageLasts(some) + {TRAMPOLINE_LAST}, start, end, true) + Tables(PageLasts(some) + {TRAMPOLINE_LAST}) + |some| <= NewFrames(all)
  {
    hide Tables, PageLasts;
    var range, now := Range(start, end), PageLasts(some) + {TRAMPOLINE_LAST};
    RangeCount(start, end);
    assert |some + range| == |some| + |range|;
    Smaller(some + range, all);
    PageLastsMore(some, range);
    PageLastsWithin(some + range, all);
    TablesMonotone(now + PageLasts(range), PageLasts(all) + {TRAMPOLINE_LAST});
    assert now + PageLasts(range) + (PageLasts(all) + {TRAMPOLINE_LAST}) == PageLasts(all) + {TRAMPOLINE_LAST};
  }

  lemma Smaller(a: set<nat>, b: set<nat>)
    requires a <= b
    ensures |a| <= |b|
  {
    assert b == a + (b - a);
  }

  lemma LastsAdded(d: map<nat, nat>, d': map<nat, nat>, t: map<nat, nat>, t': map<nat, nat>, a: Area)
    requires d' == d + a.frames && a.framed && Filled(t, t', a.start, a.end, a.framed, a.perm, a.frames)
    ensures PageLasts(d'.Keys) + {TRAMPOLINE_LAST} == PageLasts(d.Keys) + {TRAMPOLINE_LAST} + LastsOf(a.start, a.end)
  {
    hide PageLasts, PageMapped;
    assert a.frames.Keys == Range(a.start, a.end);
    assert d'.Keys == d.Keys + a.frames.Keys;
    PageLastsMore(d.Keys, a.frames.Keys);
  }

  /** The areas of the copy so far do not meet the next area. */
  lemma NoConflict(model: seq<Area>, data: map<nat, nat>, table: map<nat, nat>, copy: seq<Area>, t: map<nat, nat>, extra: set<nat>, i: nat)
    requires i < |model| && |copy| == i && CloneOf(model, copy) && Held(model, data) && Agrees(model, table, extra) && Agrees(copy, t, extra)
    ensures var a := model[i];
            && a.start <= a.end <= VPN_LIMIT && a.perm < 256
            && forall v | a.start <= v < a.end :: v !in t
  {
    hide AreaMapped, HeldBy, PageMapped, Target;
    var a := model[i];
    assert AreaHeld(a, data);
    forall v | a.start <= v < a.end ensures v !in t {
      assert In(a, v);
      assert MappedBy(model, v);
      forall j | 0 <= j < i ensures !In(copy[j], v) {
        assert SameArea(model[j], copy[j]) && Apart(model[j], a);
      }
      assert !MappedBy(copy, v);
    }
  }

  /** The pages of area `i` in both sets, once the clone `b` of `a` is mapped. */
  lemma CopyReady(model: seq<Area>, data: map<nat, nat>, table: map<nat, nat>, extra: set<nat>,
                  copy: seq<Area>, data': map<nat, nat>, table': map<nat, nat>, i: nat)
    requires i < |model| && i < |copy| && SameArea(model[i], copy[i]) && model[i].framed
    requires Held(model, data) && Agrees(model, table, extra) && Held(copy, data') && Agrees(copy, table', extra)
    ensures forall v | model[i].start <= v < model[i].end ::
              PageOf(table, data, v, model[i].perm) && PageOf(table', data', v, model[i].perm)
  {
    hide AreaHeld, AreaMapped, HeldBy, MappedBy, Apart, PageOf;
    AreaPages(model[i], data, table);
    AreaPages(copy[i], data', table');
  }

  lemma AreaPages(a: Area, data: map<nat, nat>, table: map<nat, nat>)
    requires AreaHeld(a, data) && AreaMapped(a, table) && a.framed
    ensures forall v | a.start <= v < a.end :: PageOf(table, data, v, a.perm)
  {
    hide PageMapped;
    forall v | a.start <= v < a.end ensures PageOf(table, data, v, a.perm) {
      assert In(a, v);
      assert PageMapped(table, v, Target(a.framed, a.frames, v), a.perm);
    }
  }

  lemma UserStays(n: Nodes, table: map<nat, nat>, r: seq<Frame>, r1: seq<Frame>, r2: seq<Frame>, l: set<nat>, l1: set<nat>, l2: set<nat>,
                  f1: set<nat>, f2: set<nat>)
    requires Beside(r, r1, l, l1, f1) && Beside(r, r2, l, l2, f2) && Tree(n, r1, table) && NodeFrames(n) <= l
    ensures Tree(n, r2, table) && l <= l2
  {
    hide Tree, NodeFrames;
    TreeFrame(n, r1, r2, table);
  }

  lemma CloneMore(model: seq<Area>, copy: seq<Area>, i: nat, b: Area)
    requires i < |model| && |copy| == i + 1 && CloneOf(model, copy[..i]) && copy[i] == b && SameArea(model[i], b) && Framed(model)
    ensures CloneOf(model, copy) && model[i].framed
  {
    forall j | 0 <= j < |copy| ensures SameArea(model[j], copy[j]) {
      assert j < i ==> copy[..i][j] == copy[j];
    }
  }

  lemma CopyApart(r0: seq<Frame>, r: seq<Frame>, l0: set<nat>, l: set<nat>, user: set<nat>, fp: set<nat>, dst: set<nat>)
    requires Beside(r0, r, l0, l, fp) && user <= l0 && dst <= fp
    ensures dst !! user && user <= l
  {
  }

  lemma BesideWrite(r0: seq<Frame>, r1: seq<Frame>, r2: seq<Frame>, l0: set<nat>, l: set<nat>, fp: set<nat>, dst: map<nat, nat>, start: nat, end: nat)
    requires Beside(r0, r1, l0, l, fp) && dst.Values <= fp && |r2| == |r1|
    requires forall x: nat | x < |r2| && x !in Taken(dst, start, end) :: r2[x] == r1[x]
    ensures Beside(r0, r2, l0, l, fp)
  {
    assert forall v | v in dst :: dst[v] in dst.Values;
  }

  /** After the copy of one more area, all pages of the copy hold what the originals held. */
  lemma CopiedMore(src: map<nat, nat>, r: seq<Frame>, l: set<nat>, d: map<nat, nat>, r1: seq<Frame>, dst: map<nat, nat>, r2: seq<Frame>, r3: seq<Frame>, b: Area)
    requires PagesCopied(src, r, d, r1) && Unwritten(r1, r2, d.Values) && dst == d + b.frames && Injective(dst)
    requires |r2| == |r| == |r3| && (forall x: nat | x < |r| && x in l :: r2[x] == r[x]) && src.Values <= l
    requires forall v | v in b.frames :: b.start <= v < b.end && v !in d
    requires forall v | b.start <= v < b.end :: Copied(r2, r3, src, dst, v)
    requires forall x: nat | x < |r3| && x !in Taken(dst, b.start, b.end) :: r3[x] == r2[x]
    requires forall v | v in d :: !(b.start <= v < b.end)
    ensures PagesCopied(src, r, dst, r3)
  {
    forall v | v in dst ensures v in src && src[v] < |r| && dst[v] < |r3| && r3[dst[v]] == r[src[v]] {
      if v in b.frames {
        assert Copied(r2, r3, src, dst, v);
        assert src[v] in src.Values;
      } else {
        assert d[v] in d.Values && dst[v] == d[v];
        assert dst[v] !in Taken(dst, b.start, b.end);
      }
    }
  }

  lemma BesideFacts(data: map<nat, nat>, r: seq<Frame>, data': map<nat, nat>, ram: seq<Frame>, l: set<nat>, live: set<nat>, fp: set<nat>)
    requires Beside(r, ram, l, live, fp) && PagesCopied(data, r, data', ram) && data.Values <= l
    ensures fp !! l && live == l + fp && |ram| == |r| && forall x: nat | x < |ram| && x in l :: ram[x] == r[x]
    ensures PagesCopied(data, ram, data', ram)
  {
    forall v | v in data' ensures v in data && data[v] < |ram| && ram[data'[v]] == ram[data[v]] {
      assert data[v] in data.Values;
    }
  }

  lemma HeldIff(model: seq<Area>, data: map<nat, nat>, v: nat)
    requires Held(model, data)
    ensures v in data <==> HeldBy(model, v)
  {
    hide Apart;
    if HeldBy(model, v) {
      var i :| 0 <= i < |model| && model[i].framed && In(model[i], v);
      assert AreaHeld(model[i], data);
    }
  }

  lemma CloneCovers(model: seq<Area>, copy: seq<Area>, v: nat)
    requires CloneOf(model, copy) && |copy| == |model|
    ensures HeldBy(model, v) <==> HeldBy(copy, v)
    ensures MappedBy(model, v) <==> MappedBy(copy, v)
  {
    assert forall i | 0 <= i < |model| :: SameArea(model[i], copy[i]);
  }

  /** The copy maps the same pages. */
  lemma CloneKeys(model: seq<Area>, data: map<nat, nat>, table: map<nat, nat>, copy: seq<Area>, data': map<nat, nat>, table': map<nat, nat>, extra: set<nat>)
    requires CloneOf(model, copy) && |copy| == |model|
    requires Held(model, data) && Agrees(model, table, extra) && Held(copy, data') && Agrees(copy, table', extra)
    ensures data'.Keys == data.Keys && table'.Keys == table.Keys
  {
    hide CloneOf, Held, AreaMapped, HeldBy, MappedBy;
    forall v ensures (v in data <==> v in data') && (v in table <==> v in table') {
      HeldIff(model, data, v);
      HeldIff(copy, data', v);
      CloneCovers(model, copy, v);
      MappedIff(model, table, extra, v);
      MappedIff(copy, table', extra, v);
    }
  }

  lemma MappedIff(model: seq<Area>, table: map<nat, nat>, extra: set<nat>, v: nat)
    requires Agrees(model, table, extra)
    ensures v in table <==> v in extra || MappedBy(model, v)
  {
    if v !in table {
      NotMapped(model, table, v);
    }
  }

  /** The copy maps every page with the same flags. */
  lemma CloneFlags(model: seq<Area>, table: map<nat, nat>, copy: seq<Area>, table': map<nat, nat>, tramp: nat)
    requires CloneOf(model, copy) && |copy| == |model| && table'.Keys == table.Keys && tramp in table && table'[tramp] == table[tramp]
    requires Agrees(model, table, {tramp}) && Agrees(copy, table', {tramp})
    ensures forall v | v in table :: EntryFlags(table'[v]) == EntryFlags(table[v])
  {
    hide EntryFlags, AreaMapped, Held;
    forall v | v in table && v != tramp ensures EntryFlags(table'[v]) == EntryFlags(table[v]) {
      assert MappedBy(model, v);
      var i :| 0 <= i < |model| && In(model[i], v);
      assert SameArea(model[i], copy[i]);
      MappedFlags(model[i], table, v);
      MappedFlags(copy[i], table', v);
    }
  }

  lemma MappedFlags(a: Area, table: map<nat, nat>, v: nat)
    requires AreaMapped(a, table) && In(a, v)
    ensures v in table && a.perm < 256 && EntryFlags(table[v]) == WithV(a.perm)
  {
    hide Entry, EntryFlags, EntryPpn;
    assert PageMapped(table, v, Target(a.framed, a.frames, v), a.perm);
    EntryRoundTrip(Target(a.framed, a.frames, v), WithV(a.perm));
  }

  /** The pages of an area that was just mapped are none of the others'. */
  lemma NewPages(model: seq<Area>, data: map<nat, nat>, t: map<nat, nat>, t': map<nat, nat>, extra: set<nat>, a: Area)
    requires Held(model, data) && Agrees(model, t, extra) && Filled(t, t', a.start, a.end, a.framed, a.perm, a.frames)
    requires forall v | a.start <= v < a.end :: v !in t
    ensures forall v | v in data :: !(a.start <= v < a.end)
    ensures forall v | v in a.frames :: a.start <= v < a.end && v !in data
    ensures forall v | v in t :: v in t' && t'[v] == t[v]
  {
    hide Held, Agrees, HeldBy, MappedBy, PageMapped;
    forall v | v in data ensures v in t {
      HeldIff(model, data, v);
      HeldIsMapped(model, v);
      MappedIff(model, t, extra, v);
    }
  }

  lemma HeldIsMapped(model: seq<Area>, v: nat)
    ensures HeldBy(model, v) ==> MappedBy(model, v)
  {
  }
}
