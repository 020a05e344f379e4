/** `MemorySet` (os/src/mm/memory_set.rs:38-276): a page table and the areas mapped in it. */
module MemorySets {
  import opened Options
  import opened Seqs
  import opened Bytes
  import opened Paging
  import opened FrameAlloc
  import opened PageTree
  import opened PageTables
  import opened MemoryAreas

  const TRAMPOLINE_VPN: nat := VPN_LIMIT - 1
  /** The key of the last node on the path to the trampoline. */
  const TRAMPOLINE_LAST: nat := TRAMPOLINE_VPN / 512
  const R: nat := 2
  const W: nat := 4
  const X: nat := 8

  predicate In(a: Area, v: nat)
  {
    a.start <= v < a.end
  }

  ghost predicate Apart(a: Area, b: Area)
  {
    forall v | In(a, v) :: !In(b, v)
  }

  /** The frames of an area are its pages' frames in `data`. */
  ghost predicate AreaHeld(a: Area, data: map<nat, nat>)
  {
    && a.start <= a.end <= VPN_LIMIT && a.perm < 256
    && (a.framed ==> forall v :: v in a.frames <==> In(a, v))
    && (a.framed ==> forall v | v in a.frames :: v in data && data[v] == a.frames[v])
    && (!a.framed ==> a.frames == map[] && forall v | In(a, v) :: v !in data)
  }

  ghost predicate HeldBy(model: seq<Area>, v: nat)
  {
    exists i | 0 <= i < |model| :: model[i].framed && In(model[i], v)
  }

  /** `data` is exactly the frames of the areas, which do not overlap. */
  ghost predicate Held(model: seq<Area>, data: map<nat, nat>)
  {
    && (forall i | 0 <= i < |model| :: AreaHeld(model[i], data))
    && (forall i, j | 0 <= i < j < |model| :: Apart(model[i], model[j]))
    && (forall v | v in data :: HeldBy(model, v))
  }

  ghost predicate AreaMapped(a: Area, table: map<nat, nat>)
  {
    forall v | In(a, v) :: PageMapped(table, v, Target(a.framed, a.frames, v), a.perm)
  }

  ghost predicate MappedBy(model: seq<Area>, v: nat)
  {
    exists i | 0 <= i < |model| :: In(model[i], v)
  }

  /** The table maps the pages of the areas as the areas say, and apart from them only `extra`. */
  ghost predicate Agrees(model: seq<Area>, table: map<nat, nat>, extra: set<nat>)
  {
    && (forall i | 0 <= i < |model| :: AreaMapped(model[i], table))
    && (forall v | v in extra :: v in table && !MappedBy(model, v))
    && (forall v | v in table :: v in extra || MappedBy(model, v))
  }

  /** The frames that a set owns changed from `fp` to `fp'`; nobody else's frame was touched. */
  ghost predicate Confined(ram: seq<Frame>, ram': seq<Frame>, live: set<nat>, live': set<nat>, fp: set<nat>, fp': set<nat>)
  {
    && |ram'| == |ram| && fp <= live && fp' <= live' && live' - fp' == live - fp
    && (forall x: nat | x < |ram| && x !in fp && x !in fp' :: ram'[x] == ram[x])
  }

  /** The contents of these frames stay. */
  ghost predicate Unwritten(ram: seq<Frame>, ram': seq<Frame>, frames: set<nat>)
  {
    |ram'| == |ram| && forall x | x in frames && x < |ram| :: ram'[x] == ram[x]
  }

  /** The number of pages that have a frame. */
  ghost function PageCount(data: map<nat, nat>): nat
  {
    |data|
  }

  class MemorySet {
    const pageTable: PageTable
    var areas: seq<MapArea>
    ghost var model: seq<Area>
    ghost var data: map<nat, nat>
    ghost var extra: set<nat>

    ghost predicate Listed()
      reads this, areas
    {
      && |model| == |areas|
      && (forall i | 0 <= i < |areas| :: areas[i].Value() == model[i])
      && (forall i, j | 0 <= i < j < |areas| :: areas[i] != areas[j])
    }

    /** Every frame of the set is tracked once: by the page table or by one page of one area. */
    ghost predicate Owned(mem: Memory)
      reads this, areas, pageTable, mem
    {
      && pageTable.Valid(mem) && Listed() && Held(model, data) && Injective(data)
      && data.Values <= mem.live && data.Values !! NodeFrames(pageTable.nodes)
    }

    ghost predicate Valid(mem: Memory)
      reads this, areas, pageTable, mem
    {
      Owned(mem) && Agrees(model, pageTable.table, extra)
    }

    ghost function Footprint(): set<nat>
      reads this, pageTable
    {
      NodeFrames(pageTable.nodes) + data.Values
    }

    /** The set owns a frame for each node of its page table and for each page of its framed areas. */
    lemma FootprintCount(mem: Memory)
      requires Owned(mem)
      ensures |Footprint()| == Tables(pageTable.Lasts()) + PageCount(data)
    {
      hide NoDup, Held, Tables, Listed, Injective, Full;
      TableCount(pageTable.nodes, mem.ram, pageTable.table);
      ValuesCount(data);
    }

    /** `new_bare`. */
    constructor (mem: Memory)
      requires mem.Valid() && mem.Free() >= 1
      modifies mem
      ensures Valid(mem) && fresh(pageTable) && areas == [] && model == [] && data == map[] && extra == {} && pageTable.table == map[] && pageTable.Lasts() == {}
      ensures Footprint() !! old(mem.live) && mem.Free() == old(mem.Free()) - 1 && pageTable.rootPpn == old(mem.NextFrame())
      ensures Confined(old(mem.ram), mem.ram, old(mem.live), mem.live, {}, Footprint())
    {
      hide Tree, NoDup;
      pageTable := new PageTable(mem);
      areas, model, data, extra := [], [], map[], {};
    }

    /** `map_trampoline`; `ok == false` is the failing assertion, or a node for which there is no frame. */
    method MapTrampoline(mem: Memory, ppn: nat) returns (ok: bool)
      requires Valid(mem) && ppn < PPN_LIMIT
      modifies this`extra, pageTable, mem
      ensures ok <==> TRAMPOLINE_VPN !in old(pageTable.table) && old(mem.Free()) >= NodesFor(old(pageTable.Lasts()), {TRAMPOLINE_LAST})
      ensures ok || TRAMPOLINE_VPN in old(pageTable.table) ==> Valid(mem) && pageTable.Lasts() == old(pageTable.Lasts()) + {TRAMPOLINE_LAST}
      ensures ok || TRAMPOLINE_VPN in old(pageTable.table) ==> mem.Free() == old(mem.Free()) - NodesFor(old(pageTable.Lasts()), {TRAMPOLINE_LAST})
      ensures ok ==> extra == old(extra) + {TRAMPOLINE_VPN}
                     && pageTable.table == old(pageTable.table)[TRAMPOLINE_VPN := Entry(ppn, WithV(R + X))]
                     && pageTable.table[TRAMPOLINE_VPN] == 1024 * ppn + 11
                     && HardwareWalk(mem.ram, pageTable.rootPpn, TRAMPOLINE_VPN, 0) == Some((ppn, 11))
      ensures Confined(old(mem.ram), mem.ram, old(mem.live), mem.live, old(Footprint()), Footprint())
      ensures Unwritten(old(mem.ram), mem.ram, data.Values)
    {
      hide Tree, NoDup, NodeFrames, Injective, Held, Agrees, Entry, WithV, Memory.Valid, NodesFor, Full, HardwareWalk;
      ghost var n, t := NodeFrames(pageTable.nodes), pageTable.table;
      ok := pageTable.Map(mem, TRAMPOLINE_VPN, ppn, R + X);
      NodesGrew(old(mem.ram), mem.ram, old(mem.live), mem.live, n, NodeFrames(pageTable.nodes), data.Values);
      if ok {
        EntryMeans(ppn, R + X);
        ExtraAdded(model, t, extra, TRAMPOLINE_VPN, Entry(ppn, WithV(R + X)));
        extra := extra + {TRAMPOLINE_VPN};
      }
    }

    /** The second half of `push`: copy the data, if any, to the frames of a mapped area. */
    method Fill(area: MapArea, bytes: Option<seq<byte>>, mem: Memory)
      requires pageTable.Valid(mem)
      requires bytes.Some? ==> area.framed && area.start < area.end <= VPN_LIMIT && |bytes.value| <= PAGE_SIZE * (area.end - area.start)
      requires area.framed ==> forall v | area.start <= v < area.end ::
                 v in area.dataFrames && PageMapped(pageTable.table, v, area.dataFrames[v], area.perm)
      requires Injective(area.dataFrames) && area.dataFrames.Values <= mem.live && area.dataFrames.Values !! NodeFrames(pageTable.nodes)
      requires Cleared(mem.ram, area.Value())
      modifies mem`ram
      ensures pageTable.Valid(mem) && |mem.ram| == |old(mem.ram)|
      ensures forall x: nat | x < |mem.ram| && x !in area.dataFrames.Values :: mem.ram[x] == old(mem.ram)[x]
      ensures Begun(mem.ram, area.Value(), bytes)
    {
      hide Tree, NoDup, NodeFrames, Injective, Memory.Valid, ZeroFrame, InitialPage, Overwritten, PageMapped;
      if bytes.Some? {
        area.CopyData(pageTable, mem, bytes.value);
        InitialCopied(old(mem.ram), mem.ram, bytes.value, area.Value());
      } else {
        InitialCleared(mem.ram, area.Value());
      }
    }

    /** `push`: map an area and fill it; fails exactly when a page of it is mapped already or frames are missing. */
    method Push(area: MapArea, bytes: Option<seq<byte>>, mem: Memory) returns (ok: bool)
      requires Valid(mem) && area !in areas && area.dataFrames == map[] && area.start <= area.end <= VPN_LIMIT && area.perm < 256
      requires bytes.Some? ==> area.framed && area.start < area.end && |bytes.value| <= PAGE_SIZE * (area.end - area.start)
      modifies this, area, pageTable, mem
      ensures ok <==> (forall v | area.start <= v < area.end :: v !in old(pageTable.table))
                      && old(mem.Free()) >= AreaFrames(old(pageTable.Lasts()), area.start, area.end, area.framed)
      ensures !ok ==> areas == old(areas)
      ensures ok ==> Valid(mem) && areas == old(areas) + [area] && model == old(model) + [area.Value()] && extra == old(extra)
      ensures ok ==> data == old(data) + area.dataFrames && area.dataFrames.Values !! old(mem.live)
      ensures ok ==> Filled(old(pageTable.table), pageTable.table, area.start, area.end, area.framed, area.perm, area.dataFrames)
      ensures ok ==> Confined(old(mem.ram), mem.ram, old(mem.live), mem.live, old(Footprint()), Footprint())
      ensures ok ==> Begun(mem.ram, area.Value(), bytes)
      ensures ok ==> Unwritten(old(mem.ram), mem.ram, old(data).Values)
      ensures ok ==> pageTable.Lasts() == old(pageTable.Lasts()) + LastsOf(area.start, area.end)
      ensures ok ==> mem.Free() == old(mem.Free()) - AreaFrames(old(pageTable.Lasts()), area.start, area.end, area.framed)
    {
      hide Tree, NoDup, NodeFrames, Injective, Held, Agrees, Filled, Grew, Memory.Valid, Confined, ZeroFrame, InitialPage, Full, AreaFrames, LastsOf, Begun, Cleared, PageMapped;
      ghost var t, n, f := pageTable.table, NodeFrames(pageTable.nodes), Footprint();
      ok := area.Map(pageTable, mem);
      if !ok {
        return;
      }
      ghost var a, n' := area.Value(), NodeFrames(pageTable.nodes);
      PushFacts(model, data, extra, t, pageTable.table, a, old(mem.ram), mem.ram, old(mem.live), mem.live, n, n');
      ghost var r := mem.ram;
      Fill(area, bytes, mem);
      ConfinedMore(old(mem.ram), r, mem.ram, old(mem.live), mem.live, f, n' + (data + a.frames).Values, a.frames);
      areas, model, data := areas + [area], model + [a], data + a.frames;
    }

    /** `insert_framed_area`. */
    method InsertFramedArea(startVa: nat, endVa: nat, perm: nat, mem: Memory) returns (ok: bool)
      requires Valid(mem) && startVa <= endVa && 0 < endVa && endVa <= PAGE_SIZE * VPN_LIMIT && perm < 256
      modifies this, pageTable, mem
      ensures var start, end := startVa / PAGE_SIZE, (endVa - 1 + PAGE_SIZE) / PAGE_SIZE;
              && (ok <==> (forall v | start <= v < end :: v !in old(pageTable.table))
                          && old(mem.Free()) >= AreaFrames(old(pageTable.Lasts()), start, end, true))
              && (ok ==> Valid(mem) && |model| == |old(model)| + 1 && model[..|old(model)|] == old(model) && extra == old(extra)
                         && model[|old(model)|] == Area(start, end, true, perm, model[|old(model)|].frames)
                         && data == old(data) + model[|old(model)|].frames
                         && Filled(old(pageTable.table), pageTable.table, start, end, true, perm, model[|old(model)|].frames))
      ensures ok ==> Confined(old(mem.ram), mem.ram, old(mem.live), mem.live, old(Footprint()), Footprint())
      ensures ok ==> Unwritten(old(mem.ram), mem.ram, old(data).Values)
      ensures ok ==> forall v | v in model[|old(model)|].frames ::
                model[|old(model)|].frames[v] < |mem.ram| && mem.ram[model[|old(model)|].frames[v]] == ZeroFrame()
      ensures ok ==> var start, end := startVa / PAGE_SIZE, (endVa - 1 + PAGE_SIZE) / PAGE_SIZE;
                     && pageTable.Lasts() == old(pageTable.Lasts()) + LastsOf(start, end)
                     && mem.Free() == old(mem.Free()) - AreaFrames(old(pageTable.Lasts()), start, end, true)
      ensures ok ==> fresh(set a | a in areas && a !in old(areas)) && forall a | a in old(areas) :: a in areas
    {
      hide Tree, NoDup, NodeFrames, Injective, Held, Agrees, Filled, Memory.Valid, Confined, ZeroFrame, InitialPage, Full, AreaFrames, LastsOf;
      RoundsUp(startVa, endVa);
      var area := new MapArea(startVa, endVa, true, perm);
      ok := Push(area, None, mem);
      if ok {
        InitialZero(area.Value(), mem.ram);
      }
      assert ok ==> model[..|old(model)|] == old(model);
      assert ok ==> areas == old(areas) + [area];
    }

    /** `remove_area_with_start_vpn`: the first such area goes, with its pages and its frames. */
    method RemoveAreaWithStartVpn(startVpn: nat, mem: Memory)
      requires Valid(mem)
      modifies this, areas, pageTable, mem
      ensures Valid(mem) && extra == old(extra) && mem.Free() >= old(mem.Free()) && pageTable.Lasts() == old(pageTable.Lasts())
      ensures var i := FirstAt(old(model), startVpn);
              if i == |old(model)| then model == old(model) && pageTable.table == old(pageTable.table) && data == old(data) && mem.live == old(mem.live)
              else
                var a := old(model)[i];
                && model == old(model)[..i] + old(model)[i + 1..] && data == old(data) - Range(a.start, a.end)
                && pageTable.table == old(pageTable.table) - Range(a.start, a.end) && mem.live == old(mem.live) - a.frames.Values
      ensures Confined(old(mem.ram), mem.ram, old(mem.live), mem.live, old(Footprint()), Footprint())
      ensures Unwritten(old(mem.ram), mem.ram, old(data).Values)
      ensures forall a | a in areas :: a in old(areas)
    {
      hide Tree, NoDup, NodeFrames, Injective, Held, Agrees, Memory.Valid, FirstAt, Range, Confined;
      var i := FindArea(startVpn);
      if i == |areas| {
        Unchanged(mem.ram, mem.live, Footprint());
        return;
      }
      ghost var a, f := model[i], Footprint();
      assert areas[i].Value() == a;
      AreaFacts(model, data, pageTable.table, extra, i);
      var ok := areas[i].Unmap(pageTable, mem);
      RemovedFrames(old(mem.ram), mem.ram, old(mem.live), mem.live, NodeFrames(pageTable.nodes), data, a);
      RemovedArea(model, data, pageTable.table, old(pageTable.table), extra, i);
      areas, model, data := areas[..i] + areas[i + 1..], model[..i] + model[i + 1..], data - Range(a.start, a.end);
    }

    /** Drop every area's frames. */
    method DropAreas(mem: Memory)
      requires mem.Valid() && Listed() && Held(model, data) && Injective(data) && data.Values <= mem.live
      modifies mem
      ensures mem.Valid() && mem.live == old(mem.live) - data.Values && mem.ram == old(mem.ram) && mem.Free() >= old(mem.Free())
    {
      hide NoDup, Injective, Held, FramesOf, Memory.Valid;
      FramesOfNone();
      for i := 0 to |areas|
        invariant mem.Valid() && mem.ram == old(mem.ram) && mem.Free() >= old(mem.Free())
        invariant mem.live == old(mem.live) - FramesOf(model[..i])
      {
        NextFrames(model, data, i);
        assert areas[i].Value() == model[i];
        areas[i].DropFrames(mem);
      }
      assert model[..|areas|] == model;
      AllFrames(model, data);
    }

    /** `recycle_data_pages`: the areas and their frames go; the page table keeps its entries. */
    method RecycleDataPages(mem: Memory)
      requires Owned(mem)
      modifies this, mem
      ensures Owned(mem) && areas == [] && data == map[] && mem.live == old(mem.live) - old(data).Values
      ensures pageTable.table == old(pageTable.table) && mem.ram == old(mem.ram) && mem.Free() >= old(mem.Free())
      ensures Confined(mem.ram, mem.ram, old(mem.live), mem.live, old(Footprint()), NodeFrames(pageTable.nodes))
    {
      hide Tree, NoDup, NodeFrames, Injective, Held, Memory.Valid;
      DropAreas(mem);
      areas, model, data := [], [], map[];
      NothingHeld();
    }

    /** Dropping the set: the page table's frames and the areas' frames are free again, and no other. */
    method Drop(mem: Memory)
      requires Owned(mem)
      modifies mem
      ensures mem.Valid() && mem.live == old(mem.live) - Footprint() && mem.ram == old(mem.ram) && mem.Free() >= old(mem.Free())
    {
      hide Tree, NodeFrames, Injective, Held, NoDup;
      for i := 0 to |pageTable.frames|
        invariant mem.Valid() && mem.ram == old(mem.ram) && mem.Free() >= old(mem.Free())
        invariant mem.live == old(mem.live) - Elements(pageTable.frames[..i])
      {
        NextMember(pageTable.frames, i);
        var freed := mem.Dealloc(pageTable.frames[i]);
        assert freed;
      }
      assert pageTable.frames[..|pageTable.frames|] == pageTable.frames;
      assert Elements(pageTable.frames) == NodeFrames(pageTable.nodes);
      DropAreas(mem);
    }

    method FindArea(startVpn: nat) returns (i: nat)
      requires Listed()
      ensures i == FirstAt(model, startVpn)
    {
      i := 0;
      while i < |areas| && areas[i].start != startVpn
        invariant i <= |areas| && forall j | 0 <= j < i :: model[j].start != startVpn
      {
        i := i + 1;
      }
      FirstAtIs(model, startVpn, i);
    }
  }

  lemma TableCount(n: Nodes, ram: seq<Frame>, table: map<nat, nat>)
    requires Tree(n, ram, table) && Full(n)
    ensures |NodeFrames(n)| == Tables(n.lasts.Keys)
  {
    hide Shape, NodeFrames, Full, Tables;
    NodesCount(n, |ram|);
  }

  lemma RoundsUp(startVa: nat, endVa: nat)
    requires startVa <= endVa && 0 < endVa <= PAGE_SIZE * VPN_LIMIT
    ensures startVa / PAGE_SIZE <= (endVa - 1 + PAGE_SIZE) / PAGE_SIZE <= VPN_LIMIT
  {
  }

  /** Position of the first area that starts at a page, or the number of areas. */
  ghost function FirstAt(model: seq<Area>, v: nat): (i: nat)
    ensures i <= |model| && (i < |model| ==> model[i].start == v)
  {
    if model == [] || model[0].start == v then 0 else 1 + FirstAt(model[1..], v)
  }

  lemma {:induction false} FirstAtIs(model: seq<Area>, v: nat, i: nat)
    requires i <= |model| && (i < |model| ==> model[i].start == v) && forall j | 0 <= j < i :: model[j].start != v
    ensures FirstAt(model, v) == i
  {
    if i > 0 {
      forall j | 0 <= j < i - 1 ensures model[1..][j].start != v {
        assert model[1..][j] == model[j + 1];
      }
      FirstAtIs(model[1..], v, i - 1);
    }
  }

  /** What a page of a new area holds. */
  function InitialPage(bytes: Option<seq<byte>>, v: nat, start: nat): Frame
    requires v >= start
  {
    if bytes.None? then ZeroFrame() else Overwritten(ZeroFrame(), bytes.value, PAGE_SIZE * (v - start))
  }

  /** The frames of an area are cleared. */
  ghost predicate Cleared(ram: seq<Frame>, a: Area)
  {
    forall v | v in a.frames :: a.start <= v < a.end && a.frames[v] < |ram| && ram[a.frames[v]] == ZeroFrame()
  }

  /** The frames of an area hold its data, and zeros after them. */
  ghost predicate Begun(ram: seq<Frame>, a: Area, bytes: Option<seq<byte>>)
  {
    forall v | v in a.frames :: a.start <= v < a.end && a.frames[v] < |ram| && ram[a.frames[v]] == InitialPage(bytes, v, a.start)
  }

  lemma NodesGrew(ram: seq<Frame>, ram': seq<Frame>, live: set<nat>, live': set<nat>, n: set<nat>, n': set<nat>, d: set<nat>)
    requires Extended(ram, ram', live, live', n, n') && d <= live && d !! n && n <= live
    ensures d <= live' && d !! n' && Confined(ram, ram', live, live', n + d, n' + d) && Unwritten(ram, ram', d)
  {
    assert forall x | x in d :: x in live - n;
    assert live' - (n' + d) == (live' - n') - d;
    assert live - (n + d) == (live - n) - d;
  }

  lemma ExtraAdded(model: seq<Area>, table: map<nat, nat>, extra: set<nat>, v: nat, e: nat)
    requires Agrees(model, table, extra) && v !in table
    ensures Agrees(model, table[v := e], extra + {v})
  {
    hide PageMapped, MappedBy;
    var t := table[v := e];
    NotMapped(model, table, v);
    forall i | 0 <= i < |model| ensures AreaMapped(model[i], t) {
      forall w | In(model[i], w) ensures PageMapped(t, w, Target(model[i].framed, model[i].frames, w), model[i].perm) {
        SamePage(table, t, w, Target(model[i].framed, model[i].frames, w), model[i].perm);
      }
    }
  }

  lemma SamePage(table: map<nat, nat>, table': map<nat, nat>, w: nat, ppn: nat, perm: nat)
    requires PageMapped(table, w, ppn, perm) && (w in table ==> w in table' && table'[w] == table[w])
    ensures PageMapped(table', w, ppn, perm)
  {
  }

  lemma NotMapped(model: seq<Area>, table: map<nat, nat>, v: nat)
    requires v !in table && forall i | 0 <= i < |model| :: AreaMapped(model[i], table)
    ensures !MappedBy(model, v)
  {
    forall i | 0 <= i < |model| ensures !In(model[i], v) {
      assert AreaMapped(model[i], table);
      assert In(model[i], v) ==> PageMapped(table, v, Target(model[i].framed, model[i].frames, v), model[i].perm);
    }
  }

  // Adding an area.

  /** An area that was just mapped joins the others. */
  lemma PushHeld(model: seq<Area>, data: map<nat, nat>, extra: set<nat>, t: map<nat, nat>, t': map<nat, nat>, a: Area)
    requires Held(model, data) && Agrees(model, t, extra)
    requires a.start <= a.end <= VPN_LIMIT && a.perm < 256 && Filled(t, t', a.start, a.end, a.framed, a.perm, a.frames)
    requires forall v | a.start <= v < a.end :: v !in t
    ensures Held(model + [a], data + a.frames) && Agrees(model + [a], t', extra)
    ensures forall v | v in a.frames :: v !in data && a.start <= v < a.end
  {
    hide AreaHeld, AreaMapped, HeldBy, MappedBy, PageMapped, Apart;
    var model', data' := model + [a], data + a.frames;
    NewIsApart(model, t, a);
    NewHeld(model, data, t, t', a);
    forall i | 0 <= i < |model'| ensures AreaHeld(model'[i], data') {
      if i < |model| {
        assert Apart(model[i], a);
        StillHeld(model[i], data, a);
      }
    }
    forall i | 0 <= i < |model'| ensures AreaMapped(model'[i], t') {
      if i < |model| {
        assert Apart(model[i], a);
        StillMapped(model[i], t, t', a);
      } else {
        NewMapped(t, t', a);
      }
    }
    forall v | v in data' ensures HeldBy(model', v) {
      HeldByMore(model, a, v);
      assert v in data ==> HeldBy(model, v);
    }
    forall v ensures MappedBy(model', v) <==> MappedBy(model, v) || In(a, v) {
      HeldByMore(model, a, v);
    }
  }

  lemma NewIsApart(model: seq<Area>, t: map<nat, nat>, a: Area)
    requires (forall i | 0 <= i < |model| :: AreaMapped(model[i], t)) && forall v | a.start <= v < a.end :: v !in t
    ensures forall i | 0 <= i < |model| :: Apart(model[i], a)
    ensures forall v | In(a, v) :: !MappedBy(model, v)
  {
    forall i | 0 <= i < |model| ensures Apart(model[i], a) {
      forall v | In(model[i], v) ensures !In(a, v) {
        assert PageMapped(t, v, Target(model[i].framed, model[i].frames, v), model[i].perm);
      }
    }
    forall v | In(a, v) ensures !MappedBy(model, v) {
      NotMapped(model, t, v);
    }
  }

  lemma NewHeld(model: seq<Area>, data: map<nat, nat>, t: map<nat, nat>, t': map<nat, nat>, a: Area)
    requires a.start <= a.end <= VPN_LIMIT && a.perm < 256 && Filled(t, t', a.start, a.end, a.framed, a.perm, a.frames)
    requires (forall v | v in data :: HeldBy(model, v)) && forall v | In(a, v) :: !MappedBy(model, v)
    ensures AreaHeld(a, data + a.frames)
    ensures forall v | In(a, v) :: v !in data
    ensures forall v | v in a.frames :: In(a, v) && a.framed
  {
    hide PageMapped;
    forall v | In(a, v) ensures v !in data {
      assert v in data ==> HeldBy(model, v) && !MappedBy(model, v);
    }
  }

  lemma StillHeld(b: Area, data: map<nat, nat>, a: Area)
    requires AreaHeld(b, data) && Apart(b, a) && forall v | v in a.frames :: In(a, v)
    ensures AreaHeld(b, data + a.frames)
  {
  }

  lemma StillMapped(b: Area, t: map<nat, nat>, t': map<nat, nat>, a: Area)
    requires AreaMapped(b, t) && Apart(b, a) && Filled(t, t', a.start, a.end, a.framed, a.perm, a.frames)
    ensures AreaMapped(b, t')
  {
    hide PageMapped;
    forall v | In(b, v) ensures PageMapped(t', v, Target(b.framed, b.frames, v), b.perm) {
      SamePage(t, t', v, Target(b.framed, b.frames, v), b.perm);
    }
  }

  lemma NewMapped(t: map<nat, nat>, t': map<nat, nat>, a: Area)
    requires Filled(t, t', a.start, a.end, a.framed, a.perm, a.frames)
    ensures AreaMapped(a, t')
  {
    hide PageMapped;
  }

  lemma HeldByMore(model: seq<Area>, a: Area, v: nat)
    ensures HeldBy(model + [a], v) <==> HeldBy(model, v) || (a.framed && In(a, v))
    ensures MappedBy(model + [a], v) <==> MappedBy(model, v) || In(a, v)
  {
    var m := model + [a];
    assert m[|model|] == a;
    assert forall i | 0 <= i < |model| :: m[i] == model[i];
  }

  lemma UnionValues(data: map<nat, nat>, more: map<nat, nat>)
    requires forall v | v in more :: v !in data
    ensures (data + more).Values == data.Values + more.Values
    ensures Injective(data) && Injective(more) && data.Values !! more.Values ==> Injective(data + more)
  {
    var d := data + more;
    assert forall v | v in data :: d[v] == data[v] && data[v] in data.Values;
    assert forall v | v in more :: d[v] == more[v] && more[v] in more.Values;
  }

  lemma PushFrames(ram: seq<Frame>, ram': seq<Frame>, live: set<nat>, live': set<nat>, n: set<nat>, n': set<nat>,
                   data: map<nat, nat>, more: map<nat, nat>)
    requires Grew(ram, ram', live, live', n, n', more) && Injective(data) && data.Values <= live && data.Values !! n
    requires forall v | v in more :: v !in data
    ensures Injective(data + more) && (data + more).Values <= live' && (data + more).Values !! n'
    ensures (data + more).Values == data.Values + more.Values && more.Values !! live && more.Values !! n' && more.Values <= live'
    ensures Injective(more) && data.Values !! more.Values && Unwritten(ram, ram', data.Values)
    ensures Confined(ram, ram', live, live', n + data.Values, n' + (data + more).Values)
    ensures forall v | v in more :: more[v] < |ram'| && ram'[more[v]] == ZeroFrame()
  {
    hide Injective, ZeroFrame;
    UnionValues(data, more);
    assert forall x | x in data.Values :: x in live - n;
    assert live' - (n' + (data.Values + more.Values)) == (live' - n' - more.Values) - data.Values;
    assert live - (n + data.Values) == (live - n) - data.Values;
  }

  lemma PushFacts(model: seq<Area>, data: map<nat, nat>, extra: set<nat>, t: map<nat, nat>, t': map<nat, nat>, a: Area,
                  ram: seq<Frame>, ram': seq<Frame>, live: set<nat>, live': set<nat>, n: set<nat>, n': set<nat>)
    requires Held(model, data) && Agrees(model, t, extra)
    requires a.start <= a.end <= VPN_LIMIT && a.perm < 256 && Filled(t, t', a.start, a.end, a.framed, a.perm, a.frames)
    requires forall v | a.start <= v < a.end :: v !in t
    requires Grew(ram, ram', live, live', n, n', a.frames) && Injective(data) && data.Values <= live && data.Values !! n
    ensures Held(model + [a], data + a.frames) && Agrees(model + [a], t', extra)
    ensures Injective(data + a.frames) && (data + a.frames).Values <= live' && (data + a.frames).Values !! n'
    ensures a.frames.Values <= (data + a.frames).Values && a.frames.Values !! live && a.frames.Values !! n' && a.frames.Values <= live'
    ensures Injective(a.frames) && data.Values !! a.frames.Values && Unwritten(ram, ram', data.Values)
    ensures Confined(ram, ram', live, live', n + data.Values, n' + (data + a.frames).Values) && Cleared(ram', a)
    ensures a.framed ==> forall v | a.start <= v < a.end :: v in a.frames && PageMapped(t', v, a.frames[v], a.perm)
  {
    hide Held, Agrees, Injective, Grew, Confined, Filled, PageMapped, ZeroFrame;
    PushHeld(model, data, extra, t, t', a);
    PushFrames(ram, ram', live, live', n, n', data, a.frames);
    FilledFrames(t, t', a);
  }

  lemma FilledFrames(t: map<nat, nat>, t': map<nat, nat>, a: Area)
    requires Filled(t, t', a.start, a.end, a.framed, a.perm, a.frames)
    ensures a.framed ==> forall v | a.start <= v < a.end :: v in a.frames && PageMapped(t', v, a.frames[v], a.perm)
  {
    hide PageMapped;
    if a.framed {
      forall v | a.start <= v < a.end ensures v in a.frames && PageMapped(t', v, a.frames[v], a.perm) {
        assert PageMapped(t', v, Target(a.framed, a.frames, v), a.perm);
      }
    }
  }

  lemma InitialCopied(ram: seq<Frame>, ram': seq<Frame>, bytes: seq<byte>, a: Area)
    requires Cleared(ram, a) && DataCopied(ram, ram', a, bytes)
    ensures Begun(ram', a, Some(bytes))
  {
    hide Overwritten, ZeroFrame, Begins;
    forall v | v in a.frames ensures ram'[a.frames[v]] == InitialPage(Some(bytes), v, a.start) {
      OverwrittenBytes(ZeroFrame(), bytes, PAGE_SIZE * (v - a.start));
      BeginsOnce(ram'[a.frames[v]], InitialPage(Some(bytes), v, a.start), ZeroFrame(), bytes, PAGE_SIZE * (v - a.start));
    }
  }

  /** A new page holds the data of its area, and zeros after them. */
  lemma InitialByte(bytes: Option<seq<byte>>, v: nat, start: nat, o: nat)
    requires v >= start && o < PAGE_SIZE
    ensures InitialPage(bytes, v, start)[o]
         == if bytes.Some? && PAGE_SIZE * (v - start) + o < |bytes.value| then bytes.value[PAGE_SIZE * (v - start) + o] else 0
  {
    hide Overwritten;
    if bytes.Some? {
      OverwrittenBytes(ZeroFrame(), bytes.value, PAGE_SIZE * (v - start));
    }
  }

  lemma InitialCleared(ram: seq<Frame>, a: Area)
    requires Cleared(ram, a)
    ensures Begun(ram, a, None)
  {
    hide ZeroFrame;
  }

  lemma InitialZero(a: Area, ram: seq<Frame>)
    requires Begun(ram, a, None)
    ensures forall v | v in a.frames :: a.frames[v] < |ram| && ram[a.frames[v]] == ZeroFrame()
  {
    hide ZeroFrame;
  }

  /** Writing to the new frames stays inside the set. */
  lemma ConfinedMore(r0: seq<Frame>, r1: seq<Frame>, r2: seq<Frame>, l0: set<nat>, l1: set<nat>, f0: set<nat>, f1: set<nat>,
                     more: map<nat, nat>)
    requires Confined(r0, r1, l0, l1, f0, f1) && |r2| == |r1| && more.Values <= f1
    requires forall x: nat | x < |r2| && x !in more.Values :: r2[x] == r1[x]
    ensures Confined(r0, r2, l0, l1, f0, f1)
  {
  }

  // Removing an area.

  lemma Unchanged(ram: seq<Frame>, live: set<nat>, fp: set<nat>)
    requires fp <= live
    ensures Confined(ram, ram, live, live, fp, fp)
  {
  }

  lemma AreaFacts(model: seq<Area>, data: map<nat, nat>, table: map<nat, nat>, extra: set<nat>, i: nat)
    requires i < |model| && Held(model, data) && Agrees(model, table, extra) && Injective(data)
    ensures var a := model[i];
            && a.start <= a.end <= VPN_LIMIT && Injective(a.frames) && a.frames.Values <= data.Values
            && (a.framed ==> forall v :: v in a.frames <==> a.start <= v < a.end)
            && (!a.framed ==> a.frames == map[])
            && (forall v | a.start <= v < a.end :: v in table)
            && (forall v | v in a.frames :: v in data && data[v] == a.frames[v])
            && (forall v | v in data && a.start <= v < a.end :: v in a.frames)
  {
    hide AreaHeld, AreaMapped, Apart, HeldBy, MappedBy, Injective;
    HeldFacts(model[i], data);
    MappedFacts(model[i], table);
  }

  lemma HeldFacts(a: Area, data: map<nat, nat>)
    requires AreaHeld(a, data) && Injective(data)
    ensures a.start <= a.end <= VPN_LIMIT && Injective(a.frames) && a.frames.Values <= data.Values
    ensures a.framed ==> forall v :: v in a.frames <==> a.start <= v < a.end
    ensures !a.framed ==> a.frames == map[]
    ensures forall v | v in a.frames :: v in data && data[v] == a.frames[v]
    ensures forall v | v in data && a.start <= v < a.end :: v in a.frames
  {
    hide Injective;
    assert forall v | a.start <= v < a.end :: In(a, v);
    FramesWithin(data, a);
    assert Injective(a.frames) by {
      SubInjective(data, a.frames);
    }
  }

  lemma SubInjective(data: map<nat, nat>, m: map<nat, nat>)
    requires Injective(data) && forall v | v in m :: v in data && data[v] == m[v]
    ensures Injective(m)
  {
  }

  lemma MappedFacts(a: Area, table: map<nat, nat>)
    requires AreaMapped(a, table)
    ensures forall v | a.start <= v < a.end :: v in table
  {
    forall v | a.start <= v < a.end ensures v in table {
      assert In(a, v);
      assert PageMapped(table, v, Target(a.framed, a.frames, v), a.perm);
    }
  }

  lemma ValueIn(m: map<nat, nat>, v: nat)
    ensures v in m ==> m[v] in m.Values
  {
  }

  /** The frames behind an area are the difference of the owned frames. */
  lemma RemovedValues(data: map<nat, nat>, a: Area)
    requires Injective(data) && (forall v | v in a.frames :: v in data && data[v] == a.frames[v] && a.start <= v < a.end)
    requires forall v | v in data && a.start <= v < a.end :: v in a.frames
    ensures (data - Range(a.start, a.end)).Values == data.Values - a.frames.Values && Injective(data - Range(a.start, a.end))
  {
    var d := data - Range(a.start, a.end);
    assert forall v | v in d :: d[v] == data[v];
    forall x | x in data.Values && x !in a.frames.Values ensures x in d.Values {
      var v :| v in data && data[v] == x;
      ValueIn(a.frames, v);
      assert v in d && d[v] == x;
    }
    forall x | x in d.Values ensures x in data.Values && x !in a.frames.Values {
      var v :| v in d && d[v] == x;
      assert forall w | w in a.frames :: w != v && data[w] == a.frames[w];
    }
  }

  lemma RemovedFrames(ram: seq<Frame>, ram': seq<Frame>, live: set<nat>, live': set<nat>, n: set<nat>, data: map<nat, nat>, a: Area)
    requires Injective(data) && data.Values <= live && data.Values !! n && n <= live' && live' == live - a.frames.Values
    requires (forall v | v in a.frames :: v in data && data[v] == a.frames[v] && a.start <= v < a.end)
    requires forall v | v in data && a.start <= v < a.end :: v in a.frames
    requires |ram'| == |ram| && forall x: nat | x < |ram| && x !in n :: ram'[x] == ram[x]
    ensures var d := data - Range(a.start, a.end);
            && Injective(d) && d.Values <= live' && d.Values !! n
            && Confined(ram, ram', live, live', n + data.Values, n + d.Values)
  {
    hide Injective, Range;
    RemovedValues(data, a);
    assert live' - (n + (data.Values - a.frames.Values)) == live - (n + data.Values) by {
      assert a.frames.Values <= data.Values by {
        FramesWithin(data, a);
      }
    }
  }

  lemma FramesWithin(data: map<nat, nat>, a: Area)
    requires forall v | v in a.frames :: v in data && data[v] == a.frames[v]
    ensures a.frames.Values <= data.Values
  {
    assert forall v | v in a.frames :: a.frames[v] == data[v] && data[v] in data.Values;
  }

  lemma RemovedArea(model: seq<Area>, data: map<nat, nat>, table': map<nat, nat>, table: map<nat, nat>, extra: set<nat>, i: nat)
    requires i < |model| && Held(model, data) && Agrees(model, table, extra) && table' == table - Range(model[i].start, model[i].end)
    ensures var a, m := model[i], model[..i] + model[i + 1..];
            Held(m, data - Range(a.start, a.end)) && Agrees(m, table', extra)
  {
    hide AreaHeld, AreaMapped, HeldBy, MappedBy, PageMapped, Apart;
    var a, m := model[i], model[..i] + model[i + 1..];
    var data' := data - Range(a.start, a.end);
    assert forall j | 0 <= j < |m| :: m[j] == model[if j < i then j else j + 1];
    forall j | 0 <= j < |m| ensures AreaHeld(m[j], data') && AreaMapped(m[j], table') {
      var k := if j < i then j else j + 1;
      AreaStays(model[k], a, data, table, k < i);
    }
    forall v | v in data' ensures HeldBy(m, v) {
      assert HeldBy(model, v);
      CoveredStays(model, i, v);
    }
    forall v | v in table' && v !in extra ensures MappedBy(m, v) {
      assert MappedBy(model, v);
      CoveredStays(model, i, v);
    }
    forall v | v in extra ensures v in table' && !MappedBy(m, v) {
      ExtraStays(model, i, v);
    }
  }

  lemma AreaStays(b: Area, a: Area, data: map<nat, nat>, table: map<nat, nat>, first: bool)
    requires AreaHeld(b, data) && AreaMapped(b, table) && if first then Apart(b, a) else Apart(a, b)
    ensures AreaHeld(b, data - Range(a.start, a.end)) && AreaMapped(b, table - Range(a.start, a.end))
  {
    hide PageMapped;
    assert forall v | In(b, v) :: !In(a, v);
    forall v | In(b, v) ensures PageMapped(table - Range(a.start, a.end), v, Target(b.framed, b.frames, v), b.perm) {
      SamePage(table, table - Range(a.start, a.end), v, Target(b.framed, b.frames, v), b.perm);
    }
  }

  lemma CoveredStays(model: seq<Area>, i: nat, v: nat)
    requires i < |model| && !In(model[i], v)
    ensures var m := model[..i] + model[i + 1..];
            (HeldBy(model, v) ==> HeldBy(m, v)) && (MappedBy(model, v) ==> MappedBy(m, v))
  {
    var m := model[..i] + model[i + 1..];
    assert forall j | 0 <= j < |model| && j != i :: m[if j < i then j else j - 1] == model[j];
  }

  lemma ExtraStays(model: seq<Area>, i: nat, v: nat)
    requires i < |model| && !MappedBy(model, v)
    ensures !MappedBy(model[..i] + model[i + 1..], v) && !In(model[i], v)
  {
    var m := model[..i] + model[i + 1..];
    assert forall j | 0 <= j < |m| :: m[j] == model[if j < i then j else j + 1];
  }

  // Dropping everything.

  lemma NextMember(s: seq<nat>, i: nat)
    requires NoDup(s) && i < |s|
    ensures Elements(s[..i + 1]) == Elements(s[..i]) + {s[i]} && s[i] !in Elements(s[..i]) && s[i] in s
  {
    assert s[..i + 1] == s[..i] + [s[i]];
  }

  ghost function FramesOf(model: seq<Area>): set<nat>
  {
    if model == [] then {} else FramesOf(model[..|model| - 1]) + model[|model| - 1].frames.Values
  }

  lemma FramesOfNone()
    ensures FramesOf([]) == {}
  {
  }

  lemma NothingHeld()
    ensures Held([], map[]) && Injective(map[])
  {
  }

  /** The frames of area `i` are not among those of the areas before it. */
  lemma NextFrames(model: seq<Area>, data: map<nat, nat>, i: nat)
    requires i < |model| && Held(model, data) && Injective(data)
    ensures var a := model[i];
            && (forall v | v in a.frames :: a.start <= v < a.end) && Injective(a.frames) && a.frames.Values <= data.Values
            && a.frames.Values !! FramesOf(model[..i]) && FramesOf(model[..i + 1]) == FramesOf(model[..i]) + a.frames.Values
    ensures model[..0] == []
  {
    hide AreaHeld, Apart, HeldBy, Injective;
    assert model[..i + 1][..i] == model[..i];
    HeldFacts(model[i], data);
    assert AreaHeld(model[i], data);
    FramesApart(model, data, i, i);
  }

  lemma {:induction false} FramesApart(model: seq<Area>, data: map<nat, nat>, i: nat, j: nat)
    requires j <= i < |model| && Held(model, data) && Injective(data)
    ensures model[i].frames.Values !! FramesOf(model[..j])
  {
    hide AreaHeld, HeldBy, Injective, Apart;
    if j > 0 {
      assert model[..j][..j - 1] == model[..j - 1];
      FramesApart(model, data, i, j - 1);
      TwoApart(model[j - 1], model[i], data);
    }
  }

  lemma TwoApart(a: Area, b: Area, data: map<nat, nat>)
    requires AreaHeld(a, data) && AreaHeld(b, data) && Apart(a, b) && Injective(data)
    ensures a.frames.Values !! b.frames.Values
  {
    forall x | x in a.frames.Values ensures x !in b.frames.Values {
      var v :| v in a.frames && a.frames[v] == x;
      assert In(a, v);
      assert forall w | w in b.frames :: In(b, w) && w != v;
    }
  }

  /** The areas' frames are all of `data`. */
  lemma AllFrames(model: seq<Area>, data: map<nat, nat>)
    requires Held(model, data)
    ensures FramesOf(model) == data.Values
  {
    hide Apart;
    forall x | x in data.Values ensures x in FramesOf(model) {
      var v :| v in data && data[v] == x;
      assert HeldBy(model, v);
      var i :| 0 <= i < |model| && model[i].framed && In(model[i], v);
      assert AreaHeld(model[i], data);
      assert model[i].frames[v] == x && x in model[i].frames.Values;
      FramesMember(model, i, x);
    }
    FramesBounded(model, data, |model|);
    assert model[..|model|] == model;
  }

  lemma {:induction false} FramesMember(model: seq<Area>, i: nat, x: nat)
    requires i < |model| && x in model[i].frames.Values
    ensures x in FramesOf(model)
  {
    if i < |model| - 1 {
      FramesMember(model[..|model| - 1], i, x);
    }
  }

  lemma {:induction false} FramesBounded(model: seq<Area>, data: map<nat, nat>, j: nat)
    requires j <= |model| && forall i | 0 <= i < |model| :: AreaHeld(model[i], data)
    ensures FramesOf(model[..j]) <= data.Values
  {
    hide AreaHeld;
    if j > 0 {
      assert model[..j][..j - 1] == model[..j - 1];
      FramesBounded(model, data, j - 1);
      HeldWithin(model[j - 1], data);
    }
  }

  lemma HeldWithin(a: Area, data: map<nat, nat>)
    requires AreaHeld(a, data)
    ensures a.frames.Values <= data.Values
  {
    FramesWithin(data, a);
  }
}
