/** `MapArea` (os/src/mm/memory_set.rs:278-362): a range of virtual pages and the frames behind it. */
module MemoryAreas {
  import opened Seqs
  import opened Bytes
  import opened Paging
  import opened FrameAlloc
  import opened PageTree
  import opened PageTables

  /** The value of a `MapArea`; `frames` is empty for an identically mapped one. */
  datatype Area = Area(start: nat, end: nat, framed: bool, perm: nat, frames: map<nat, nat>)

  /** The physical page that a page of the area is mapped to. */
  function Target(framed: bool, frames: map<nat, nat>, vpn: nat): nat
  {
    if !framed then vpn else if vpn in frames then frames[vpn] else 0
  }

  ghost predicate PageMapped(table: map<nat, nat>, vpn: nat, ppn: nat, perm: nat)
  {
    vpn in table && ppn < PPN_LIMIT && perm < 256 && table[vpn] == Entry(ppn, WithV(perm))
  }

  /**
   `table'` is `table` and mappings for the pages from `start` to `k`; all other pages are as they were.
   */
  ghost predicate Filled(table: map<nat, nat>, table': map<nat, nat>, start: nat, k: nat, framed: bool, perm: nat, frames: map<nat, nat>)
  {
    && (forall v :: v in table' <==> v in table || start <= v < k)
    && (forall v | v in table && !(start <= v < k) :: table'[v] == table[v])
    && (forall v | start <= v < k :: PageMapped(table', v, Target(framed, frames, v), perm))
    && (framed ==> forall v :: v in frames <==> start <= v < k)
    && (!framed ==> frames == map[])
  }

  /**
   The nodes of a page table grew from `nodes` to `nodes'`, and `data` are new cleared frames; all
   frames of others are as they were.
   */
  ghost predicate Grew(ram: seq<Frame>, ram': seq<Frame>, live: set<nat>, live': set<nat>, nodes: set<nat>, nodes': set<nat>,
                       data: map<nat, nat>)
  {
    && |ram'| == |ram| && nodes <= nodes' <= live' && nodes <= live && Injective(data)
    && data.Values !! live && data.Values !! nodes' && data.Values <= live'
    && live' - nodes' - data.Values == live - nodes
    && (forall x: nat | x < |ram| && x !in nodes' && x !in data.Values :: ram'[x] == ram[x])
    && (forall v | v in data :: data[v] < |ram| && ram'[data[v]] == ZeroFrame())
  }

  lemma GrewNot(ram: seq<Frame>, live: set<nat>, nodes: set<nat>)
    requires nodes <= live
    ensures Grew(ram, ram, live, live, nodes, nodes, map[])
  {
  }

  lemma InsertValues(data: map<nat, nat>, v: nat, f: nat)
    requires v !in data
    ensures data[v := f].Values == data.Values + {f}
    ensures Injective(data) && f !in data.Values ==> Injective(data[v := f])
  {
    var d := data[v := f];
    assert forall w | w in data :: d[w] == data[w] && data[w] in data.Values;
    assert d[v] == f;
  }

  lemma GrewSets(l0: set<nat>, l1: set<nat>, n0: set<nat>, n1: set<nat>, d: set<nat>)
    requires n0 <= n1 <= l1 && n0 <= l0 && l1 - n1 - d == l0 - n0
    ensures l0 <= l1
  {
    forall x | x in l0 ensures x in l1 {
      assert x !in n0 ==> x in l0 - n0;
    }
  }

  lemma GrewSetsMore(l0: set<nat>, l1: set<nat>, l2: set<nat>, n0: set<nat>, n1: set<nat>, n2: set<nat>, d: set<nat>, f: nat)
    requires l1 - n1 - d == l0 - n0 && n1 <= n2 && n1 <= l1 && d <= l1 && d !! n1 && l2 - n2 == l1 + {f} - n1 && f !in l1
    ensures d + {f} <= l2 && d + {f} !! n2 && l2 - n2 - (d + {f}) == l0 - n0
  {
    assert forall x | x in d + {f} :: x in l1 + {f} - n1;
    assert l2 - n2 - (d + {f}) == l1 - n1 - d;
  }

  /** One more framed page. */
  lemma GrewFramed(r0: seq<Frame>, r1: seq<Frame>, r2: seq<Frame>, l0: set<nat>, l1: set<nat>, l2: set<nat>,
                   n0: set<nat>, n1: set<nat>, n2: set<nat>, data: map<nat, nat>, v: nat, f: nat)
    requires Grew(r0, r1, l0, l1, n0, n1, data) && v !in data && f < |r1| && f !in l1
    requires Extended(r1[f := ZeroFrame()], r2, l1 + {f}, l2, n1, n2)
    ensures Grew(r0, r2, l0, l2, n0, n2, data[v := f])
  {
    hide ZeroFrame, Injective;
    GrewSets(l0, l1, n0, n1, data.Values);
    GrewSetsMore(l0, l1, l2, n0, n1, n2, data.Values, f);
    InsertValues(data, v, f);
    var d := data[v := f];
    forall w | w in d ensures d[w] < |r0| && r2[d[w]] == ZeroFrame() {
      assert w != v ==> data[w] in data.Values && r1[data[w]] == ZeroFrame();
    }
  }

  /** One more identically mapped page. */
  lemma GrewNodes(r0: seq<Frame>, r1: seq<Frame>, r2: seq<Frame>, l0: set<nat>, l1: set<nat>, l2: set<nat>,
                  n0: set<nat>, n1: set<nat>, n2: set<nat>)
    requires Grew(r0, r1, l0, l1, n0, n1, map[]) && Extended(r1, r2, l1, l2, n1, n2)
    ensures Grew(r0, r2, l0, l2, n0, n2, map[])
  {
    hide ZeroFrame, Injective;
  }

  lemma FilledMore(table: map<nat, nat>, t1: map<nat, nat>, start: nat, k: nat, framed: bool, perm: nat, frames: map<nat, nat>, ppn: nat)
    requires Filled(table, t1, start, k, framed, perm, frames) && start <= k && k !in table && perm < 256 && ppn < PPN_LIMIT
    requires !framed ==> ppn == k
    ensures Filled(table, t1[k := Entry(ppn, WithV(perm))], start, k + 1, framed, perm, if framed then frames[k := ppn] else frames)
  {
    hide Entry, WithV;
    var t2, frames' := t1[k := Entry(ppn, WithV(perm))], if framed then frames[k := ppn] else frames;
    forall v | start <= v < k + 1 ensures PageMapped(t2, v, Target(framed, frames', v), perm) {
      assert v < k ==> PageMapped(t1, v, Target(framed, frames, v), perm);
    }
  }

  /** Page `v` is not before the page of `startVa`, and begins below `endVa`. */
  predicate Touched(startVa: nat, endVa: nat, v: nat)
  {
    startVa / PAGE_SIZE <= v && v * PAGE_SIZE < endVa
  }

  lemma CeilTouches(startVa: nat, endVa: nat)
    requires 0 < endVa
    ensures forall v: nat :: startVa / PAGE_SIZE <= v < (endVa - 1 + PAGE_SIZE) / PAGE_SIZE <==> Touched(startVa, endVa, v)
  {
  }

  /** How many frames it takes to map the pages from `start` to `end`. */
  ghost function AreaFrames(lasts: set<nat>, start: nat, end: nat, framed: bool): int
  {
    NodesFor(lasts, LastsOf(start, end)) + if framed then end - start else 0
  }

  lemma NodesNeeded(lasts: set<nat>, more: set<nat>)
    ensures NodesFor(lasts, more) >= 0
  {
    hide Tables;
    TablesMonotone(lasts, more);
  }

  lemma AreaNone(lasts: set<nat>, start: nat, framed: bool)
    ensures lasts + LastsOf(start, start) == lasts && AreaFrames(lasts, start, start, framed) == 0
  {
    hide Tables;
    LastsNone(start);
    assert lasts + {} == lasts;
  }

  /** One more page of an area takes its share of the frames for the whole area. */
  lemma AreaMore(lasts: set<nat>, start: nat, k: nat, end: nat, framed: bool)
    requires start <= k < end
    ensures var here := lasts + LastsOf(start, k);
            && lasts + LastsOf(start, k + 1) == here + {k / 512}
            && AreaFrames(lasts, start, k + 1, framed) == AreaFrames(lasts, start, k, framed) + NodesFor(here, {k / 512}) + if framed then 1 else 0
    ensures AreaFrames(lasts, start, k + 1, framed) <= AreaFrames(lasts, start, end, framed)
  {
    hide Tables, LastsOf;
    LastsMore(start, k);
    assert lasts + (LastsOf(start, k) + {k / 512}) == lasts + LastsOf(start, k) + {k / 512};
    LastsWithin(start, k + 1, end);
    TablesMonotone(lasts + LastsOf(start, k + 1), LastsOf(start, end));
    assert lasts + LastsOf(start, k + 1) + LastsOf(start, end) == lasts + LastsOf(start, end);
  }

  lemma LastsWithin(start: nat, k: nat, end: nat)
    requires k <= end
    ensures LastsOf(start, k) <= LastsOf(start, end)
  {
    hide PageLasts;
    PageLastsWithin(Range(start, k), Range(start, end));
  }

  /** `page'` is `page` but for the bytes of `data` from `from` on, which it begins with as far as they go. */
  ghost predicate Begins(page': Frame, page: Frame, data: seq<byte>, from: nat)
  {
    forall o | 0 <= o < PAGE_SIZE :: page'[o] == if from + o < |data| then data[from + o] else page[o]
  }

  /** Byte `o` of page `v` has become byte `PAGE_SIZE * (v - start) + o` of the data, if there is one. */
  ghost predicate DataCopied(ram: seq<Frame>, ram': seq<Frame>, a: Area, data: seq<byte>)
  {
    && |ram'| == |ram|
    && forall v | v in a.frames && a.start <= v < a.end && a.frames[v] < |ram| ::
         Begins(ram'[a.frames[v]], ram[a.frames[v]], data, PAGE_SIZE * (v - a.start))
  }

  class MapArea {
    const start: nat
    const end: nat
    const framed: bool
    const perm: nat
    var dataFrames: map<nat, nat>

    function Value(): Area
      reads this
    {
      Area(start, end, framed, perm, dataFrames)
    }

    /**
     `MapArea::new`: the pages from that of `startVa` on that begin below `endVa`. So an empty range in the
     middle of a page covers that page, and an aligned one covers none.
     */
    constructor (startVa: nat, endVa: nat, framed: bool, perm: nat)
      requires 0 < endVa && startVa <= endVa
      ensures Value() == Area(startVa / PAGE_SIZE, (endVa - 1 + PAGE_SIZE) / PAGE_SIZE, framed, perm, map[])
      ensures forall v: nat :: start <= v < end <==> Touched(startVa, endVa, v)
    {
      CeilTouches(startVa, endVa);
      start, end := startVa / PAGE_SIZE, (endVa - 1 + PAGE_SIZE) / PAGE_SIZE;
      this.framed, this.perm, dataFrames := framed, perm, map[];
    }

    /** `from_another`: the same range, without frames. */
    constructor FromAnother(another: MapArea)
      ensures Value() == another.Value().(frames := map[])
    {
      start, end, framed, perm, dataFrames := another.start, another.end, another.framed, another.perm, map[];
    }

    /** `map_one`; `ok == false` is the failing assertion that the page is not mapped yet, or a missing frame. */
    method MapOne(pt: PageTable, mem: Memory, vpn: nat) returns (ok: bool, ghost ppn: nat)
      requires pt.Valid(mem) && vpn < VPN_LIMIT && perm < 256
      modifies this`dataFrames, pt, mem
      ensures ok <==> vpn !in old(pt.table) && old(mem.Free()) >= NodesFor(old(pt.Lasts()), {vpn / 512}) + if framed then 1 else 0
      ensures pt.Linked(mem)
      ensures ok ==> pt.Valid(mem) && ppn < PPN_LIMIT && pt.table == old(pt.table)[vpn := Entry(ppn, WithV(perm))]
      ensures ok ==> pt.Lasts() == old(pt.Lasts()) + {vpn / 512}
      ensures ok ==> mem.Free() == old(mem.Free()) - NodesFor(old(pt.Lasts()), {vpn / 512}) - if framed then 1 else 0
      ensures ok ==> dataFrames == if framed then old(dataFrames)[vpn := ppn] else old(dataFrames)
      ensures ok && framed ==> ppn < |old(mem.ram)| && ppn !in old(mem.live)
                               && Extended(old(mem.ram)[ppn := ZeroFrame()], mem.ram, old(mem.live) + {ppn}, mem.live,
                                           old(NodeFrames(pt.nodes)), NodeFrames(pt.nodes))
      ensures ok && !framed ==> ppn == vpn
                                && Extended(old(mem.ram), mem.ram, old(mem.live), mem.live, old(NodeFrames(pt.nodes)), NodeFrames(pt.nodes))
    {
      hide Tree, NodeFrames, NoDup, ZeroFrame, Extended, Entry, WithV, NodesFor, Full;
      NodesNeeded(pt.Lasts(), {vpn / 512});
      var target := vpn;
      ppn := target;
      if framed {
        var frame := mem.Alloc();
        if frame.None? {
          return false, ppn;
        }
        target := frame.value;
        dataFrames := dataFrames[vpn := target];
        StillTree(pt.nodes, old(mem.ram), mem.ram, pt.table, old(mem.live), target);
      }
      ppn := target;
      ok := pt.Map(mem, vpn, target, perm);
    }

    static lemma StillTree(n: Nodes, ram: seq<Frame>, ram': seq<Frame>, table: map<nat, nat>, live: set<nat>, f: nat)
      requires Tree(n, ram, table) && NodeFrames(n) <= live && f !in live && f < |ram| && ram' == ram[f := ZeroFrame()]
      ensures Tree(n, ram', table)
    {
      hide Tree, ZeroFrame, NodeFrames;
      TreeFrame(n, ram, ram', table);
    }

    /** `map`: succeeds exactly when no page of the range is mapped yet and there are enough frames. */
    method Map(pt: PageTable, mem: Memory) returns (ok: bool)
      requires pt.Valid(mem) && start <= end <= VPN_LIMIT && perm < 256 && dataFrames == map[]
      modifies this`dataFrames, pt, mem
      ensures ok <==> (forall v | start <= v < end :: v !in old(pt.table)) && old(mem.Free()) >= AreaFrames(old(pt.Lasts()), start, end, framed)
      ensures ok ==> pt.Valid(mem) && Filled(old(pt.table), pt.table, start, end, framed, perm, dataFrames)
      ensures ok ==> Grew(old(mem.ram), mem.ram, old(mem.live), mem.live, old(NodeFrames(pt.nodes)), NodeFrames(pt.nodes), dataFrames)
      ensures ok ==> pt.Lasts() == old(pt.Lasts()) + LastsOf(start, end)
      ensures ok ==> mem.Free() == old(mem.Free()) - AreaFrames(old(pt.Lasts()), start, end, framed)
    {
      hide Tree, NodeFrames, NoDup, ZeroFrame, Extended, Entry, WithV, Grew, Filled, Memory.Valid, Full, AreaFrames, NodesFor, LastsOf;
      ghost var lasts := pt.Lasts();
      GrewNot(mem.ram, mem.live, NodeFrames(pt.nodes));
      FilledNot(pt.table, start, framed, perm);
      AreaNone(lasts, start, framed);
      for k := start to end
        invariant pt.Valid(mem)
        invariant Filled(old(pt.table), pt.table, start, k, framed, perm, dataFrames)
        invariant Grew(old(mem.ram), mem.ram, old(mem.live), mem.live, old(NodeFrames(pt.nodes)), NodeFrames(pt.nodes), dataFrames)
        invariant forall v | start <= v < k :: v !in old(pt.table)
        invariant pt.Lasts() == lasts + LastsOf(start, k) && mem.Free() == old(mem.Free()) - AreaFrames(lasts, start, k, framed)
      {
        ghost var t, fr, r, l, n := pt.table, dataFrames, mem.ram, mem.live, NodeFrames(pt.nodes);
        NotYet(old(pt.table), t, start, k, framed, perm, fr);
        AreaMore(lasts, start, k, end, framed);
        ghost var ppn;
        ok, ppn := MapOne(pt, mem, k);
        if !ok {
          return;
        }
        FilledMore(old(pt.table), t, start, k, framed, perm, fr, ppn);
        if framed {
          GrewFramed(old(mem.ram), r, mem.ram, old(mem.live), l, mem.live, old(NodeFrames(pt.nodes)), n, NodeFrames(pt.nodes), fr, k, ppn);
        } else {
          GrewNodes(old(mem.ram), r, mem.ram, old(mem.live), l, mem.live, old(NodeFrames(pt.nodes)), n, NodeFrames(pt.nodes));
        }
      }
      FreeFrames(mem);
      ok := true;
    }

    static lemma FilledNot(table: map<nat, nat>, start: nat, framed: bool, perm: nat)
      ensures Filled(table, table, start, start, framed, perm, map[])
    {
    }

    static lemma NotYet(table: map<nat, nat>, t: map<nat, nat>, start: nat, k: nat, framed: bool, perm: nat, frames: map<nat, nat>)
      requires Filled(table, t, start, k, framed, perm, frames) && start <= k
      ensures k in t <==> k in table
      ensures framed ==> k !in frames
      ensures !framed ==> frames == map[]
    {
    }

    /** `unmap_one`: drop the frame, then remove the mapping. */
    method UnmapOne(pt: PageTable, mem: Memory, vpn: nat) returns (ok: bool)
      requires pt.Valid(mem) && vpn < VPN_LIMIT
      requires framed && vpn in dataFrames ==> dataFrames[vpn] in mem.live && dataFrames[vpn] !in NodeFrames(pt.nodes)
      modifies this`dataFrames, pt, mem
      ensures pt.Valid(mem) && pt.nodes == old(pt.nodes) && pt.table == old(pt.table) - {vpn}
      ensures ok <==> vpn in old(pt.table)
      ensures dataFrames == if framed then old(dataFrames) - {vpn} else old(dataFrames)
      ensures mem.live == old(mem.live) - (if framed && vpn in old(dataFrames) then {old(dataFrames)[vpn]} else {})
      ensures |mem.ram| == |old(mem.ram)| && mem.Free() >= old(mem.Free())
      ensures forall x: nat | x < |mem.ram| && x !in NodeFrames(pt.nodes) :: mem.ram[x] == old(mem.ram)[x]
    {
      hide Tree, NodeFrames, NoDup;
      if framed {
        if vpn in dataFrames {
          var freed := mem.Dealloc(dataFrames[vpn]);
          assert freed;
        }
        dataFrames := dataFrames - {vpn};
      }
      ok := pt.Unmap(mem, vpn);
    }

    /** `unmap`: succeeds exactly when every page of the range is mapped, and frees exactly its frames. */
    method Unmap(pt: PageTable, mem: Memory) returns (ok: bool)
      requires pt.Valid(mem) && start <= end <= VPN_LIMIT
      requires framed ==> (forall v :: v in dataFrames <==> start <= v < end) && Injective(dataFrames)
      requires framed ==> dataFrames.Values <= mem.live && dataFrames.Values !! NodeFrames(pt.nodes)
      requires !framed ==> dataFrames == map[]
      modifies this`dataFrames, pt, mem
      ensures ok <==> forall v | start <= v < end :: v in old(pt.table)
      ensures ok ==> pt.Valid(mem) && pt.nodes == old(pt.nodes) && pt.table == old(pt.table) - Range(start, end)
      ensures ok ==> dataFrames == map[] && mem.live == old(mem.live) - old(dataFrames).Values
      ensures ok ==> |mem.ram| == |old(mem.ram)| && mem.Free() >= old(mem.Free())
      ensures ok ==> forall x: nat | x < |mem.ram| && x !in NodeFrames(pt.nodes) :: mem.ram[x] == old(mem.ram)[x]
    {
      hide Tree, NodeFrames, NoDup, Injective, Range, Taken, Memory.Valid, Full;
      ghost var fr := dataFrames;
      RangeNone(fr, start);
      for k := start to end
        invariant pt.Valid(mem) && pt.nodes == old(pt.nodes) && pt.table == old(pt.table) - Range(start, k)
        invariant dataFrames == fr - Range(start, k) && mem.live == old(mem.live) - Taken(fr, start, k)
        invariant |mem.ram| == |old(mem.ram)| && mem.Free() >= old(mem.Free())
        invariant forall x: nat | x < |mem.ram| && x !in NodeFrames(pt.nodes) :: mem.ram[x] == old(mem.ram)[x]
        invariant forall v | start <= v < k :: v in old(pt.table)
      {
        RangeMore(fr, start, k);
        ok := UnmapOne(pt, mem, k);
        if !ok {
          return;
        }
      }
      RangeAll(fr, start, end);
      ok := true;
    }

    /** Dropping an area drops the trackers of its frames and leaves the page table alone. */
    method DropFrames(mem: Memory)
      requires mem.Valid() && (forall v | v in dataFrames :: start <= v < end) && Injective(dataFrames) && dataFrames.Values <= mem.live
      modifies mem
      ensures mem.Valid() && mem.live == old(mem.live) - dataFrames.Values && mem.ram == old(mem.ram) && mem.Free() >= old(mem.Free())
    {
      hide NoDup, Injective, Range, Taken;
      RangeNone(dataFrames, start);
      var k := start;
      while k < end
        invariant start <= k && (k <= end || k == start) && mem.Valid() && mem.ram == old(mem.ram) && mem.Free() >= old(mem.Free())
        invariant mem.live == old(mem.live) - Taken(dataFrames, start, k)
      {
        RangeMore(dataFrames, start, k);
        if k in dataFrames {
          var freed := mem.Dealloc(dataFrames[k]);
          assert freed;
        }
        k := k + 1;
      }
      RangeAll(dataFrames, start, k);
    }

    /** `copy_data`: fill the pages from the start of the area; `data` must fit. */
    method CopyData(pt: PageTable, mem: Memory, data: seq<byte>)
      requires pt.Valid(mem) && framed && start < end <= VPN_LIMIT && |data| <= PAGE_SIZE * (end - start)
      requires forall v | start <= v < end :: v in dataFrames && PageMapped(pt.table, v, dataFrames[v], perm)
      requires Injective(dataFrames) && dataFrames.Values <= mem.live && dataFrames.Values !! NodeFrames(pt.nodes)
      modifies mem`ram
      ensures pt.Valid(mem) && |mem.ram| == |old(mem.ram)|
      ensures DataCopied(old(mem.ram), mem.ram, Value(), data)
      ensures forall x: nat | x < |mem.ram| && x !in dataFrames.Values :: mem.ram[x] == old(mem.ram)[x]
    {
      hide Tree, NodeFrames, NoDup, Injective, Overwritten, Begins, Entry, WithV, EntryPpn, Memory.Valid, IsValid;
      var from := 0;
      var vpn := start;
      while true
        invariant start <= vpn < end && from == PAGE_SIZE * (vpn - start) && (from == 0 || from < |data|)
        invariant pt.Valid(mem) && |mem.ram| == |old(mem.ram)|
        invariant forall v | start <= v < end && dataFrames[v] < |mem.ram| ::
                    mem.ram[dataFrames[v]] == if v < vpn then Overwritten(old(mem.ram)[dataFrames[v]], data, PAGE_SIZE * (v - start))
                                              else old(mem.ram)[dataFrames[v]]
        invariant forall x: nat | x < |mem.ram| && x !in dataFrames.Values :: mem.ram[x] == old(mem.ram)[x]
        decreases end - vpn
      {
        var e := pt.Translate(mem, vpn);
        MappedFrame(pt.table, vpn, dataFrames[vpn], perm);
        var f := EntryPpn(e.value);
        LiveFrame(mem, f, dataFrames, vpn);
        ghost var r := mem.ram;
        mem.Write(f, Overwritten(mem.ram[f], data, from));
        TreeFrame(pt.nodes, r, mem.ram, pt.table);
        OtherPages(dataFrames, vpn);
        from := from + PAGE_SIZE;
        if from >= |data| {
          break;
        }
        vpn := vpn + 1;
      }
      forall v | v in dataFrames && start <= v < end && dataFrames[v] < |mem.ram|
        ensures Begins(mem.ram[dataFrames[v]], old(mem.ram)[dataFrames[v]], data, PAGE_SIZE * (v - start)) {
        OverwrittenBytes(old(mem.ram)[dataFrames[v]], data, PAGE_SIZE * (v - start));
        if v > vpn {
          OverwrittenPast(old(mem.ram)[dataFrames[v]], data, PAGE_SIZE * (v - start));
        }
      }
    }

    static lemma OtherPages(frames: map<nat, nat>, v: nat)
      requires Injective(frames) && v in frames
      ensures frames[v] in frames.Values
      ensures forall w | w in frames && w != v :: frames[w] != frames[v]
    {
    }

    static lemma LiveFrame(mem: Memory, f: nat, frames: map<nat, nat>, v: nat)
      requires mem.Valid() && v in frames && frames[v] == f && frames.Values <= mem.live
      ensures f < |mem.ram|
    {
      assert frames[v] in frames.Values;
    }

    static lemma MappedFrame(table: map<nat, nat>, vpn: nat, ppn: nat, perm: nat)
      requires PageMapped(table, vpn, ppn, perm)
      ensures EntryPpn(table[vpn]) == ppn
    {
      hide Entry, WithV, EntryPpn;
      NewEntry(ppn, perm);
    }
  }

  /** `page` with the bytes of `data` from `from` on copied to its beginning, as far as they go. */
  function Overwritten(page: Frame, data: seq<byte>, from: nat): Frame
  {
    var part := if from >= |data| then [] else if |data| < from + PAGE_SIZE then data[from..] else data[from..from + PAGE_SIZE];
    part + page[|part|..]
  }

  lemma OverwrittenBytes(page: Frame, data: seq<byte>, from: nat)
    ensures Begins(Overwritten(page, data, from), page, data, from)
  {
  }

  lemma BeginsOnce(a: Frame, b: Frame, page: Frame, data: seq<byte>, from: nat)
    requires Begins(a, page, data, from) && Begins(b, page, data, from)
    ensures a == b
  {
    forall o | 0 <= o < PAGE_SIZE ensures a[o] == b[o] {
    }
  }

  lemma OverwrittenPast(page: Frame, data: seq<byte>, from: nat)
    requires from >= |data|
    ensures Overwritten(page, data, from) == page
  {
  }

  /** The frames behind the pages from `start` to `k`. */
  ghost function Taken(frames: map<nat, nat>, start: nat, k: nat): set<nat>
  {
    set v | v in frames && start <= v < k :: frames[v]
  }

  lemma RangeNone(frames: map<nat, nat>, start: nat)
    ensures Range(start, start) == {} && Taken(frames, start, start) == {}
  {
  }

  lemma RangeMore(frames: map<nat, nat>, start: nat, k: nat)
    requires start <= k
    ensures Range(start, k + 1) == Range(start, k) + {k} && k !in Range(start, k)
    ensures Taken(frames, start, k + 1) == Taken(frames, start, k) + (if k in frames then {frames[k]} else {})
    ensures Injective(frames) && k in frames ==> frames[k] !in Taken(frames, start, k) && frames[k] in frames.Values
  {
  }

  lemma RangeAll(frames: map<nat, nat>, start: nat, end: nat)
    requires forall v | v in frames :: start <= v < end
    ensures frames - Range(start, end) == map[] && Taken(frames, start, end) == frames.Values
  {
  }
}
