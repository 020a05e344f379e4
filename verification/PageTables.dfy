/** `PageTable` (os/src/mm/page_table.rs:66-157): a finite map from virtual pages to entries. */
module PageTables {
  import opened Options
  import opened Seqs
  import opened Paging
  import opened FrameAlloc
  import opened PageTree

  /** `ppn` is the node at `level` on the path to `vpn`. */
  ghost predicate At(n: Nodes, vpn: nat, level: nat, ppn: nat)
  {
    if level == 0 then ppn == n.root
    else if level == 1 then vpn / 262144 in n.mids && n.mids[vpn / 262144] == ppn
    else vpn / 512 in n.lasts && n.lasts[vpn / 512] == ppn
  }

  /** There is no node below `level` on the path to `vpn`. */
  ghost predicate Missing(n: Nodes, vpn: nat, level: nat)
  {
    if level == 0 then vpn / 262144 !in n.mids else vpn / 512 !in n.lasts
  }

  ghost function Added(n: Nodes, vpn: nat, level: nat, f: nat): Nodes
  {
    if level == 0 then n.(mids := n.mids[vpn / 262144 := f]) else n.(lasts := n.lasts[vpn / 512 := f])
  }

  lemma ReadChild(n: Nodes, ram: seq<Frame>, table: map<nat, nat>, vpn: nat, level: nat, ppn: nat)
    requires Tree(n, ram, table) && vpn < VPN_LIMIT && level < 2 && At(n, vpn, level, ppn)
    ensures ppn < |ram| && ppn in NodeFrames(n)
    ensures var e := Pte(ram[ppn], Index(vpn, level));
            if Missing(n, vpn, level) then !IsValid(e) else IsValid(e) && At(n, vpn, level + 1, EntryPpn(e))
  {
    hide Pte, IsValid, EntryPpn, Injective;
    Keys(vpn);
    NoEntry();
    if level == 0 {
      assert RootEntry(n, ram, vpn / 262144);
      if vpn / 262144 in n.mids {
        PointerEntry(n.mids[vpn / 262144]);
      }
    } else {
      assert MidEntry(n, ram, vpn / 512);
      assert ppn in n.mids.Values;
      if vpn / 512 in n.lasts {
        PointerEntry(n.lasts[vpn / 512]);
      }
    }
  }

  lemma AddChild(n: Nodes, ram: seq<Frame>, table: map<nat, nat>, vpn: nat, level: nat, ppn: nat, f: nat)
    requires Tree(n, ram, table) && vpn < VPN_LIMIT && level < 2 && At(n, vpn, level, ppn) && Missing(n, vpn, level)
    requires f < |ram| && f !in NodeFrames(n)
    ensures ppn < |ram| && ppn != f && ppn in NodeFrames(n) && f < PPN_LIMIT
    ensures Tree(Added(n, vpn, level, f), ram[f := ZeroFrame()][ppn := SetPte(ram[ppn], Index(vpn, level), Entry(f, V))], table)
    ensures NodeFrames(Added(n, vpn, level, f)) == NodeFrames(n) + {f}
    ensures At(Added(n, vpn, level, f), vpn, level, ppn) && At(Added(n, vpn, level, f), vpn, level + 1, f)
    ensures Added(n, vpn, level, f).root == n.root
  {
    hide Tree, Pte, SetPte, Shape, Injective, ZeroFrame, NodeFrames;
    Keys(vpn);
    ReadChild(n, ram, table, vpn, level, ppn);
    ShapeOf(n, ram, table);
    if level == 0 {
      AddMid(n, ram, table, vpn / 262144, f);
      AddMidShape(n, |ram|, vpn / 262144, f);
    } else {
      AddLast(n, ram, table, vpn / 512, f);
      AddLastShape(n, |ram|, vpn / 512, f);
    }
  }

  lemma ShapeOf(n: Nodes, ram: seq<Frame>, table: map<nat, nat>)
    requires Tree(n, ram, table)
    ensures Shape(n, |ram|) && |ram| <= PPN_LIMIT
  {
    hide Injective, NodeFrames;
  }

  /** Memory changed only inside `frames`, which grew by frames that were not in use. */
  ghost predicate Extended(ram: seq<Frame>, ram': seq<Frame>, live: set<nat>, live': set<nat>, frames: set<nat>, frames': set<nat>)
  {
    && |ram'| == |ram| && frames <= frames' <= live' && live' - frames' == live - frames
    && (forall x: nat | x < |ram| && x !in frames' :: ram'[x] == ram[x])
  }

  datatype MapOp = MapPage(vpn: nat, ppn: nat, flags: nat) | UnmapPage(vpn: nat)

  /** The operations on a finite map from pages to entries. */
  ghost function After(table: map<nat, nat>, ops: seq<MapOp>): map<nat, nat>
  {
    if ops == [] then table
    else
      var before := After(table, ops[..|ops| - 1]);
      match ops[|ops| - 1]
      case MapPage(vpn, ppn, flags) => if ppn < PPN_LIMIT && flags < 256 then before[vpn := Entry(ppn, WithV(flags))] else before
      case UnmapPage(vpn) => before - {vpn}
  }

  /** Only unmapped pages are mapped and only mapped pages are unmapped, as the assertions demand. */
  ghost predicate Legal(table: map<nat, nat>, ops: seq<MapOp>)
  {
    ops == [] ||
    var before, last := After(table, ops[..|ops| - 1]), ops[|ops| - 1];
    && Legal(table, ops[..|ops| - 1]) && last.vpn < VPN_LIMIT
    && if last.MapPage? then last.vpn !in before && last.ppn < PPN_LIMIT && last.flags < 256 else last.vpn in before
  }

  lemma {:induction false} LegalAt(table: map<nat, nat>, ops: seq<MapOp>, i: nat)
    requires Legal(table, ops) && i < |ops|
    ensures var before := After(table, ops[..i]);
            && ops[i].vpn < VPN_LIMIT && Legal(table, ops[..i + 1])
            && (if ops[i].MapPage? then ops[i].vpn !in before && ops[i].ppn < PPN_LIMIT && ops[i].flags < 256 else ops[i].vpn in before)
    ensures After(table, ops[..i + 1]) == match ops[i]
                                          case MapPage(vpn, ppn, flags) => After(table, ops[..i])[vpn := Entry(ppn, WithV(flags))]
                                          case UnmapPage(vpn) => After(table, ops[..i]) - {vpn}
  {
    hide Entry, WithV;
    if i < |ops| - 1 {
      var m := ops[..|ops| - 1];
      LegalAt(table, m, i);
      assert m[..i] == ops[..i] && m[..i + 1] == ops[..i + 1];
    } else {
      assert ops[..i + 1] == ops;
    }
  }

  /** The last operation on a page decides; operations on other pages do not matter. */
  lemma {:induction false} LastDecides(table: map<nat, nat>, ops: seq<MapOp>, k: nat)
    requires Legal(table, ops) && k < |ops| && forall j | k < j < |ops| :: ops[j].vpn != ops[k].vpn
    ensures var t, v := After(table, ops), ops[k].vpn;
            if ops[k].MapPage? then ops[k].ppn < PPN_LIMIT && ops[k].flags < 256 && v in t && t[v] == 1024 * ops[k].ppn + ops[k].flags + (1 - ops[k].flags % 2)
            else v !in t
  {
    if k < |ops| - 1 {
      var m := ops[..|ops| - 1];
      LastDecides(table, m, k);
    }
  }

  class PageTable {
    const rootPpn: nat
    var frames: seq<nat>
    ghost var nodes: Nodes
    ghost var table: map<nat, nat>

    /** `frames` tracks exactly the nodes of a tree that holds `table`. */
    ghost predicate Linked(mem: Memory)
      reads this, mem
    {
      && mem.Valid() && nodes.root == rootPpn && Tree(nodes, mem.ram, table)
      && NoDup(frames) && (forall f :: f in frames <==> f in NodeFrames(nodes))
      && NodeFrames(nodes) <= mem.live
    }

    ghost predicate Valid(mem: Memory)
      reads this, mem
    {
      Linked(mem) && Full(nodes)
    }

    /** The keys of the last nodes, which determine how many nodes there are. */
    ghost function Lasts(): set<nat>
      reads this
    {
      nodes.lasts.Keys
    }

    /** `new`. */
    constructor (mem: Memory)
      requires mem.Valid() && mem.Free() >= 1
      modifies mem
      ensures Valid(mem) && table == map[] && NodeFrames(nodes) == {rootPpn} && Lasts() == {} && mem.Free() == old(mem.Free()) - 1
      ensures rootPpn == old(mem.NextFrame()) && rootPpn !in old(mem.live)
      ensures Extended(old(mem.ram), mem.ram, old(mem.live), mem.live, {}, {rootPpn})
    {
      hide Tree, NoDup;
      var frame := mem.Alloc();
      rootPpn := frame.value;
      frames := [frame.value];
      nodes := Nodes(frame.value, map[], map[]);
      table := map[];
      new;
      EmptyTree(mem.ram, rootPpn);
      NoDupNone();
      NoDupAppend([], rootPpn);
      assert [] + [rootPpn] == frames;
    }

    /** The missing node below `ppn`: a cleared frame, and an entry that points to it. `None` is the failing `unwrap`. */
    method CreateChild(mem: Memory, vpn: nat, level: nat, ppn: nat) returns (r: Option<nat>)
      requires Linked(mem) && vpn < VPN_LIMIT && level < 2
      requires At(nodes, vpn, level, ppn) && Missing(nodes, vpn, level)
      modifies this, mem
      ensures Linked(mem) && table == old(table) && (r.None? <==> old(mem.Free()) == 0)
      ensures Extended(old(mem.ram), mem.ram, old(mem.live), mem.live, old(NodeFrames(nodes)), NodeFrames(nodes))
      ensures r.Some? ==> mem.Free() == old(mem.Free()) - 1 && nodes == Added(old(nodes), vpn, level, r.value)
                          && At(nodes, vpn, level, ppn) && At(nodes, vpn, level + 1, r.value)
    {
      hide Tree, NodeFrames, NoDup, Pte, SetPte, ZeroFrame, At, Missing, Added;
      var frame := mem.Alloc();
      if frame.None? {
        return None;
      }
      var f := frame.value;
      AddChild(nodes, old(mem.ram), table, vpn, level, ppn, f);
      mem.Write(ppn, SetPte(mem.ram[ppn], Index(vpn, level), Entry(f, V)));
      NoDupAppend(frames, f);
      frames := frames + [f];
      nodes := Added(nodes, vpn, level, f);
      r := Some(f);
    }

    /**
     `find_pte_create`: the entry for a page, creating the nodes on the path to it. `None` is the failing
     `unwrap` when there are fewer free frames than missing nodes.
     */
    method FindPteCreate(mem: Memory, vpn: nat) returns (r: Option<(nat, nat)>)
      requires Valid(mem) && vpn < VPN_LIMIT
      modifies this, mem
      ensures r.Some? <==> old(mem.Free()) >= NodesFor(old(Lasts()), {vpn / 512})
      ensures Linked(mem) && table == old(table)
      ensures r.Some? ==> Valid(mem) && r == Slot(nodes, vpn)
      ensures r.Some? ==> Lasts() == old(Lasts()) + {vpn / 512} && mem.Free() == old(mem.Free()) - NodesFor(old(Lasts()), {vpn / 512})
      ensures Extended(old(mem.ram), mem.ram, old(mem.live), mem.live, old(NodeFrames(nodes)), NodeFrames(nodes))
    {
      hide Tree, NodeFrames, NoDup, Pte, SetPte, ZeroFrame, Memory.Valid, EntryPpn, IsValid, Above, Tables;
      ghost var n := nodes;
      NodesOnPath(n, vpn);
      var idx := Indexes(vpn);
      var ppn := rootPpn;
      var level := 0;
      while level < 2
        invariant level <= 2 && Linked(mem) && table == old(table) && At(nodes, vpn, level, ppn)
        invariant nodes.mids.Keys == if level == 0 then n.mids.Keys else n.mids.Keys + {vpn / 262144}
        invariant nodes.lasts.Keys == if level < 2 then n.lasts.Keys else n.lasts.Keys + {vpn / 512}
        invariant mem.Free() == old(mem.Free()) - (if level > 0 && vpn / 262144 !in n.mids then 1 else 0)
                                                - if level > 1 && vpn / 512 !in n.lasts then 1 else 0
        invariant Extended(old(mem.ram), mem.ram, old(mem.live), mem.live, old(NodeFrames(nodes)), NodeFrames(nodes))
      {
        ReadChild(nodes, mem.ram, table, vpn, level, ppn);
        if !IsValid(Pte(mem.ram[ppn], idx[level])) {
          ghost var r0, l0, n0 := mem.ram, mem.live, NodeFrames(nodes);
          var child := CreateChild(mem, vpn, level, ppn);
          ExtendedTrans(old(mem.ram), r0, mem.ram, old(mem.live), l0, mem.live, old(NodeFrames(nodes)), n0, NodeFrames(nodes));
          if child.None? {
            return None;
          }
          StillAt(nodes, vpn, level, ppn, child.value, mem.ram, table);
        }
        ppn := EntryPpn(Pte(mem.ram[ppn], idx[level]));
        level := level + 1;
      }
      r := Some((ppn, idx[2]));
      StillFull(n, nodes, vpn);
      FreeFrames(mem);
    }

    static lemma ExtendedTrans(r0: seq<Frame>, r1: seq<Frame>, r2: seq<Frame>, l0: set<nat>, l1: set<nat>, l2: set<nat>,
                               f0: set<nat>, f1: set<nat>, f2: set<nat>)
      requires Extended(r0, r1, l0, l1, f0, f1) && Extended(r1, r2, l1, l2, f1, f2)
      ensures Extended(r0, r2, l0, l2, f0, f2)
    {
    }

    /** `find_pte`. */
    method FindPte(mem: Memory, vpn: nat) returns (r: Option<(nat, nat)>)
      requires Valid(mem) && vpn < VPN_LIMIT
      ensures r == Slot(nodes, vpn)
    {
      hide Tree, NodeFrames, NoDup, Pte, Memory.Valid, EntryPpn, IsValid;
      var idx := Indexes(vpn);
      var ppn := rootPpn;
      var level := 0;
      Keys(vpn);
      while level < 2
        invariant level <= 2 && At(nodes, vpn, level, ppn)
      {
        ReadChild(nodes, mem.ram, table, vpn, level, ppn);
        UpperMissing(nodes, mem.ram, table, vpn);
        if !IsValid(Pte(mem.ram[ppn], idx[level])) {
          return None;
        }
        ppn := EntryPpn(Pte(mem.ram[ppn], idx[level]));
        level := level + 1;
      }
      r := Some((ppn, idx[2]));
    }

    /** `map`; `ok == false` is its failing assertion, or a node for which there is no frame. */
    method Map(mem: Memory, vpn: nat, ppn: nat, flags: nat) returns (ok: bool)
      requires Valid(mem) && vpn < VPN_LIMIT && ppn < PPN_LIMIT && flags < 256
      modifies this, mem
      ensures ok <==> vpn !in old(table) && old(mem.Free()) >= NodesFor(old(Lasts()), {vpn / 512})
      ensures Linked(mem) && table == if ok then old(table)[vpn := Entry(ppn, WithV(flags))] else old(table)
      ensures ok ==> EntryPpn(table[vpn]) == ppn && EntryFlags(table[vpn]) == flags + (1 - flags % 2)
      ensures ok ==> HardwareWalk(mem.ram, rootPpn, vpn, 0)
                     == if flags / 2 % 2 == 1 || (flags / 8 % 2 == 1 && flags / 4 % 2 == 0) then var withV: nat := flags + (1 - flags % 2); Some((ppn, withV)) else None
      ensures ok || vpn in old(table) ==> Valid(mem) && Lasts() == old(Lasts()) + {vpn / 512}
      ensures ok || vpn in old(table) ==> mem.Free() == old(mem.Free()) - NodesFor(old(Lasts()), {vpn / 512})
      ensures Extended(old(mem.ram), mem.ram, old(mem.live), mem.live, old(NodeFrames(nodes)), NodeFrames(nodes))
    {
      hide Tree, NodeFrames, NoDup, Pte, SetPte, Entry, WithV, IsValid, Memory.Valid, Full, NodesFor, HardwareWalk, EntryPpn, EntryFlags;
      MappedNeedsNothing(nodes, mem.ram, table, vpn);
      FreeFrames(mem);
      var slot := FindPteCreate(mem, vpn);
      if slot.None? {
        return false;
      }
      var (f, i) := slot.value;
      ReadLeaf(nodes, mem.ram, table, vpn);
      if IsValid(Pte(mem.ram[f], i)) {
        return false;
      }
      NewEntry(ppn, flags);
      WriteLeaf(nodes, mem.ram, table, vpn, Entry(ppn, WithV(flags)));
      mem.Write(f, SetPte(mem.ram[f], i, Entry(ppn, WithV(flags))));
      table := table[vpn := Entry(ppn, WithV(flags))];
      MappedMeans(nodes, mem.ram, table, vpn, ppn, flags);
      ok := true;
    }

    /** `unmap`; `ok == false` is its failing `unwrap` or assertion. */
    method Unmap(mem: Memory, vpn: nat) returns (ok: bool)
      requires Valid(mem) && vpn < VPN_LIMIT
      modifies this, mem
      ensures Valid(mem) && mem.Free() == old(mem.Free()) && mem.live == old(mem.live) && nodes == old(nodes)
      ensures ok <==> vpn in old(table)
      ensures table == old(table) - {vpn}
      ensures Extended(old(mem.ram), mem.ram, mem.live, mem.live, NodeFrames(nodes), NodeFrames(nodes))
    {
      hide Tree, NodeFrames, NoDup, Pte, SetPte, IsValid, Memory.Valid;
      var p := FindPte(mem, vpn);
      ReadLeaf(nodes, mem.ram, table, vpn);
      if p.None? {
        return false;
      }
      var (f, i) := p.value;
      if !IsValid(Pte(mem.ram[f], i)) {
        return false;
      }
      WriteLeaf(nodes, mem.ram, table, vpn, 0);
      mem.Write(f, SetPte(mem.ram[f], i, 0));
      table := table - {vpn};
      ok := true;
    }

    /** `translate`: the entry is valid exactly when the page is mapped. */
    method Translate(mem: Memory, vpn: nat) returns (r: Option<nat>)
      requires Valid(mem) && vpn < VPN_LIMIT
      ensures r.Some? && IsValid(r.value) <==> vpn in table
      ensures vpn in table ==> r == Some(table[vpn])
      ensures r.None? <==> Slot(nodes, vpn).None?
    {
      hide Tree, NodeFrames, NoDup, Pte, SetPte, IsValid, Memory.Valid;
      var p := FindPte(mem, vpn);
      ReadLeaf(nodes, mem.ram, table, vpn);
      if p.None? {
        return None;
      }
      r := Some(Pte(mem.ram[p.value.0], p.value.1));
    }

    /**
     Any sequence of mappings and unmappings acts on the page table as on a finite map. It takes a frame for
     each node that is missing at the start, and no more however long it is.
     */
    method Run(mem: Memory, ops: seq<MapOp>)
      requires Valid(mem) && Legal(table, ops) && mem.Free() >= NodesFor(Lasts(), LastsMapped(ops))
      modifies this, mem
      ensures Valid(mem) && table == After(old(table), ops)
      ensures Lasts() == old(Lasts()) + LastsMapped(ops) && mem.Free() == old(mem.Free()) - NodesFor(old(Lasts()), LastsMapped(ops))
    {
      hide Tree, NodeFrames, NoDup, Memory.Valid, Entry, WithV, Extended, Full, Tables, LastsMapped;
      ghost var t, lasts := table, Lasts();
      NoneMapped(lasts, ops);
      for i := 0 to |ops|
        invariant Valid(mem) && table == After(t, ops[..i])
        invariant Lasts() == lasts + LastsMapped(ops[..i]) && mem.Free() == old(mem.Free()) - NodesFor(lasts, LastsMapped(ops[..i]))
      {
        LegalAt(t, ops, i);
        OneMapped(lasts, ops, i);
        match ops[i] {
          case MapPage(vpn, ppn, flags) => var ok := Map(mem, vpn, ppn, flags);
          case UnmapPage(vpn) => var ok := Unmap(mem, vpn);
        }
      }
      assert ops[..|ops|] == ops;
    }

    /** `translate_va`: the physical address of a byte in a mapped page. */
    method TranslateVa(mem: Memory, va: nat) returns (r: Option<nat>)
      requires Valid(mem) && va / PAGE_SIZE < VPN_LIMIT
      ensures va / PAGE_SIZE in table ==>
                r == Some(PAGE_SIZE * EntryPpn(table[va / PAGE_SIZE]) + va % PAGE_SIZE)
      ensures r.None? <==> PageTree.Slot(nodes, va / PAGE_SIZE).None?
    {
      hide Tree, NodeFrames, NoDup, Pte, IsValid, Memory.Valid, EntryPpn;
      var e := Translate(mem, va / PAGE_SIZE);
      if e.None? {
        return None;
      }
      r := Some(PAGE_SIZE * EntryPpn(e.value) + va % PAGE_SIZE);
    }
  }

  lemma FreeFrames(mem: Memory)
    requires mem.Valid()
    ensures mem.Free() >= 0
  {
  }

  /** The keys of the last nodes that a sequence of operations needs. */
  ghost function LastsMapped(ops: seq<MapOp>): set<nat>
  {
    set i | 0 <= i < |ops| && ops[i].MapPage? :: ops[i].vpn / 512
  }

  lemma NoneMapped(lasts: set<nat>, ops: seq<MapOp>)
    ensures lasts + LastsMapped(ops[..0]) == lasts
  {
  }

  /** What the next operation needs is part of what all need. */
  lemma OneMapped(lasts: set<nat>, ops: seq<MapOp>, i: nat)
    requires i < |ops|
    ensures var here, next := LastsMapped(ops[..i]), LastsMapped(ops[..i + 1]);
            && lasts + next == lasts + here + (if ops[i].MapPage? then {ops[i].vpn / 512} else {})
            && NodesFor(lasts, next) <= NodesFor(lasts, LastsMapped(ops))
  {
    hide Tables;
    var here, next, all := LastsMapped(ops[..i]), LastsMapped(ops[..i + 1]), LastsMapped(ops);
    assert forall j | 0 <= j < i :: ops[..i + 1][j] == ops[..i][j] == ops[j];
    assert ops[..i + 1][i] == ops[i];
    assert next == here + (if ops[i].MapPage? then {ops[i].vpn / 512} else {});
    assert next <= all;
    TablesMonotone(lasts + next, all);
    assert lasts + next + all == lasts + all;
  }

  /** How many nodes are missing on the path to a page. */
  lemma NodesOnPath(n: Nodes, vpn: nat)
    requires Full(n) && vpn < VPN_LIMIT
    ensures NodesFor(n.lasts.Keys, {vpn / 512}) == (if vpn / 512 in n.lasts then 0 else 1) + if vpn / 262144 in n.mids then 0 else 1
    ensures vpn / 512 in n.lasts ==> vpn / 262144 in n.mids
  {
    hide Above, Tables;
    Keys(vpn);
    TablesMore(n.lasts.Keys, vpn / 512);
    if vpn / 512 in n.lasts {
      InAbove(n.lasts.Keys, vpn / 512);
    }
  }

  lemma MappedNeedsNothing(n: Nodes, ram: seq<Frame>, table: map<nat, nat>, vpn: nat)
    requires Tree(n, ram, table)
    ensures vpn in table ==> NodesFor(n.lasts.Keys, {vpn / 512}) == 0 && vpn / 512 in n.lasts
  {
    hide Shape, Tables;
    if vpn in table {
      assert n.lasts.Keys + {vpn / 512} == n.lasts.Keys;
    }
  }

  lemma StillFull(n: Nodes, n': Nodes, vpn: nat)
    requires Full(n) && vpn < VPN_LIMIT && n'.mids.Keys == n.mids.Keys + {vpn / 262144} && n'.lasts.Keys == n.lasts.Keys + {vpn / 512}
    ensures Full(n')
  {
    hide Above;
    Keys(vpn);
    AboveMore(n.lasts.Keys, {vpn / 512});
    AboveOne(vpn / 512);
  }

  lemma StillAt(n: Nodes, vpn: nat, level: nat, ppn: nat, child: nat, ram: seq<Frame>, table: map<nat, nat>)
    requires Tree(n, ram, table) && vpn < VPN_LIMIT && level < 2 && At(n, vpn, level, ppn) && At(n, vpn, level + 1, child)
    ensures ppn < |ram| && At(n, vpn, level + 1, EntryPpn(Pte(ram[ppn], Index(vpn, level))))
  {
    hide Tree, Pte, EntryPpn, NodeFrames;
    ReadChild(n, ram, table, vpn, level, ppn);
  }

  /** Without a middle node there is no last node. */
  lemma UpperMissing(n: Nodes, ram: seq<Frame>, table: map<nat, nat>, vpn: nat)
    requires Tree(n, ram, table) && vpn < VPN_LIMIT
    ensures vpn / 512 in n.lasts ==> vpn / 262144 in n.mids
  {
    hide Injective, NodeFrames, IsValid;
    Keys(vpn);
  }

  lemma ReadLeaf(n: Nodes, ram: seq<Frame>, table: map<nat, nat>, vpn: nat)
    requires Tree(n, ram, table) && vpn < VPN_LIMIT
    ensures Slot(n, vpn).None? ==> vpn !in table
    ensures Slot(n, vpn).Some? ==>
              var (f, i) := Slot(n, vpn).value;
              && f < |ram| && f in NodeFrames(n) && i < 512
              && (vpn in table ==> IsValid(table[vpn]) && Pte(ram[f], i) == table[vpn])
              && (vpn !in table ==> !IsValid(Pte(ram[f], i)))
  {
    hide Pte, Injective;
    if vpn / 512 in n.lasts {
      assert LeafEntry(n, ram, table, vpn);
      assert n.lasts[vpn / 512] in n.lasts.Values;
    }
  }

  lemma NewEntry(ppn: nat, flags: nat)
    requires ppn < PPN_LIMIT && flags < 256
    ensures IsValid(Entry(ppn, WithV(flags))) && Entry(ppn, WithV(flags)) != 0
    ensures EntryPpn(Entry(ppn, WithV(flags))) == ppn
  {
    hide Entry, EntryPpn, EntryFlags;
    EntryRoundTrip(ppn, WithV(flags));
    NoEntry();
  }
}
