/**
 Address spaces side by side in one physical memory, refining independent maps from pages to flags and
 bytes: whatever the kernel and the user programs do, each space behaves as if it were alone.
 */
module MemorySystem {
  import opened Options
  import opened Seqs
  import opened Bytes
  import opened Paging
  import opened FrameAlloc
  import opened PageTree
  import opened PageTables
  import opened MemoryAreas
  import opened MemorySets
  import opened MemoryFork
  import opened MemoryOwners

  // The abstract spaces.

  datatype Page = Page(flags: nat, bytes: Frame)

  datatype Span = Span(start: nat, end: nat, perm: nat)

  /** `tables` are the keys of the last nodes of the page table, which stay when pages go. */
  datatype Space = Space(spans: seq<Span>, pages: map<nat, Page>, tables: set<nat>)

  /** An address space: in use, of a zombie, which keeps only its page table, or deallocated. */
  datatype Slot = Alive(space: Space) | Exited(tables: set<nat>) | Gone

  datatype Op =
    | Create
    | Insert(i: nat, startVa: nat, endVa: nat, perm: nat, data: Option<seq<byte>>)
    | Remove(i: nat, startVpn: nat)
    | Fork(i: nat)
    | Store(i: nat, vpn: nat, bytes: Frame)
    | Recycle(i: nat)
    | Drop(i: nat)

  function First(startVa: nat): nat
  {
    startVa / PAGE_SIZE
  }

  function End(endVa: nat): nat
  {
    (endVa + PAGE_SIZE - 1) / PAGE_SIZE
  }

  /** Pages `start` to `end` with one permission and their initial contents. */
  ghost function InitialPages(start: nat, end: nat, perm: nat, data: Option<seq<byte>>): map<nat, Page>
  {
    map v | v in Range(start, end) :: Page(WithV(perm), if v >= start then InitialPage(data, v, start) else ZeroFrame())
  }

  ghost function FirstSpan(spans: seq<Span>, v: nat): nat
  {
    if spans == [] || spans[0].start == v then 0 else 1 + FirstSpan(spans[1..], v)
  }

  /** Only the trampoline is mapped. */
  ghost function Bare(): Space
  {
    Space([], map[], {TRAMPOLINE_LAST})
  }

  ghost function Inserted(s: Space, startVa: nat, endVa: nat, perm: nat, data: Option<seq<byte>>): Space
  {
    var a, b := First(startVa), End(endVa);
    Space(s.spans + [Span(a, b, perm)], s.pages + InitialPages(a, b, perm, data), s.tables + LastsOf(a, b))
  }

  ghost function Removed(s: Space, startVpn: nat): Space
  {
    var k := FirstSpan(s.spans, startVpn);
    if k >= |s.spans| then s
    else Space(s.spans[..k] + s.spans[k + 1..], s.pages - Range(s.spans[k].start, s.spans[k].end), s.tables)
  }

  /** The copy has the same areas and pages, and a page table just for them. */
  ghost function Copy(s: Space): Space
  {
    s.(tables := PageLasts(s.pages.Keys) + {TRAMPOLINE_LAST})
  }

  ghost function Stored(s: Space, vpn: nat, bytes: Frame): Space
  {
    if vpn in s.pages then s.(pages := s.pages[vpn := s.pages[vpn].(bytes := bytes)]) else s
  }

  ghost function Apply(slots: seq<Slot>, op: Op): seq<Slot>
  {
    match op
    case Create => slots + [Alive(Bare())]
    case Insert(i, a, b, perm, data) =>
      if i < |slots| && slots[i].Alive? then slots[i := Alive(Inserted(slots[i].space, a, b, perm, data))] else slots
    case Remove(i, v) => if i < |slots| && slots[i].Alive? then slots[i := Alive(Removed(slots[i].space, v))] else slots
    case Fork(i) => if i < |slots| && slots[i].Alive? then slots + [Alive(Copy(slots[i].space))] else slots
    case Store(i, v, bytes) => if i < |slots| && slots[i].Alive? then slots[i := Alive(Stored(slots[i].space, v, bytes))] else slots
    case Recycle(i) => if i < |slots| && slots[i].Alive? then slots[i := Exited(slots[i].space.tables)] else slots
    case Drop(i) => if i < |slots| then slots[i := Gone] else slots
  }

  /** What the code demands: new pages are free, data fits, a stored page is there. */
  ghost predicate Allowed(slots: seq<Slot>, op: Op)
  {
    match op
    case Create => true
    case Insert(i, a, b, perm, data) =>
      && i < |slots| && slots[i].Alive? && a <= b && 0 < b <= PAGE_SIZE * TRAMPOLINE_VPN && perm < 256
      && (forall v | First(a) <= v < End(b) :: v !in slots[i].space.pages)
      && (data.Some? ==> First(a) < End(b) && |data.value| <= PAGE_SIZE * (End(b) - First(a)))
    case Remove(i, _) => i < |slots| && slots[i].Alive?
    case Fork(i) => i < |slots| && slots[i].Alive?
    case Store(i, v, _) => i < |slots| && slots[i].Alive? && v in slots[i].space.pages
    case Recycle(i) => i < |slots| && slots[i].Alive?
    case Drop(i) => i < |slots| && !slots[i].Gone?
  }

  // How many frames the spaces have.

  /** A frame for each node of the page table, and for each page. */
  ghost function SlotFrames(slot: Slot): nat
  {
    match slot
    case Alive(space) => Tables(space.tables) + |space.pages|
    case Exited(tables) => Tables(tables)
    case Gone => 0
  }

  ghost function InUse(slots: seq<Slot>): nat
  {
    if slots == [] then 0 else InUse(slots[..|slots| - 1]) + SlotFrames(slots[|slots| - 1])
  }

  lemma {:induction false} FramesChanged(slots: seq<Slot>, i: nat, x: Slot)
    requires i < |slots|
    ensures InUse(slots[i := x]) == InUse(slots) - SlotFrames(slots[i]) + SlotFrames(x)
  {
    hide SlotFrames;
    var n := |slots| - 1;
    if i < n {
      FramesChanged(slots[..n], i, x);
      assert slots[i := x][..n] == slots[..n][i := x];
    } else {
      assert slots[i := x][..n] == slots[..n];
    }
  }

  lemma FramesAdded(slots: seq<Slot>, x: Slot)
    ensures InUse(slots + [x]) == InUse(slots) + SlotFrames(x)
  {
    hide SlotFrames;
    assert (slots + [x])[..|slots|] == slots;
  }

  lemma {:induction false} OneOfAll(slots: seq<Slot>, i: nat)
    requires i < |slots|
    ensures SlotFrames(slots[i]) <= InUse(slots)
  {
    hide SlotFrames;
    if i < |slots| - 1 {
      OneOfAll(slots[..|slots| - 1], i);
    }
  }

  /** Inserting an area takes exactly the frames for mapping it. */
  lemma InsertFrames(s: Space, startVa: nat, endVa: nat, perm: nat, data: Option<seq<byte>>)
    requires First(startVa) <= End(endVa) && forall v | First(startVa) <= v < End(endVa) :: v !in s.pages
    ensures SlotFrames(Alive(Inserted(s, startVa, endVa, perm, data)))
         == SlotFrames(Alive(s)) + AreaFrames(s.tables, First(startVa), End(endVa), true)
  {
    hide Tables, LastsOf, InitialPage;
    var a, b := First(startVa), End(endVa);
    var more := InitialPages(a, b, perm, data);
    assert more.Keys == Range(a, b);
    RangeCount(a, b);
    assert (s.pages + more).Keys == s.pages.Keys + Range(a, b) && s.pages.Keys !! Range(a, b);
  }

  lemma InsertTakesMore(s: Space, startVa: nat, endVa: nat, perm: nat, data: Option<seq<byte>>)
    ensures SlotFrames(Alive(Inserted(s, startVa, endVa, perm, data))) >= SlotFrames(Alive(s))
  {
    hide Tables, LastsOf, InitialPage, InitialPages;
    var a, b := First(startVa), End(endVa);
    TablesMonotone(s.tables, LastsOf(a, b));
    assert s.pages.Keys <= (s.pages + InitialPages(a, b, perm, data)).Keys;
    Smaller(s.pages.Keys, (s.pages + InitialPages(a, b, perm, data)).Keys);
  }

  lemma CopyFrames(s: Space)
    ensures SlotFrames(Alive(Copy(s))) == NewFrames(s.pages.Keys)
  {
    hide Tables, PageLasts;
  }

  /** There is room for what the operation adds. */
  ghost predicate Fits(room: int, slots: seq<Slot>, op: Op)
  {
    op.Create? || op.Insert? || op.Fork? ==> InUse(Apply(slots, op)) <= room
  }

  /** At every moment of the run there is room for all spaces as they are then. */
  ghost predicate AllFit(room: int, slots: seq<Slot>, ops: seq<Op>)
    decreases |ops|
  {
    ops == [] || (Fits(room, slots, ops[0]) && AllFit(room, Apply(slots, ops[0]), ops[1..]))
  }

  // What a concrete address space shows.

  ghost predicate Spans(model: seq<Area>, spans: seq<Span>)
  {
    && |spans| == |model|
    && forall k | 0 <= k < |model| :: model[k].framed && spans[k] == Span(model[k].start, model[k].end, model[k].perm)
  }

  ghost predicate Shows(data: map<nat, nat>, table: map<nat, nat>, ram: seq<Frame>, pages: map<nat, Page>)
  {
    && pages.Keys == data.Keys
    && forall v | v in data :: v in table && data[v] < |ram| && pages[v] == Page(EntryFlags(table[v]), ram[data[v]])
  }

  /** The trampoline is mapped, and it is the only page outside the areas. */
  ghost predicate Trampoline(table: map<nat, nat>, extra: set<nat>, ppn: nat)
  {
    extra == {TRAMPOLINE_VPN} && TRAMPOLINE_VPN in table && ppn < PPN_LIMIT && table[TRAMPOLINE_VPN] == Entry(ppn, WithV(R + X))
  }

  lemma ShowsKept(data: map<nat, nat>, table: map<nat, nat>, ram: seq<Frame>, ram': seq<Frame>, pages: map<nat, Page>)
    requires Shows(data, table, ram, pages) && Unwritten(ram, ram', data.Values)
    ensures Shows(data, table, ram', pages)
  {
    hide EntryFlags;
    forall v | v in data ensures data[v] < |ram'| && ram'[data[v]] == ram[data[v]] {
      ValueIn(data, v);
    }
  }

  lemma ShowsNothing(table: map<nat, nat>, ram: seq<Frame>)
    ensures Shows(map[], table, ram, map[]) && Spans([], [])
  {
  }

  lemma ShowsStored(data: map<nat, nat>, table: map<nat, nat>, ram: seq<Frame>, pages: map<nat, Page>, vpn: nat, bytes: Frame)
    requires Shows(data, table, ram, pages) && Injective(data) && vpn in pages
    ensures vpn in data && data[vpn] < |ram|
    ensures Shows(data, table, ram[data[vpn] := bytes], pages[vpn := pages[vpn].(bytes := bytes)])
  {
    hide EntryFlags;
    assert vpn in pages.Keys;
  }

  lemma ShowsRemoved(data: map<nat, nat>, table: map<nat, nat>, ram: seq<Frame>, ram': seq<Frame>, pages: map<nat, Page>, start: nat, end: nat)
    requires Shows(data, table, ram, pages) && Unwritten(ram, ram', data.Values)
    ensures Shows(data - Range(start, end), table - Range(start, end), ram', pages - Range(start, end))
  {
    hide EntryFlags;
    var d := data - Range(start, end);
    forall v | v in d ensures v in table - Range(start, end) && d[v] < |ram'| && ram'[d[v]] == ram[data[v]] {
      ValueIn(data, v);
    }
    assert (pages - Range(start, end)).Keys == d.Keys;
  }

  lemma {:induction false} SameFirst(model: seq<Area>, spans: seq<Span>, v: nat)
    requires Spans(model, spans)
    ensures FirstAt(model, v) == FirstSpan(spans, v) <= |spans| == |model|
  {
    if model != [] {
      assert forall k | 0 <= k < |model| - 1 :: model[1..][k] == model[k + 1] && spans[1..][k] == spans[k + 1];
      SameFirst(model[1..], spans[1..], v);
    }
  }

  lemma SpansRemoved(model: seq<Area>, spans: seq<Span>, k: nat)
    requires Spans(model, spans) && k < |model|
    ensures Spans(model[..k] + model[k + 1..], spans[..k] + spans[k + 1..])
  {
    var m, s := model[..k] + model[k + 1..], spans[..k] + spans[k + 1..];
    forall j | 0 <= j < |m| ensures m[j].framed && s[j] == Span(m[j].start, m[j].end, m[j].perm) {
      var i := if j < k then j else j + 1;
      assert m[j] == model[i] && s[j] == spans[i];
    }
  }

  lemma ShowsInserted(data: map<nat, nat>, table: map<nat, nat>, ram: seq<Frame>, table': map<nat, nat>, ram': seq<Frame>, pages: map<nat, Page>,
                      a: Area, bytes: Option<seq<byte>>)
    requires Shows(data, table, ram, pages) && Unwritten(ram, ram', data.Values)
    requires a.framed && Filled(table, table', a.start, a.end, a.framed, a.perm, a.frames)
    requires forall v | v in a.frames :: v >= a.start && v !in data && a.frames[v] < |ram'| && ram'[a.frames[v]] == InitialPage(bytes, v, a.start)
    requires forall v | v in data :: !(a.start <= v < a.end)
    ensures Shows(data + a.frames, table', ram', pages + InitialPages(a.start, a.end, a.perm, bytes))
  {
    hide EntryFlags, InitialPage, InitialPages, PageMapped, WithV, Filled;
    var more := InitialPages(a.start, a.end, a.perm, bytes);
    var d, p := data + a.frames, pages + more;
    NewPagesShown(table, table', ram', a, bytes);
    forall v | v in d ensures v in table' && d[v] < |ram'| && p[v] == Page(EntryFlags(table'[v]), ram'[d[v]]) {
      if v !in a.frames {
        ValueIn(data, v);
        OldEntry(table, table', a, v);
      }
    }
  }

  lemma OldEntry(table: map<nat, nat>, table': map<nat, nat>, a: Area, v: nat)
    requires Filled(table, table', a.start, a.end, a.framed, a.perm, a.frames) && v in table && !(a.start <= v < a.end)
    ensures v in table' && table'[v] == table[v]
  {
  }

  lemma NewPagesShown(table: map<nat, nat>, table': map<nat, nat>, ram': seq<Frame>, a: Area, bytes: Option<seq<byte>>)
    requires a.framed && Filled(table, table', a.start, a.end, a.framed, a.perm, a.frames)
    requires forall v | v in a.frames :: v >= a.start && a.frames[v] < |ram'| && ram'[a.frames[v]] == InitialPage(bytes, v, a.start)
    ensures var more := InitialPages(a.start, a.end, a.perm, bytes);
            && more.Keys == a.frames.Keys
            && forall v | v in a.frames :: v in table' && more[v] == Page(EntryFlags(table'[v]), ram'[a.frames[v]])
  {
    hide EntryFlags, InitialPage, PageMapped, WithV;
    var more := InitialPages(a.start, a.end, a.perm, bytes);
    forall v | v in a.frames ensures v in table' && more[v] == Page(EntryFlags(table'[v]), ram'[a.frames[v]]) {
      assert PageMapped(table', v, Target(a.framed, a.frames, v), a.perm);
      PageFlags(table', v, a.frames[v], a.perm);
    }
    assert more.Keys == a.frames.Keys;
  }

  lemma PageFlags(table: map<nat, nat>, v: nat, ppn: nat, perm: nat)
    requires PageMapped(table, v, ppn, perm)
    ensures v in table && EntryFlags(table[v]) == WithV(perm)
  {
    hide Entry, EntryFlags, EntryPpn;
    EntryRoundTrip(ppn, WithV(perm));
  }

  lemma ShowsCopied(data: map<nat, nat>, table: map<nat, nat>, ram: seq<Frame>, pages: map<nat, Page>, data': map<nat, nat>, table': map<nat, nat>)
    requires Shows(data, table, ram, pages) && data'.Keys == data.Keys && PagesCopied(data, ram, data', ram) && table'.Keys == table.Keys
    requires forall v | v in table :: EntryFlags(table'[v]) == EntryFlags(table[v])
    ensures Shows(data', table', ram, pages)
  {
    hide EntryFlags;
  }

  ghost predicate TableAt(pt: PageTable, ram: seq<Frame>, live: set<nat>)
    reads pt
  {
    && pt.nodes.root == pt.rootPpn && Tree(pt.nodes, ram, pt.table)
    && NoDup(pt.frames) && (forall f :: f in pt.frames <==> f in NodeFrames(pt.nodes))
    && NodeFrames(pt.nodes) <= live && Full(pt.nodes)
  }

  ghost predicate OwnedAt(ms: MemorySet, ram: seq<Frame>, live: set<nat>)
    reads ms, ms.areas, ms.pageTable
  {
    && TableAt(ms.pageTable, ram, live) && ms.Listed() && Held(ms.model, ms.data) && Injective(ms.data)
    && ms.data.Values <= live && ms.data.Values !! NodeFrames(ms.pageTable.nodes)
  }

  /** With these bytes in memory an address space is what its slot says, on the frames `owner`. */
  ghost predicate Holds(ms: MemorySet, slot: Slot, owner: set<nat>, ram: seq<Frame>, live: set<nat>, trampoline: nat)
    reads ms, ms.areas, ms.pageTable
  {
    match slot
    case Alive(space) =>
      && OwnedAt(ms, ram, live) && owner == ms.Footprint() && Agrees(ms.model, ms.pageTable.table, ms.extra)
      && Trampoline(ms.pageTable.table, ms.extra, trampoline) && ms.pageTable.Lasts() == space.tables
      && Spans(ms.model, space.spans) && Shows(ms.data, ms.pageTable.table, ram, space.pages)
    case Exited(tables) => OwnedAt(ms, ram, live) && owner == ms.Footprint() && ms.data == map[] && ms.pageTable.Lasts() == tables
    case Gone => owner == {}
  }

  lemma HoldsOwned(ms: MemorySet, mem: Memory)
    ensures ms.Owned(mem) <==> mem.Valid() && OwnedAt(ms, mem.ram, mem.live)
    ensures ms.Valid(mem) <==> mem.Valid() && OwnedAt(ms, mem.ram, mem.live) && Agrees(ms.model, ms.pageTable.table, ms.extra)
  {
    hide Tree, NodeFrames, NoDup, Injective, Held, Agrees, Memory.Valid, MemorySet.Listed, Full;
  }

  /** What the hardware makes of a page of an area: its frame and flags, if they are those of a leaf. */
  lemma HeldIsSeen(ms: MemorySet, ram: seq<Frame>, live: set<nat>, v: nat)
    requires OwnedAt(ms, ram, live) && Agrees(ms.model, ms.pageTable.table, ms.extra) && v in ms.data
    ensures v < VPN_LIMIT && v in ms.pageTable.table && EntryPpn(ms.pageTable.table[v]) == ms.data[v]
    ensures var flags := EntryFlags(ms.pageTable.table[v]);
            HardwareWalk(ram, ms.pageTable.rootPpn, v, 0)
            == if flags / 2 % 2 == 1 || (flags / 8 % 2 == 1 && flags / 4 % 2 == 0) then Some((ms.data[v], flags)) else None
  {
    hide Tree, NodeFrames, NoDup, Injective, HardwareWalk, Full, MemorySet.Listed, Held, Agrees, PageMapped, EntryFlags, EntryPpn;
    var i := AreaOf(ms.model, ms.pageTable.table, ms.data, ms.extra, v);
    MappedIsSeen(ms.pageTable.nodes, ram, ms.pageTable.table, v, ms.data[v], ms.model[i].perm);
  }

  lemma MappedIsSeen(n: Nodes, ram: seq<Frame>, table: map<nat, nat>, v: nat, ppn: nat, perm: nat)
    requires Tree(n, ram, table) && v < VPN_LIMIT && PageMapped(table, v, ppn, perm)
    ensures v in table && EntryPpn(table[v]) == ppn
    ensures var flags := EntryFlags(table[v]);
            HardwareWalk(ram, n.root, v, 0) == if flags / 2 % 2 == 1 || (flags / 8 % 2 == 1 && flags / 4 % 2 == 0) then Some((ppn, flags)) else None
  {
    hide Tree, HardwareWalk, Entry, WithV, EntryFlags, EntryPpn;
    VKeepsOthers(perm);
    MappedMeans(n, ram, table, v, ppn, perm);
  }

  lemma AreaOf(model: seq<Area>, table: map<nat, nat>, data: map<nat, nat>, extra: set<nat>, v: nat) returns (i: nat)
    requires Held(model, data) && Agrees(model, table, extra) && v in data
    ensures i < |model| && v < VPN_LIMIT && PageMapped(table, v, data[v], model[i].perm)
  {
    hide PageMapped, Apart;
    assert HeldBy(model, v);
    i :| 0 <= i < |model| && model[i].framed && In(model[i], v);
    assert AreaHeld(model[i], data) && AreaMapped(model[i], table);
  }

  /** It owns as many frames as its slot says. */
  lemma HoldsCount(ms: MemorySet, slot: Slot, owner: set<nat>, mem: Memory, trampoline: nat)
    requires mem.Valid() && Holds(ms, slot, owner, mem.ram, mem.live, trampoline)
    ensures |owner| == SlotFrames(slot)
  {
    hide OwnedAt, Agrees, Spans, Trampoline, Memory.Valid, NodeFrames, Tables, EntryFlags;
    if !slot.Gone? {
      HoldsOwned(ms, mem);
      ms.FootprintCount(mem);
      assert slot.Alive? ==> |slot.space.pages.Keys| == |ms.data.Keys|;
    }
  }

  lemma OwnedStill(ms: MemorySet, r: seq<Frame>, r': seq<Frame>, l: set<nat>, l': set<nat>)
    requires OwnedAt(ms, r, l) && Unwritten(r, r', ms.Footprint()) && ms.Footprint() <= l'
    ensures OwnedAt(ms, r', l')
  {
    hide Tree, NodeFrames, NoDup, Injective, Held, MemorySet.Listed, Full;
    TreeFrame(ms.pageTable.nodes, r, r', ms.pageTable.table);
  }

  /** While its own frames are not written, an address space stays as it is. */
  lemma HoldsStill(ms: MemorySet, slot: Slot, owner: set<nat>, r: seq<Frame>, r': seq<Frame>, l: set<nat>, l': set<nat>, trampoline: nat)
    requires Holds(ms, slot, owner, r, l, trampoline) && Unwritten(r, r', owner) && owner <= l'
    ensures Holds(ms, slot, owner, r', l', trampoline)
  {
    hide OwnedAt, NodeFrames, Agrees, Spans, Shows, Trampoline;
    if !slot.Gone? {
      OwnedStill(ms, r, r', l, l');
      if slot.Alive? {
        ShowsKept(ms.data, ms.pageTable.table, r, r', slot.space.pages);
      }
    }
  }

  lemma ConfinedElsewhere(owner: set<nat>, r: seq<Frame>, r': seq<Frame>, l: set<nat>, l': set<nat>, fp: set<nat>, fp': set<nat>)
    requires Confined(r, r', l, l', fp, fp') && owner !! fp && owner <= l
    ensures Unwritten(r, r', owner) && owner <= l'
  {
    forall x | x in owner ensures x in l' && x !in fp' {
      assert x in l - fp;
    }
  }

  /** A page of an area is mapped to its frame. */
  lemma DataPage(model: seq<Area>, data: map<nat, nat>, table: map<nat, nat>, extra: set<nat>, v: nat)
    requires Held(model, data) && Agrees(model, table, extra) && v in data
    ensures v in table && EntryPpn(table[v]) == data[v] && v < VPN_LIMIT
  {
    hide Apart, EntryPpn, PageMapped, MappedBy;
    assert HeldBy(model, v);
    var i :| 0 <= i < |model| && model[i].framed && In(model[i], v);
    assert AreaHeld(model[i], data) && AreaMapped(model[i], table);
    assert PageMapped(table, v, Target(model[i].framed, model[i].frames, v), model[i].perm);
    MapArea.MappedFrame(table, v, data[v], model[i].perm);
    assert v in table by { PageIn(table, v, data[v], model[i].perm); }
  }

  lemma PageIn(table: map<nat, nat>, v: nat, ppn: nat, perm: nat)
    requires PageMapped(table, v, ppn, perm)
    ensures v in table
  {
  }

  lemma NodesUntouched(n: Nodes, table: map<nat, nat>, ram: seq<Frame>, data: map<nat, nat>, vpn: nat, bytes: Frame)
    requires Tree(n, ram, table) && vpn in data && data[vpn] < |ram| && data.Values !! NodeFrames(n)
    ensures Tree(n, ram[data[vpn] := bytes], table)
  {
    hide Tree, NodeFrames;
    ValueIn(data, vpn);
    TreeFrame(n, ram, ram[data[vpn] := bytes], table);
  }

  lemma OwnersApart(owners: seq<set<nat>>, live: set<nat>, i: nat)
    requires Partition(owners, live) && i < |owners|
    ensures forall j | 0 <= j < |owners| && j != i :: owners[j] !! owners[i]
    ensures forall j | 0 <= j < |owners| :: owners[j] <= live
  {
    forall j | 0 <= j < |owners| ensures owners[j] <= live {
      OwnedIn(owners, j);
    }
  }

  /** The objects of an address space. */
  ghost predicate PartOf(ms: MemorySet, part: set<object>)
    reads ms
  {
    ms in part && ms.pageTable in part && forall a | a in ms.areas :: a in part
  }

  ghost function Objects(ms: MemorySet): set<object>
    reads ms
  {
    {ms, ms.pageTable} + (set a | a in ms.areas)
  }

  /** No two address spaces share an object, and all are in `repr`. */
  ghost predicate Parted(parts: seq<set<object>>, repr: set<object>, self: object)
  {
    && (forall i | 0 <= i < |parts| :: parts[i] <= repr && self !in parts[i])
    && (forall i, j | 0 <= i < j < |parts| :: parts[i] !! parts[j])
  }

  lemma PartedFacts(parts: seq<set<object>>, repr: set<object>, self: object, i: nat)
    requires Parted(parts, repr, self) && i < |parts|
    ensures parts[i] <= repr && self !in parts[i]
    ensures forall j | 0 <= j < |parts| && j != i :: parts[j] !! parts[i] && self !in parts[j] && parts[j] <= repr
  {
  }

  lemma PartedMore(parts: seq<set<object>>, repr: set<object>, self: object, i: nat, x: object)
    requires Parted(parts, repr, self) && i < |parts| && x !in repr && self in repr
    ensures Parted(parts[i := parts[i] + {x}], repr + {x}, self)
  {
  }

  lemma PartedNew(parts: seq<set<object>>, repr: set<object>, self: object, part: set<object>)
    requires Parted(parts, repr, self) && part !! repr && self in repr
    ensures Parted(parts + [part], repr + part, self)
  {
  }

  /** The frames in use belong to exactly one of the address spaces, or to somebody `outside`. */
  ghost predicate Shared(outside: set<nat>, owners: seq<set<nat>>, live: set<nat>)
  {
    Partition([outside] + owners, live)
  }

  lemma SharedApart(outside: set<nat>, owners: seq<set<nat>>, live: set<nat>, i: nat)
    requires Shared(outside, owners, live) && i < |owners|
    ensures forall j | 0 <= j < |owners| && j != i :: owners[j] !! owners[i]
    ensures forall j | 0 <= j < |owners| :: owners[j] <= live
    ensures outside !! owners[i] && outside <= live
  {
    var all := [outside] + owners;
    OwnersApart(all, live, i + 1);
    assert forall j | 0 <= j < |owners| :: all[j + 1] == owners[j];
    assert all[0] == outside;
  }

  lemma SharedOutside(outside: set<nat>, owners: seq<set<nat>>, live: set<nat>)
    requires Shared(outside, owners, live)
    ensures outside <= live && forall j | 0 <= j < |owners| :: owners[j] !! outside && owners[j] <= live
  {
    var all := [outside] + owners;
    OwnersApart(all, live, 0);
    assert all[0] == outside;
    forall j | 0 <= j < |owners| ensures owners[j] !! outside && owners[j] <= live {
      assert all[j + 1] == owners[j];
    }
  }

  lemma SharedChange(outside: set<nat>, owners: seq<set<nat>>, r: seq<Frame>, r': seq<Frame>, l: set<nat>, l': set<nat>, i: nat, fp: set<nat>)
    requires Shared(outside, owners, l) && i < |owners| && Confined(r, r', l, l', owners[i], fp)
    ensures Shared(outside, owners[i := fp], l')
  {
    hide Partition, Confined;
    ChangeKeepsPartition([outside] + owners, r, r', l, l', i + 1, fp);
    assert ([outside] + owners)[i + 1 := fp] == [outside] + owners[i := fp];
  }

  lemma SharedElsewhere(outside: set<nat>, owners: seq<set<nat>>, r: seq<Frame>, r': seq<Frame>, l: set<nat>, l': set<nat>, fp: set<nat>)
    requires Shared(outside, owners, l) && Confined(r, r', l, l', outside, fp)
    ensures Shared(fp, owners, l')
  {
    hide Partition, Confined;
    ChangeKeepsPartition([outside] + owners, r, r', l, l', 0, fp);
    assert ([outside] + owners)[0 := fp] == [fp] + owners;
  }

  lemma SharedCreate(outside: set<nat>, owners: seq<set<nat>>, l: set<nat>, l': set<nat>, fp: set<nat>)
    requires Shared(outside, owners, l) && fp !! l && l' == l + fp
    ensures Shared(outside, owners + [fp], l')
  {
    hide Partition;
    CreateKeepsPartition([outside] + owners, l, l', fp);
    assert [outside] + owners + [fp] == [outside] + (owners + [fp]);
  }

  lemma SharedAlone(live: set<nat>)
    ensures Shared(live, [], live)
  {
    var all := [live] + [];
    assert all[0] == live;
  }

  class Spaces {
    const mem: Memory
    const trampoline: nat
    var sets: seq<MemorySet>
    ghost var slots: seq<Slot>
    ghost var owners: seq<set<nat>>

    /** The frames that were in use before the first space, or that others have taken since. */
    ghost var outside: set<nat>
    ghost var repr: set<object>
    ghost var parts: seq<set<object>>

    /** Each address space has its own objects. */
    ghost predicate Within()
      reads this, repr
    {
      && this in repr && mem !in repr && |parts| == |sets| && Parted(parts, repr, this)
      && (forall i | 0 <= i < |sets| :: sets[i] in parts[i] && PartOf(sets[i], parts[i]))
    }

    /** Every space is as its slot says, and every frame in use belongs to exactly one owner. */
    ghost predicate ValidAt(ram: seq<Frame>, live: set<nat>)
      reads this, repr
    {
      && Within() && trampoline < PPN_LIMIT && |sets| == |slots| == |owners| && Shared(outside, owners, live)
      && forall i | 0 <= i < |sets| :: Holds(sets[i], slots[i], owners[i], ram, live, trampoline)
    }

    ghost predicate Valid()
      reads this, repr, mem
    {
      mem.Valid() && ValidAt(mem.ram, mem.live)
    }

    /** The number of frames that are not in use by others. */
    ghost function Room(): int
      reads this
    {
      mem.Total() - |outside|
    }

    /** The frames that are not in use by others are free or belong to the spaces, which have as many as the slots say. */
    lemma FramesCounted()
      requires Valid()
      ensures mem.Free() == Room() - InUse(slots)
    {
      hide Holds, Parted, Memory.Valid, Partition, SlotFrames;
      mem.FreeIsRest();
      PartitionCount([outside] + owners, mem.live);
      forall i | 0 <= i < |slots| ensures |owners[i]| == SlotFrames(slots[i]) {
        HoldsCount(sets[i], slots[i], owners[i], mem, trampoline);
      }
      SumOwners(outside, owners, slots);
      FreeFrames(mem);
    }

    /** What the hardware makes of a page of a space: a frame of that space with the bytes and the flags of the page. */
    lemma PageSeen(i: nat, v: nat)
      requires Valid() && i < |slots| && slots[i].Alive? && v in slots[i].space.pages
      ensures |sets| == |owners| == |slots|
      ensures var page, walk := slots[i].space.pages[v], HardwareWalk(mem.ram, sets[i].pageTable.rootPpn, v, 0);
              if page.flags / 2 % 2 == 1 || (page.flags / 8 % 2 == 1 && page.flags / 4 % 2 == 0)
              then walk.Some? && walk.value.1 == page.flags && walk.value.0 in owners[i] && walk.value.0 < |mem.ram| && mem.ram[walk.value.0] == page.bytes
              else walk == None
    {
      hide Tree, NodeFrames, NoDup, Injective, Held, Agrees, Spans, Memory.Valid, Trampoline, MemorySet.Listed, Shared, Parted, OwnedAt,
           EntryFlags, EntryPpn, HardwareWalk;
      assert Holds(sets[i], slots[i], owners[i], mem.ram, mem.live, trampoline);
      HeldIsSeen(sets[i], mem.ram, mem.live, v);
    }

    /** The hardware finds the trampoline at the same page of every space, readable and executable. */
    lemma TrampolineSeen(i: nat)
      requires Valid() && i < |slots| && slots[i].Alive?
      ensures |sets| == |slots| && HardwareWalk(mem.ram, sets[i].pageTable.rootPpn, 0x7ff_ffff, 0) == Some((trampoline, 11))
    {
      hide Tree, NodeFrames, NoDup, Injective, Held, Agrees, Spans, Shows, Memory.Valid, MemorySet.Listed, Shared, Parted, HardwareWalk, Full;
      assert Holds(sets[i], slots[i], owners[i], mem.ram, mem.live, trampoline);
      MappedMeans(sets[i].pageTable.nodes, mem.ram, sets[i].pageTable.table, 0x7ff_ffff, trampoline, R + X);
    }

    /** No space yet; whatever is in use belongs to others. */
    constructor (mem: Memory, trampoline: nat)
      requires mem.Valid() && trampoline < PPN_LIMIT
      ensures Valid() && slots == [] && this.mem == mem && this.trampoline == trampoline && repr == {this} && outside == mem.live
    {
      this.mem, this.trampoline, sets, slots, owners := mem, trampoline, [], [], [];
      outside := mem.live;
      repr, parts := {this}, [];
      new;
      SharedAlone(mem.live);
    }

    /** What was confined to space `i` leaves the others as they are. */
    lemma OthersStay(i: nat, r: seq<Frame>, l: set<nat>, fp: set<nat>)
      requires Within() && |sets| == |slots| == |owners| && i < |sets| && Shared(outside, owners, l)
      requires forall j | 0 <= j < |sets| && j != i :: Holds(sets[j], slots[j], owners[j], r, l, trampoline)
      requires Confined(r, mem.ram, l, mem.live, owners[i], fp)
      ensures forall j | 0 <= j < |sets| && j != i :: Holds(sets[j], slots[j], owners[j], mem.ram, mem.live, trampoline)
      ensures Shared(outside, owners[i := fp], mem.live) && Unwritten(r, mem.ram, outside)
    {
      hide Holds, Shared, Confined, Unwritten;
      SharedApart(outside, owners, l, i);
      forall j | 0 <= j < |sets| && j != i ensures Holds(sets[j], slots[j], owners[j], mem.ram, mem.live, trampoline) {
        ConfinedElsewhere(owners[j], r, mem.ram, l, mem.live, owners[i], fp);
        HoldsStill(sets[j], slots[j], owners[j], r, mem.ram, l, mem.live, trampoline);
      }
      ConfinedElsewhere(outside, r, mem.ram, l, mem.live, owners[i], fp);
      SharedChange(outside, owners, r, mem.ram, l, mem.live, i, fp);
    }

    /** After others changed their own frames, the spaces are as they were. */
    ghost method Resume(r: seq<Frame>, l: set<nat>, fp: set<nat>)
      requires ValidAt(r, l) && mem.Valid() && Confined(r, mem.ram, l, mem.live, outside, fp)
      modifies this`outside
      ensures Valid() && outside == fp
    {
      hide Holds, Shared, Confined, Unwritten, Memory.Valid, Parted;
      SharedOutside(outside, owners, l);
      forall j | 0 <= j < |sets| ensures Holds(sets[j], slots[j], owners[j], mem.ram, mem.live, trampoline) {
        ConfinedElsewhere(owners[j], r, mem.ram, l, mem.live, outside, fp);
        HoldsStill(sets[j], slots[j], owners[j], r, mem.ram, l, mem.live, trampoline);
      }
      SharedElsewhere(outside, owners, r, mem.ram, l, mem.live, fp);
      outside := fp;
    }

    /** Record what became of space `i`. */
    ghost method Settle(i: nat, slot: Slot, fp: set<nat>)
      requires Within() && mem.Valid() && trampoline < PPN_LIMIT && |sets| == |slots| == |owners| && i < |sets|
      requires forall j | 0 <= j < |sets| && j != i :: Holds(sets[j], slots[j], owners[j], mem.ram, mem.live, trampoline)
      requires Holds(sets[i], slot, fp, mem.ram, mem.live, trampoline) && Shared(outside, owners[i := fp], mem.live)
      modifies this`slots, this`owners
      ensures Valid() && slots == old(slots)[i := slot]
    {
      hide Holds, Shared, Unwritten, Memory.Valid, Parted;
      slots := slots[i := slot];
      owners := owners[i := fp];
    }

    /** A store to a page, through either the kernel's or the user's mapping. */
    method StoreTo(i: nat, vpn: nat, bytes: Frame)
      requires Valid() && Allowed(slots, Store(i, vpn, bytes))
      modifies repr, mem
      ensures Valid() && slots == Apply(old(slots), Store(i, vpn, bytes)) && repr == old(repr)
      ensures outside == old(outside) && Unwritten(old(mem.ram), mem.ram, outside)
    {
      hide Holds, Shared, Unwritten, Confined, Memory.Valid, Parted;
      ghost var r, l := mem.ram, mem.live;
      PartedFacts(parts, repr, this, i);
      StoreOne(sets[i], mem, vpn, bytes, slots[i], owners[i], trampoline);
      OthersStay(i, r, l, owners[i]);
      Settle(i, Alive(Stored(slots[i].space, vpn, bytes)), owners[i]);
    }

    /** Record a new object of space `i`. */
    ghost method Enlarge(i: nat, x: MapArea)
      requires this in repr && mem !in repr && |parts| == |sets| && i < |sets| && Parted(parts, repr, this) && x !in repr
      requires forall j | 0 <= j < |sets| :: sets[j] in parts[j] && PartOf(sets[j], if j == i then parts[i] + {x} else parts[j])
      modifies this`repr, this`parts
      ensures Within() && repr == old(repr) + {x} && parts == old(parts)[i := old(parts)[i] + {x}]
    {
      hide Parted;
      PartedMore(parts, repr, this, i, x);
      repr := repr + {x};
      parts := parts[i := parts[i] + {x}];
    }

    /** If the area fits there are frames for it. */
    lemma FramesForArea(i: nat, startVa: nat, endVa: nat, perm: nat, bytes: Option<seq<byte>>)
      requires Valid() && Allowed(slots, Insert(i, startVa, endVa, perm, bytes)) && Fits(Room(), slots, Insert(i, startVa, endVa, perm, bytes))
      ensures mem.Free() >= AreaFrames(slots[i].space.tables, First(startVa), End(endVa), true)
    {
      hide Valid, Inserted, AreaFrames, SlotFrames, InUse, First, End;
      SpanFacts(startVa, endVa);
      FramesCounted();
      InsertFrames(slots[i].space, startVa, endVa, perm, bytes);
      FramesChanged(slots, i, Alive(Inserted(slots[i].space, startVa, endVa, perm, bytes)));
    }

    /** If a new space fits there are frames for it. */
    lemma FramesForSpace(op: Op, x: Slot)
      requires Valid() && (op.Create? || op.Fork?) && Fits(Room(), slots, op) && Apply(slots, op) == slots + [x]
      ensures mem.Free() >= SlotFrames(x)
    {
      hide Valid, SlotFrames, InUse, Apply;
      FramesCounted();
      FramesAdded(slots, x);
    }

    method InsertInto(i: nat, startVa: nat, endVa: nat, perm: nat, bytes: Option<seq<byte>>)
      requires Valid() && Allowed(slots, Insert(i, startVa, endVa, perm, bytes)) && Fits(Room(), slots, Insert(i, startVa, endVa, perm, bytes))
      modifies repr, mem
      ensures Valid() && slots == Apply(old(slots), Insert(i, startVa, endVa, perm, bytes)) && fresh(repr - old(repr))
      ensures outside == old(outside) && Unwritten(old(mem.ram), mem.ram, outside)
    {
      hide Holds, Shared, Unwritten, Confined, Memory.Valid, Inserted, Parted, AreaFrames, Fits;
      ghost var r, l := mem.ram, mem.live;
      FramesForArea(i, startVa, endVa, perm, bytes);
      PartedFacts(parts, repr, this, i);
      InsertOne(sets[i], mem, startVa, endVa, perm, bytes, slots[i], owners[i], trampoline);
      forall j | 0 <= j < |sets| && j != i ensures Holds(sets[j], slots[j], owners[j], r, l, trampoline) {
        assert unchanged(parts[j]);
      }
      ghost var area: MapArea := sets[i].areas[|sets[i].areas| - 1];
      Enlarge(i, area);
      OthersStay(i, r, l, sets[i].Footprint());
      Settle(i, Alive(Inserted(slots[i].space, startVa, endVa, perm, bytes)), sets[i].Footprint());
    }

    method RemoveFrom(i: nat, startVpn: nat)
      requires Valid() && Allowed(slots, Remove(i, startVpn))
      modifies repr, mem
      ensures Valid() && slots == Apply(old(slots), Remove(i, startVpn)) && repr == old(repr)
      ensures outside == old(outside) && Unwritten(old(mem.ram), mem.ram, outside)
    {
      hide Holds, Shared, Unwritten, Confined, Memory.Valid, Removed, Parted;
      ghost var r, l := mem.ram, mem.live;
      PartedFacts(parts, repr, this, i);
      RemoveOne(sets[i], mem, startVpn, slots[i], owners[i], trampoline);
      forall j | 0 <= j < |sets| && j != i ensures Holds(sets[j], slots[j], owners[j], r, l, trampoline) {
        assert unchanged(parts[j]);
      }
      OthersStay(i, r, l, sets[i].Footprint());
      Settle(i, Alive(Removed(slots[i].space, startVpn)), sets[i].Footprint());
    }

    method RecycleSet(i: nat)
      requires Valid() && Allowed(slots, Recycle(i))
      modifies repr, mem
      ensures Valid() && slots == Apply(old(slots), Recycle(i)) && repr == old(repr)
      ensures outside == old(outside) && Unwritten(old(mem.ram), mem.ram, outside)
    {
      hide Holds, Shared, Unwritten, Confined, Memory.Valid, Parted;
      ghost var r, l := mem.ram, mem.live;
      PartedFacts(parts, repr, this, i);
      RecycleOne(sets[i], mem, slots[i], owners[i], trampoline);
      OthersStay(i, r, l, sets[i].Footprint());
      Settle(i, Exited(slots[i].space.tables), sets[i].Footprint());
    }

    method DropSet(i: nat)
      requires Valid() && Allowed(slots, Drop(i))
      modifies repr, mem
      ensures Valid() && slots == Apply(old(slots), Drop(i)) && repr == old(repr)
      ensures outside == old(outside) && Unwritten(old(mem.ram), mem.ram, outside)
    {
      hide Holds, Shared, Unwritten, Confined, Memory.Valid, Parted;
      ghost var r, l := mem.ram, mem.live;
      PartedFacts(parts, repr, this, i);
      SharedApart(outside, owners, l, i);
      DropOne(sets[i], mem, slots[i], owners[i], trampoline);
      OthersStay(i, r, l, {});
      HoldsGone(sets[i], mem.ram, mem.live, trampoline);
      Settle(i, Gone, {});
    }

    /** A new space beside the others leaves them as they are. */
    lemma AllStay(r: seq<Frame>, l: set<nat>, fp: set<nat>)
      requires ValidAt(r, l) && Beside(r, mem.ram, l, mem.live, fp)
      ensures forall j | 0 <= j < |sets| :: Holds(sets[j], slots[j], owners[j], mem.ram, mem.live, trampoline)
      ensures Shared(outside, owners + [fp], mem.live) && Unwritten(r, mem.ram, outside)
    {
      hide Holds, Shared, Confined, Parted;
      SharedOutside(outside, owners, l);
      forall j | 0 <= j < |sets| ensures Holds(sets[j], slots[j], owners[j], mem.ram, mem.live, trampoline) {
        HoldsStill(sets[j], slots[j], owners[j], r, mem.ram, l, mem.live, trampoline);
      }
      SharedCreate(outside, owners, l, mem.live, fp);
    }

    /** Add a space that was built beside the others. */
    method Adopt(ms: MemorySet, ghost slot: Slot)
      requires Within() && mem.Valid() && trampoline < PPN_LIMIT && |sets| == |slots| == |owners|
      requires forall j | 0 <= j < |sets| :: Holds(sets[j], slots[j], owners[j], mem.ram, mem.live, trampoline)
      requires Holds(ms, slot, ms.Footprint(), mem.ram, mem.live, trampoline) && Shared(outside, owners + [ms.Footprint()], mem.live)
      requires ms !in repr && ms.pageTable !in repr && forall a | a in ms.areas :: a !in repr
      modifies this
      ensures Valid() && slots == old(slots) + [slot] && repr == old(repr) + Objects(ms)
      ensures sets == old(sets) + [ms] && outside == old(outside)
    {
      hide Holds, Shared, Memory.Valid, Parted, PartOf, Objects;
      AdoptObjects(ms);
      slots := slots + [slot];
      owners := owners + [ms.Footprint()];
    }

    method AdoptObjects(ms: MemorySet)
      requires Within() && ms !in repr && ms.pageTable !in repr && forall a | a in ms.areas :: a !in repr
      modifies this`sets, this`repr, this`parts
      ensures Within() && sets == old(sets) + [ms] && repr == old(repr) + Objects(ms)
    {
      hide Parted;
      PartedNew(parts, repr, this, Objects(ms));
      parts := parts + [Objects(ms)];
      sets := sets + [ms];
      repr := repr + Objects(ms);
    }

    method CreateSet()
      requires Valid() && Fits(Room(), slots, Create)
      modifies repr, mem
      ensures Valid() && slots == Apply(old(slots), Create) && fresh(repr - old(repr))
      ensures outside == old(outside) && Unwritten(old(mem.ram), mem.ram, outside)
    {
      hide Holds, Shared, Unwritten, Beside, Memory.Valid, Parted, SlotFrames, Fits, Bare;
      ghost var r, l := mem.ram, mem.live;
      FramesForSpace(Create, Alive(Bare()));
      var ms := CreateOne(mem, trampoline);
      AllStay(r, l, ms.Footprint());
      Adopt(ms, Alive(Bare()));
    }

    method ForkSet(i: nat)
      requires Valid() && Allowed(slots, Fork(i)) && Fits(Room(), slots, Fork(i))
      modifies repr, mem
      ensures Valid() && slots == Apply(old(slots), Fork(i)) && fresh(repr - old(repr))
      ensures outside == old(outside) && Unwritten(old(mem.ram), mem.ram, outside)
    {
      hide Holds, Shared, Unwritten, Beside, Memory.Valid, Parted, SlotFrames, NewFrames, Copy, Fits;
      ghost var r, l := mem.ram, mem.live;
      FramesForSpace(Fork(i), Alive(Copy(slots[i].space)));
      CopyFrames(slots[i].space);
      var ms := ForkOne(sets[i], mem, slots[i], owners[i], trampoline);
      AllStay(r, l, ms.Footprint());
      Adopt(ms, Alive(Copy(slots[i].space)));
    }

    /** A read through the page table. */
    method LoadFrom(i: nat, vpn: nat) returns (bytes: Frame)
      requires Valid() && i < |slots| && slots[i].Alive? && vpn in slots[i].space.pages
      ensures bytes == slots[i].space.pages[vpn].bytes
    {
      hide Shared, Memory.Valid, Parted;
      bytes := LoadOne(sets[i], mem, vpn, slots[i], owners[i], trampoline);
    }

    lemma Lengths()
      requires Valid()
      ensures |sets| == |slots|
    {
    }

    lemma OutsideLive()
      requires Valid()
      ensures outside <= mem.live
    {
      hide Holds, Shared, Memory.Valid, Parted;
      SharedOutside(outside, owners, mem.live);
    }

    /** A new space with these areas, as for a program that is loaded. */
    method CreateFrom(specs: seq<AreaSpec>)
      requires Valid() && Loadable(specs) && InUse(slots) + SlotFrames(Alive(Built(specs))) <= Room()
      modifies repr, mem
      ensures Valid() && slots == old(slots) + [Alive(Built(specs))] && fresh(repr - old(repr))
      ensures outside == old(outside) && Unwritten(old(mem.ram), mem.ram, outside)
    {
      hide ValidAt, Memory.Valid, Unwritten, Loadable, Inserted, Built, InUse, SlotFrames, Allowed;
      Lengths();
      var n := |sets|;
      BuiltNone(specs);
      BuiltFits(slots, specs, 0);
      CreateSet();
      for k := 0 to |specs|
        invariant Valid() && slots == old(slots) + [Alive(Built(specs[..k]))] && fresh(repr - old(repr))
        invariant outside == old(outside) && Unwritten(old(mem.ram), mem.ram, outside)
      {
        ghost var r := mem.ram;
        BuiltNext(specs, slots, n, k);
        BuiltFits(old(slots), specs, k + 1);
        InsertInto(n, specs[k].startVa, specs[k].endVa, specs[k].perm, specs[k].data);
        UnwrittenTrans(old(mem.ram), r, mem.ram, outside);
      }
      assert specs[..|specs|] == specs;
    }

    /** The last space takes the place of space `i`, which is deallocated. */
    method ReplaceByLast(i: nat)
      requires Valid() && i < |slots| - 1 && !slots[i].Gone?
      modifies repr, mem
      ensures Valid() && slots == old(slots)[..|old(slots)| - 1][i := old(slots)[|old(slots)| - 1]] && repr == old(repr)
      ensures outside == old(outside) && Unwritten(old(mem.ram), mem.ram, outside)
    {
      hide ValidAt, Unwritten, Memory.Valid;
      MeInRepr();
      DropSet(i);
      MoveLast(i);
    }

    lemma MeInRepr()
      requires Valid()
      ensures this in repr
    {
    }

    method MoveLast(i: nat)
      requires Valid() && i < |slots| - 1 && slots[i].Gone?
      modifies this`sets, this`slots, this`owners, this`parts
      ensures Valid() && slots == old(slots)[..|old(slots)| - 1][i := old(slots)[|old(slots)| - 1]]
    {
      hide Holds, Shared, Unwritten, Memory.Valid, Parted;
      ghost var n := |slots| - 1;
      assert owners[i] == {} by { GoneOwnsNothing(sets[i], slots[i], owners[i], mem.ram, mem.live, trampoline); }
      SharedMove(outside, owners, mem.live, i);
      PartedMove(parts, repr, this, i);
      var last := sets[|sets| - 1];
      sets := sets[..|sets| - 1][i := last];
      slots := slots[..n][i := slots[n]];
      owners := owners[..n][i := owners[n]];
      parts := parts[..n][i := parts[n]];
    }

    method Perform(op: Op)
      requires Valid() && Allowed(slots, op) && Fits(Room(), slots, op)
      modifies repr, mem
      ensures Valid() && slots == Apply(old(slots), op) && fresh(repr - old(repr))
      ensures outside == old(outside) && Unwritten(old(mem.ram), mem.ram, outside)
    {
      hide ValidAt, Memory.Valid, Unwritten, Apply, Fits;
      match op {
        case Create => CreateSet();
        case Insert(i, a, b, perm, data) => InsertInto(i, a, b, perm, data);
        case Remove(i, v) => RemoveFrom(i, v);
        case Fork(i) => ForkSet(i);
        case Store(i, v, bytes) => StoreTo(i, v, bytes);
        case Recycle(i) => RecycleSet(i);
        case Drop(i) => DropSet(i);
      }
    }

    /**
     Any run of operations on any number of address spaces, as long as at each moment there are frames for
     the spaces as they are then: every space holds exactly what its own operations amount to, whatever
     the others do.
     */
    method Run(ops: seq<Op>)
      requires Valid() && AllAllowed(slots, ops) && AllFit(Room(), slots, ops)
      modifies repr, mem
      ensures Valid() && slots == ApplyAll(old(slots), ops)
      ensures outside == old(outside) && Unwritten(old(mem.ram), mem.ram, outside)
      decreases |ops|
    {
      hide Valid, Allowed, Apply, Fits;
      if ops != [] {
        Perform(ops[0]);
        ghost var r := mem.ram;
        Run(ops[1..]);
        UnwrittenTrans(old(mem.ram), r, mem.ram, outside);
      }
    }
  }

  // Loading a program.

  /** One loadable area of a program. */
  datatype AreaSpec = AreaSpec(startVa: nat, endVa: nat, perm: nat, data: Option<seq<byte>>)

  predicate InSpec(s: AreaSpec, v: nat)
  {
    First(s.startVa) <= v < End(s.endVa)
  }

  ghost predicate InArea(specs: seq<AreaSpec>, v: nat)
  {
    exists k | 0 <= k < |specs| :: InSpec(specs[k], v)
  }

  ghost predicate SpecOk(s: AreaSpec)
  {
    && s.startVa <= s.endVa && 0 < s.endVa <= PAGE_SIZE * TRAMPOLINE_VPN && s.perm < 256
    && (s.data.Some? ==> First(s.startVa) < End(s.endVa) && |s.data.value| <= PAGE_SIZE * (End(s.endVa) - First(s.startVa)))
  }

  /** The areas lie below the trampoline and share no page, and their data fits. */
  ghost predicate Loadable(specs: seq<AreaSpec>)
  {
    && (forall k | 0 <= k < |specs| :: SpecOk(specs[k]))
    && (forall k, v | 0 <= k < |specs| && InSpec(specs[k], v) :: !InArea(specs[..k], v))
  }

  ghost function Built(specs: seq<AreaSpec>): Space
  {
    if specs == [] then Bare()
    else
      var last := specs[|specs| - 1];
      Inserted(Built(specs[..|specs| - 1]), last.startVa, last.endVa, last.perm, last.data)
  }

  lemma BuiltNone(specs: seq<AreaSpec>)
    ensures Built(specs[..0]) == Bare()
  {
  }

  /** The pages of a loaded program are those of its areas. */
  lemma {:induction false} BuiltPages(specs: seq<AreaSpec>, v: nat)
    ensures v in Built(specs).pages <==> InArea(specs, v)
  {
    if specs != [] {
      var n := |specs| - 1;
      var before, last := specs[..n], specs[n];
      BuiltPages(before, v);
      InsertedPages(Built(before), last, v);
      InMore(specs, v);
    }
  }

  /** A spec covers the pages from that of its first address on that begin below its end. */
  lemma InSpecMeans(s: AreaSpec, v: nat)
    requires SpecOk(s)
    ensures InSpec(s, v) <==> s.startVa / 4096 <= v && v * 4096 < s.endVa
  {
  }

  /** Byte `o` of page `v` is that of the data of the area, or zero after its end; the page has the flags of the area with V. */
  ghost predicate HasByte(s: Space, a: AreaSpec, v: nat, o: nat)
    requires o < 4096
  {
    && v in s.pages && s.pages[v].flags == a.perm + (1 - a.perm % 2)
    && var at := 4096 * (v - a.startVa / 4096) + o;
       s.pages[v].bytes[o] == if a.data.Some? && 0 <= at < |a.data.value| then a.data.value[at] else 0
  }

  /** Each page of a loaded program has the flags and the bytes that its area says. */
  lemma {:induction false} BuiltBytes(specs: seq<AreaSpec>, k: nat, v: nat, o: nat)
    requires Loadable(specs) && k < |specs| && InSpec(specs[k], v) && o < 4096
    ensures HasByte(Built(specs), specs[k], v, o)
    decreases |specs|
  {
    hide Inserted, Loadable, InSpec;
    var n := |specs| - 1;
    if k < n {
      LoadablePrefix(specs);
      BuiltBytes(specs[..n], k, v, o);
      NotInLast(specs, k, v);
      OthersInserted(Built(specs[..n]), specs[n], v);
    } else {
      ByteInserted(Built(specs[..n]), specs[n], v, o);
    }
  }

  lemma OthersInserted(s: Space, a: AreaSpec, v: nat)
    requires v in s.pages && !InSpec(a, v)
    ensures var t := Inserted(s, a.startVa, a.endVa, a.perm, a.data); v in t.pages && t.pages[v] == s.pages[v]
  {
    hide InitialPage;
  }

  lemma ByteInserted(s: Space, a: AreaSpec, v: nat, o: nat)
    requires InSpec(a, v) && o < 4096
    ensures HasByte(Inserted(s, a.startVa, a.endVa, a.perm, a.data), a, v, o)
  {
    hide InitialPage;
    InitialByte(a.data, v, First(a.startVa), o);
  }

  lemma InOne(specs: seq<AreaSpec>, k: nat, v: nat)
    requires k < |specs| && InSpec(specs[k], v)
    ensures InArea(specs, v)
  {
  }

  lemma LoadablePrefix(specs: seq<AreaSpec>)
    requires Loadable(specs) && specs != []
    ensures Loadable(specs[..|specs| - 1])
  {
    hide InArea, SpecOk;
    var before := specs[..|specs| - 1];
    forall k, v | 0 <= k < |before| && InSpec(before[k], v) ensures !InArea(before[..k], v) {
      assert before[..k] == specs[..k] && InSpec(specs[k], v);
    }
  }

  lemma NotInLast(specs: seq<AreaSpec>, k: nat, v: nat)
    requires Loadable(specs) && k < |specs| - 1 && InSpec(specs[k], v)
    ensures !InSpec(specs[|specs| - 1], v)
  {
    var n := |specs| - 1;
    InOne(specs[..n], k, v);
  }

  lemma InsertedPages(s: Space, a: AreaSpec, v: nat)
    ensures v in Inserted(s, a.startVa, a.endVa, a.perm, a.data).pages <==> v in s.pages || InSpec(a, v)
  {
    hide InitialPage;
  }

  lemma InMore(specs: seq<AreaSpec>, v: nat)
    requires specs != []
    ensures InArea(specs, v) <==> InArea(specs[..|specs| - 1], v) || InSpec(specs[|specs| - 1], v)
  {
    var before := specs[..|specs| - 1];
    assert forall k | 0 <= k < |before| :: before[k] == specs[k];
  }

  /** The next area can be inserted, and this makes one more of the program. */
  lemma BuiltNext(specs: seq<AreaSpec>, slots: seq<Slot>, n: nat, k: nat)
    requires Loadable(specs) && k < |specs| && |slots| == n + 1 && slots[n] == Alive(Built(specs[..k]))
    ensures var a := specs[k];
            && Allowed(slots, Insert(n, a.startVa, a.endVa, a.perm, a.data))
            && Inserted(Built(specs[..k]), a.startVa, a.endVa, a.perm, a.data) == Built(specs[..k + 1])
            && Apply(slots, Insert(n, a.startVa, a.endVa, a.perm, a.data)) == slots[..n] + [Alive(Built(specs[..k + 1]))]
  {
    hide Inserted, InArea;
    var a := specs[k];
    assert SpecOk(a);
    assert specs[..k + 1][..k] == specs[..k];
    forall v | First(a.startVa) <= v < End(a.endVa) ensures v !in slots[n].space.pages {
      assert InSpec(a, v);
      BuiltPages(specs[..k], v);
    }
  }

  /** If there is room for the program, there is room for its first areas. */
  lemma BuiltFits(slots: seq<Slot>, specs: seq<AreaSpec>, k: nat)
    requires k <= |specs|
    ensures InUse(slots + [Alive(Built(specs[..k]))]) <= InUse(slots) + SlotFrames(Alive(Built(specs)))
  {
    hide SlotFrames, Built, InUse;
    FramesAdded(slots, Alive(Built(specs[..k])));
    BuiltGrows(specs, k);
  }

  lemma {:induction false} BuiltGrows(specs: seq<AreaSpec>, k: nat)
    requires k <= |specs|
    ensures SlotFrames(Alive(Built(specs[..k]))) <= SlotFrames(Alive(Built(specs)))
    decreases |specs|
  {
    hide SlotFrames, Inserted;
    if k < |specs| {
      var before, last := specs[..|specs| - 1], specs[|specs| - 1];
      BuiltGrows(before, k);
      assert before[..k] == specs[..k];
      InsertTakesMore(Built(before), last.startVa, last.endVa, last.perm, last.data);
    } else {
      assert specs[..k] == specs;
    }
  }

  lemma UnwrittenTrans(r0: seq<Frame>, r1: seq<Frame>, r2: seq<Frame>, frames: set<nat>)
    requires Unwritten(r0, r1, frames) && Unwritten(r1, r2, frames)
    ensures Unwritten(r0, r2, frames)
  {
  }

  // Replacing a space.

  lemma GoneOwnsNothing(ms: MemorySet, slot: Slot, owner: set<nat>, ram: seq<Frame>, live: set<nat>, trampoline: nat)
    requires Holds(ms, slot, owner, ram, live, trampoline) && slot.Gone?
    ensures owner == {}
  {
  }

  lemma PartitionMove(owners: seq<set<nat>>, live: set<nat>, i: nat)
    requires Partition(owners, live) && i < |owners| - 1 && owners[i] == {}
    ensures Partition(owners[..|owners| - 1][i := owners[|owners| - 1]], live)
  {
    var n := |owners| - 1;
    var after := owners[..n][i := owners[n]];
    forall x ensures OwnedBySome(owners, x) <==> OwnedBySome(after, x) {
      if OwnedBySome(owners, x) {
        var j :| 0 <= j < |owners| && x in owners[j];
        assert x in after[if j == n then i else j];
      }
      if OwnedBySome(after, x) {
        var j :| 0 <= j < |after| && x in after[j];
        assert x in owners[if j == i then n else j];
      }
    }
  }

  lemma SharedMove(outside: set<nat>, owners: seq<set<nat>>, live: set<nat>, i: nat)
    requires Shared(outside, owners, live) && i < |owners| - 1 && owners[i] == {}
    ensures Shared(outside, owners[..|owners| - 1][i := owners[|owners| - 1]], live)
  {
    hide Partition;
    var n, all := |owners| - 1, [outside] + owners;
    PartitionMove(all, live, i + 1);
    assert all[..n + 1][i + 1 := all[n + 1]] == [outside] + owners[..n][i := owners[n]];
  }

  lemma PartedMove(parts: seq<set<object>>, repr: set<object>, self: object, i: nat)
    requires Parted(parts, repr, self) && i < |parts| - 1
    ensures Parted(parts[..|parts| - 1][i := parts[|parts| - 1]], repr, self)
  {
  }

  ghost function ApplyAll(slots: seq<Slot>, ops: seq<Op>): seq<Slot>
    decreases |ops|
  {
    if ops == [] then slots else ApplyAll(Apply(slots, ops[0]), ops[1..])
  }

  ghost predicate AllAllowed(slots: seq<Slot>, ops: seq<Op>)
    decreases |ops|
  {
    ops == [] || (Allowed(slots, ops[0]) && AllAllowed(Apply(slots, ops[0]), ops[1..]))
  }

  lemma {:induction false} SumOwners(outside: set<nat>, owners: seq<set<nat>>, slots: seq<Slot>)
    requires |owners| == |slots| && forall i | 0 <= i < |slots| :: |owners[i]| == SlotFrames(slots[i])
    ensures SumSizes([outside] + owners) == |outside| + InUse(slots)
    decreases |owners|
  {
    hide SlotFrames;
    var all := [outside] + owners;
    if owners == [] {
      assert all[..0] == [] && SumSizes(all[..0]) == 0;
    } else {
      var n := |owners| - 1;
      SumOwners(outside, owners[..n], slots[..n]);
      assert all[..n + 1] == [outside] + owners[..n] && all[n + 1] == owners[n];
    }
  }

  lemma HoldsGone(ms: MemorySet, ram: seq<Frame>, live: set<nat>, trampoline: nat)
    ensures Holds(ms, Gone, {}, ram, live, trampoline)
  {
  }

  /** An operation on one space changes no other. */
  lemma {:induction false} OthersUnchanged(slots: seq<Slot>, ops: seq<Op>, i: nat)
    requires i < |slots| && forall k | 0 <= k < |ops| :: ops[k].Create? || ops[k].Fork? || ops[k].i != i
    ensures i < |ApplyAll(slots, ops)| && ApplyAll(slots, ops)[i] == slots[i]
    decreases |ops|
  {
    hide Inserted, Removed, Stored;
    if ops != [] {
      OthersUnchanged(Apply(slots, ops[0]), ops[1..], i);
    }
  }

  method RemoveOne(ms: MemorySet, mem: Memory, startVpn: nat, ghost slot: Slot, ghost owner: set<nat>, trampoline: nat)
    requires mem.Valid() && Holds(ms, slot, owner, mem.ram, mem.live, trampoline) && slot.Alive?
    modifies ms, ms.areas, ms.pageTable, mem
    ensures mem.Valid() && Holds(ms, Alive(Removed(slot.space, startVpn)), ms.Footprint(), mem.ram, mem.live, trampoline)
    ensures Confined(old(mem.ram), mem.ram, old(mem.live), mem.live, owner, ms.Footprint())
    ensures forall a | a in ms.areas :: a in old(ms.areas)
  {
    hide Tree, NodeFrames, NoDup, Injective, Held, Agrees, Spans, Shows, Memory.Valid, Trampoline, Confined, MemorySet.Listed, Unwritten,
         OwnedAt, Range, FirstAt, FirstSpan;
    ghost var r, t, d, m, x, space := mem.ram, ms.pageTable.table, ms.data, ms.model, ms.extra, slot.space;
    HoldsOwned(ms, mem);
    SameFirst(m, space.spans, startVpn);
    ghost var k := FirstAt(m, startVpn);
    ms.RemoveAreaWithStartVpn(startVpn, mem);
    HoldsOwned(ms, mem);
    if k == |m| {
      ShowsKept(d, t, r, mem.ram, space.pages);
    } else {
      SpanAt(m, space.spans, k);
      SpansRemoved(m, space.spans, k);
      ShowsRemoved(d, t, r, mem.ram, space.pages, m[k].start, m[k].end);
      TrampolineKept(m, t, x, trampoline, k);
    }
  }

  lemma SpanAt(model: seq<Area>, spans: seq<Span>, k: nat)
    requires Spans(model, spans) && k < |model|
    ensures |spans| == |model| && spans[k] == Span(model[k].start, model[k].end, model[k].perm)
  {
  }

  lemma TrampolineKept(model: seq<Area>, t: map<nat, nat>, extra: set<nat>, ppn: nat, k: nat)
    requires Trampoline(t, extra, ppn) && Agrees(model, t, extra) && k < |model|
    ensures Trampoline(t - Range(model[k].start, model[k].end), extra, ppn)
  {
    hide AreaMapped, Entry, WithV;
    ExtraStays(model, k, TRAMPOLINE_VPN);
  }

  method RecycleOne(ms: MemorySet, mem: Memory, ghost slot: Slot, ghost owner: set<nat>, trampoline: nat)
    requires mem.Valid() && Holds(ms, slot, owner, mem.ram, mem.live, trampoline) && slot.Alive?
    modifies ms, mem
    ensures mem.Valid() && Holds(ms, Exited(slot.space.tables), ms.Footprint(), mem.ram, mem.live, trampoline)
    ensures Confined(old(mem.ram), mem.ram, old(mem.live), mem.live, owner, ms.Footprint())
    ensures ms.areas == []
  {
    hide Tree, NodeFrames, NoDup, Injective, Held, Agrees, Spans, Shows, Memory.Valid, Trampoline, Confined, MemorySet.Listed, OwnedAt;
    HoldsOwned(ms, mem);
    ms.RecycleDataPages(mem);
    HoldsOwned(ms, mem);
    assert NodeFrames(ms.pageTable.nodes) + ms.data.Values == NodeFrames(ms.pageTable.nodes);
  }

  method DropOne(ms: MemorySet, mem: Memory, ghost slot: Slot, ghost owner: set<nat>, trampoline: nat)
    requires mem.Valid() && Holds(ms, slot, owner, mem.ram, mem.live, trampoline) && !slot.Gone? && owner <= mem.live
    modifies mem
    ensures mem.Valid() && Confined(old(mem.ram), mem.ram, old(mem.live), mem.live, owner, {})
  {
    hide Tree, NodeFrames, NoDup, Injective, Held, Agrees, Spans, Shows, Memory.Valid, Trampoline, MemorySet.Listed, OwnedAt;
    HoldsOwned(ms, mem);
    ms.Drop(mem);
  }

  method CreateOne(mem: Memory, trampoline: nat) returns (ms: MemorySet)
    requires mem.Valid() && mem.Free() >= SlotFrames(Alive(Bare())) && trampoline < PPN_LIMIT
    modifies mem
    ensures fresh(ms) && fresh(ms.pageTable) && ms.areas == []
    ensures mem.Valid() && Holds(ms, Alive(Bare()), ms.Footprint(), mem.ram, mem.live, trampoline)
    ensures Beside(old(mem.ram), mem.ram, old(mem.live), mem.live, ms.Footprint())
  {
    hide Tree, NodeFrames, NoDup, Injective, Held, Agrees, Memory.Valid, Confined, MemorySet.Listed, OwnedAt, Beside, Spans, Shows, Entry, WithV, NodesFor, SlotFrames, NewFrames, Full;
    ghost var r, l := mem.ram, mem.live;
    FirstNodes({});
    BareFrames();
    ms := new MemorySet(mem);
    BesideFirst(r, mem.ram, l, mem.live, ms.Footprint());
    ghost var r1, l1, f1 := mem.ram, mem.live, ms.Footprint();
    var ok := ms.MapTrampoline(mem, trampoline);
    BesideMore(r, r1, mem.ram, l, l1, mem.live, f1, ms.Footprint());
    HoldsOwned(ms, mem);
    ShowsNothing(ms.pageTable.table, mem.ram);
  }

  lemma BareFrames()
    ensures SlotFrames(Alive(Bare())) == NewFrames({}) == 1 + NodesFor({}, {TRAMPOLINE_LAST}) && {} + {TRAMPOLINE_LAST} == {TRAMPOLINE_LAST}
  {
    hide PageLasts, Above;
    NoLasts();
    NoneAbove();
    assert {} + {TRAMPOLINE_LAST} == {TRAMPOLINE_LAST};
  }

  lemma AllFramed(model: seq<Area>, spans: seq<Span>)
    requires Spans(model, spans)
    ensures Framed(model)
  {
  }

  method ForkOne(ms: MemorySet, mem: Memory, ghost slot: Slot, ghost owner: set<nat>, trampoline: nat) returns (copy: MemorySet)
    requires mem.Valid() && Holds(ms, slot, owner, mem.ram, mem.live, trampoline) && slot.Alive? && trampoline < PPN_LIMIT
    requires mem.Free() >= NewFrames(slot.space.pages.Keys)
    modifies mem
    ensures fresh(copy) && fresh(copy.pageTable) && fresh(copy.areas)
    ensures mem.Valid() && Holds(copy, Alive(Copy(slot.space)), copy.Footprint(), mem.ram, mem.live, trampoline)
    ensures Beside(old(mem.ram), mem.ram, old(mem.live), mem.live, copy.Footprint())
  {
    hide Tree, NodeFrames, NoDup, Injective, Held, Agrees, Spans, Shows, Memory.Valid, Confined, MemorySet.Listed, OwnedAt, Entry, WithV, EntryFlags, PagesCopied,
         Framed, NewFrames, PageLasts;
    HoldsOwned(ms, mem);
    AllFramed(ms.model, slot.space.spans);
    ShownKeys(ms.data, ms.pageTable.table, mem.ram, slot.space.pages);
    copy := FromExistedUser(ms, mem, trampoline);
    HoldsOwned(copy, mem);
    SpansCloned(ms.model, copy.model, slot.space.spans);
    ShowsKept(ms.data, ms.pageTable.table, old(mem.ram), mem.ram, slot.space.pages);
    ShowsCopied(ms.data, ms.pageTable.table, mem.ram, slot.space.pages, copy.data, copy.pageTable.table);
  }

  lemma ShownKeys(data: map<nat, nat>, table: map<nat, nat>, ram: seq<Frame>, pages: map<nat, Page>)
    requires Shows(data, table, ram, pages)
    ensures pages.Keys == data.Keys
  {
  }

  lemma SpansCloned(model: seq<Area>, copy: seq<Area>, spans: seq<Span>)
    requires Spans(model, spans) && CloneOf(model, copy) && |copy| == |model|
    ensures Spans(copy, spans)
  {
    assert forall i | 0 <= i < |model| :: SameArea(model[i], copy[i]);
  }

  /** Apart from the trampoline only pages of the areas are mapped. */
  lemma MappedPages(model: seq<Area>, data: map<nat, nat>, table: map<nat, nat>, extra: set<nat>, spans: seq<Span>, v: nat)
    requires Held(model, data) && Agrees(model, table, extra) && Spans(model, spans)
    ensures v in table ==> v in extra || v in data
  {
    hide Held, AreaMapped, HeldBy;
    HeldIff(model, data, v);
    if v in table && v !in extra {
      assert MappedBy(model, v);
      FramedIsHeld(model, spans, v);
    }
  }

  lemma FramedIsHeld(model: seq<Area>, spans: seq<Span>, v: nat)
    requires Spans(model, spans) && MappedBy(model, v)
    ensures HeldBy(model, v)
  {
  }

  lemma SpansAdded(model: seq<Area>, spans: seq<Span>, a: Area)
    requires Spans(model, spans) && a.framed
    ensures Spans(model + [a], spans + [Span(a.start, a.end, a.perm)])
  {
  }

  lemma TrampolineStays(t: map<nat, nat>, t': map<nat, nat>, extra: set<nat>, ppn: nat, a: Area)
    requires Trampoline(t, extra, ppn) && Filled(t, t', a.start, a.end, a.framed, a.perm, a.frames) && forall v | a.start <= v < a.end :: v !in t
    ensures Trampoline(t', extra, ppn)
  {
    hide PageMapped, Entry, WithV;
  }

  method InsertOne(ms: MemorySet, mem: Memory, startVa: nat, endVa: nat, perm: nat, bytes: Option<seq<byte>>,
                   ghost slot: Slot, ghost owner: set<nat>, trampoline: nat)
    requires mem.Valid() && Holds(ms, slot, owner, mem.ram, mem.live, trampoline) && Allowed([slot], Insert(0, startVa, endVa, perm, bytes))
    requires mem.Free() >= AreaFrames(slot.space.tables, First(startVa), End(endVa), true)
    modifies ms, ms.pageTable, mem
    ensures mem.Valid() && Holds(ms, Alive(Inserted(slot.space, startVa, endVa, perm, bytes)), ms.Footprint(), mem.ram, mem.live, trampoline)
    ensures Confined(old(mem.ram), mem.ram, old(mem.live), mem.live, owner, ms.Footprint())
    ensures |ms.areas| == |old(ms.areas)| + 1 && ms.areas[..|old(ms.areas)|] == old(ms.areas) && fresh(ms.areas[|old(ms.areas)|])
  {
    hide Tree, NodeFrames, NoDup, Injective, Held, Agrees, Spans, Shows, Memory.Valid, Trampoline, Confined, MemorySet.Listed, Filled, Unwritten,
         InitialPage, InitialPages, OwnedAt, AreaFrames, LastsOf;
    ghost var r, t, d, m, x := mem.ram, ms.pageTable.table, ms.data, ms.model, ms.extra;
    HoldsOwned(ms, mem);
    SpanFacts(startVa, endVa);
    RangeIsFree(m, d, t, x, slot.space, r, trampoline, First(startVa), End(endVa));
    var area := new MapArea(startVa, endVa, true, perm);
    var ok := ms.Push(area, bytes, mem);
    ghost var a := area.Value();
    HoldsOwned(ms, mem);
    TrampolineStays(t, ms.pageTable.table, x, trampoline, a);
    SpansAdded(m, slot.space.spans, a);
    MemoryFork.NewPages(m, d, t, ms.pageTable.table, x, a);
    ShowsInserted(d, t, r, ms.pageTable.table, mem.ram, slot.space.pages, a, bytes);
  }

  lemma SpanFacts(startVa: nat, endVa: nat)
    requires startVa <= endVa && 0 < endVa <= PAGE_SIZE * TRAMPOLINE_VPN
    ensures First(startVa) <= End(endVa) <= TRAMPOLINE_VPN && End(endVa) == (endVa - 1 + PAGE_SIZE) / PAGE_SIZE
  {
  }

  lemma RangeIsFree(model: seq<Area>, data: map<nat, nat>, table: map<nat, nat>, extra: set<nat>, space: Space, ram: seq<Frame>, ppn: nat, start: nat, end: nat)
    requires Held(model, data) && Agrees(model, table, extra) && Spans(model, space.spans) && Shows(data, table, ram, space.pages) && Trampoline(table, extra, ppn)
    requires end <= TRAMPOLINE_VPN && forall v | start <= v < end :: v !in space.pages
    ensures forall v | start <= v < end :: v !in table
  {
    hide Held, Agrees, Spans, Entry, WithV, EntryFlags;
    assert forall v :: v in data <==> v in space.pages.Keys;
    forall v | start <= v < end ensures v !in table {
      MappedPages(model, data, table, extra, space.spans, v);
    }
  }

  method LoadOne(ms: MemorySet, mem: Memory, vpn: nat, ghost slot: Slot, ghost owner: set<nat>, trampoline: nat) returns (bytes: Frame)
    requires mem.Valid() && Holds(ms, slot, owner, mem.ram, mem.live, trampoline) && slot.Alive? && vpn in slot.space.pages
    ensures bytes == slot.space.pages[vpn].bytes
  {
    hide Tree, NodeFrames, NoDup, Injective, Held, Agrees, Spans, Memory.Valid, Trampoline, MemorySet.Listed, EntryPpn, EntryFlags;
    HoldsOwned(ms, mem);
    assert vpn in ms.data.Keys;
    DataPage(ms.model, ms.data, ms.pageTable.table, ms.extra, vpn);
    var e := ms.pageTable.Translate(mem, vpn);
    bytes := mem.ram[EntryPpn(e.value)];
  }

  method StoreOne(ms: MemorySet, mem: Memory, vpn: nat, bytes: Frame, ghost slot: Slot, ghost owner: set<nat>, trampoline: nat)
    requires mem.Valid() && Holds(ms, slot, owner, mem.ram, mem.live, trampoline) && slot.Alive? && vpn in slot.space.pages
    modifies mem
    ensures mem.Valid() && Holds(ms, Alive(Stored(slot.space, vpn, bytes)), owner, mem.ram, mem.live, trampoline)
    ensures Confined(old(mem.ram), mem.ram, old(mem.live), mem.live, owner, owner)
  {
    hide Tree, NodeFrames, NoDup, Injective, Held, Agrees, Spans, Shows, Memory.Valid, Trampoline, Confined, MemorySet.Listed, EntryPpn;
    ghost var r := mem.ram;
    HoldsOwned(ms, mem);
    ShowsStored(ms.data, ms.pageTable.table, r, slot.space.pages, vpn, bytes);
    DataPage(ms.model, ms.data, ms.pageTable.table, ms.extra, vpn);
    var e := ms.pageTable.Translate(mem, vpn);
    mem.Write(EntryPpn(e.value), bytes);
    NodesUntouched(ms.pageTable.nodes, ms.pageTable.table, r, ms.data, vpn, bytes);
    StoreIsConfined(ms.data, NodeFrames(ms.pageTable.nodes), r, mem.live, vpn, bytes);
  }
}
