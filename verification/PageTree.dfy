/**
 The three-level page table as a tree of frames. `Nodes` names the frame of every node: the root, a
 middle node per top index, and a last node per pair of top and middle index.
 */
module PageTree {
  import opened Options
  import opened Seqs
  import opened Bytes
  import opened Paging

  datatype Nodes = Nodes(root: nat, mids: map<nat, nat>, lasts: map<nat, nat>)

  ghost function NodeFrames(n: Nodes): set<nat>
  {
    {n.root} + n.mids.Values + n.lasts.Values
  }

  ghost predicate Injective(m: map<nat, nat>)
  {
    forall a, b | a in m && b in m && a != b :: m[a] != m[b]
  }

  /** No frame is used twice, and every last node hangs below a middle node. */
  ghost predicate Shape(n: Nodes, size: nat)
  {
    && size <= PPN_LIMIT
    && Injective(n.mids) && Injective(n.lasts)
    && n.root !in n.mids.Values && n.root !in n.lasts.Values && n.mids.Values !! n.lasts.Values
    && (forall f | f in NodeFrames(n) :: f < size)
    && (forall i | i in n.mids :: i < 512)
    && (forall k | k in n.lasts :: k < 262144 && k / 512 in n.mids)
  }

  ghost predicate RootEntry(n: Nodes, ram: seq<Frame>, i: nat)
  {
    i < 512 && n.root < |ram| && (i in n.mids ==> n.mids[i] < PPN_LIMIT)
    && Pte(ram[n.root], i) == if i in n.mids then Entry(n.mids[i], V) else 0
  }

  ghost predicate MidEntry(n: Nodes, ram: seq<Frame>, k: nat)
  {
    && k / 512 in n.mids && n.mids[k / 512] < |ram| && (k in n.lasts ==> n.lasts[k] < PPN_LIMIT)
    && Pte(ram[n.mids[k / 512]], k % 512) == if k in n.lasts then Entry(n.lasts[k], V) else 0
  }

  /** The entry for a page, when there is a last node for it. */
  ghost predicate LeafEntry(n: Nodes, ram: seq<Frame>, table: map<nat, nat>, vpn: nat)
  {
    && vpn / 512 in n.lasts && n.lasts[vpn / 512] < |ram|
    && Pte(ram[n.lasts[vpn / 512]], vpn % 512) == if vpn in table then table[vpn] else 0
  }

  /** The tree in memory, and the finite map that its leaves hold. */
  ghost predicate Tree(n: Nodes, ram: seq<Frame>, table: map<nat, nat>)
  {
    && Shape(n, |ram|)
    && (forall i: nat | i < 512 :: RootEntry(n, ram, i))
    && (forall k: nat | k < 262144 && k / 512 in n.mids :: MidEntry(n, ram, k))
    && (forall vpn: nat | vpn < VPN_LIMIT && vpn / 512 in n.lasts :: LeafEntry(n, ram, table, vpn))
    && (forall vpn | vpn in table :: vpn < VPN_LIMIT && vpn / 512 in n.lasts && IsValid(table[vpn]) && table[vpn] < 0x1_0000_0000_0000_0000)
  }

  /** The frame and slot of the entry for a page. */
  ghost function Slot(n: Nodes, vpn: nat): Option<(nat, nat)>
  {
    if vpn / 512 in n.lasts then Some((n.lasts[vpn / 512], vpn % 512)) else None
  }

  lemma Keys(vpn: nat)
    requires vpn < VPN_LIMIT
    ensures Index(vpn, 0) == vpn / 262144 == (vpn / 512) / 512 && Index(vpn, 1) == (vpn / 512) % 512 && Index(vpn, 2) == vpn % 512
    ensures vpn / 512 < 262144 && vpn / 262144 < 512
  {
  }

  /** Memory outside the nodes does not matter. */
  lemma TreeFrame(n: Nodes, ram: seq<Frame>, ram': seq<Frame>, table: map<nat, nat>)
    requires Tree(n, ram, table) && |ram'| == |ram| && forall f | f in NodeFrames(n) && f < |ram| :: ram'[f] == ram[f]
    ensures Tree(n, ram', table)
  {
    hide Pte, Injective, IsValid;
    assert n.root in NodeFrames(n);
    forall i: nat | i < 512 ensures RootEntry(n, ram', i) {
      assert RootEntry(n, ram, i);
    }
    forall k: nat | k < 262144 && k / 512 in n.mids ensures MidEntry(n, ram', k) {
      assert MidEntry(n, ram, k);
      assert n.mids[k / 512] in n.mids.Values;
    }
    forall vpn: nat | vpn < VPN_LIMIT && vpn / 512 in n.lasts ensures LeafEntry(n, ram', table, vpn) {
      assert LeafEntry(n, ram, table, vpn);
      assert n.lasts[vpn / 512] in n.lasts.Values;
    }
  }

  function Updated(table: map<nat, nat>, vpn: nat, e: nat): map<nat, nat>
  {
    if e == 0 then table - {vpn} else table[vpn := e]
  }

  lemma SameSlot(vpn: nat, other: nat)
    ensures vpn / 512 == other / 512 && vpn % 512 == other % 512 <==> vpn == other
  {
  }

  /** Writing the entry of one page changes the map at that page only. */
  lemma WriteLeaf(n: Nodes, ram: seq<Frame>, table: map<nat, nat>, vpn: nat, e: nat)
    requires Tree(n, ram, table) && vpn < VPN_LIMIT && vpn / 512 in n.lasts
    requires e == 0 || (IsValid(e) && e < 0x1_0000_0000_0000_0000)
    ensures n.lasts[vpn / 512] < |ram|
    ensures var f := n.lasts[vpn / 512];
            Tree(n, ram[f := SetPte(ram[f], vpn % 512, e)], Updated(table, vpn, e))
  {
    hide Pte, SetPte, Injective, IsValid;
    assert LeafEntry(n, ram, table, vpn);
    var f := n.lasts[vpn / 512];
    assert f in n.lasts.Values;
    var ram', table' := ram[f := SetPte(ram[f], vpn % 512, e)], Updated(table, vpn, e);
    forall i: nat | i < 512 ensures RootEntry(n, ram', i) {
      assert RootEntry(n, ram, i);
    }
    forall k: nat | k < 262144 && k / 512 in n.mids ensures MidEntry(n, ram', k) {
      assert MidEntry(n, ram, k);
      assert n.mids[k / 512] in n.mids.Values;
    }
    forall w: nat | w < VPN_LIMIT && w / 512 in n.lasts ensures LeafEntry(n, ram', table', w) {
      LeafAfter(n, ram, table, vpn, e, w);
    }
  }

  lemma LeafAfter(n: Nodes, ram: seq<Frame>, table: map<nat, nat>, vpn: nat, e: nat, w: nat)
    requires Injective(n.lasts) && LeafEntry(n, ram, table, vpn) && LeafEntry(n, ram, table, w) && e < 0x1_0000_0000_0000_0000
    ensures var f := n.lasts[vpn / 512];
            LeafEntry(n, ram[f := SetPte(ram[f], vpn % 512, e)], Updated(table, vpn, e), w)
  {
    hide Pte, SetPte;
    SameSlot(vpn, w);
    PteSet(ram[n.lasts[vpn / 512]], vpn % 512, e, w % 512);
  }

  /** A cleared frame hooked into the root becomes an empty middle node. */
  lemma AddMid(n: Nodes, ram: seq<Frame>, table: map<nat, nat>, i: nat, f: nat)
    requires Tree(n, ram, table) && i < 512 && i !in n.mids && f < |ram| && f !in NodeFrames(n)
    ensures n.root < |ram| && n.root != f && f < PPN_LIMIT
    ensures var zeroed := ram[f := ZeroFrame()];
            Tree(n.(mids := n.mids[i := f]), zeroed[n.root := SetPte(ram[n.root], i, Entry(f, V))], table)
  {
    hide Pte, SetPte, Injective, IsValid, ZeroFrame;
    assert n.root in NodeFrames(n);
    var n', ram' := n.(mids := n.mids[i := f]), ram[f := ZeroFrame()][n.root := SetPte(ram[n.root], i, Entry(f, V))];
    AddMidShape(n, |ram|, i, f);
    forall j: nat | j < 512 ensures RootEntry(n', ram', j) {
      assert RootEntry(n, ram, j);
      PteSet(ram[n.root], i, Entry(f, V), j);
    }
    forall k: nat | k < 262144 && k / 512 in n'.mids ensures MidEntry(n', ram', k) {
      if k / 512 == i {
        PteZero(k % 512);
      } else {
        assert MidEntry(n, ram, k);
        assert n.mids[k / 512] in n.mids.Values;
      }
    }
    forall vpn: nat | vpn < VPN_LIMIT && vpn / 512 in n.lasts ensures LeafEntry(n', ram', table, vpn) {
      assert LeafEntry(n, ram, table, vpn);
      assert n.lasts[vpn / 512] in n.lasts.Values;
    }
  }

  lemma AddMidShape(n: Nodes, size: nat, i: nat, f: nat)
    requires Shape(n, size) && i < 512 && i !in n.mids && f < size && f !in NodeFrames(n)
    ensures Shape(n.(mids := n.mids[i := f]), size)
    ensures NodeFrames(n.(mids := n.mids[i := f])) == NodeFrames(n) + {f}
  {
    var mids := n.mids[i := f];
    assert mids.Values == n.mids.Values + {f} by {
      assert forall j | j in n.mids :: mids[j] == n.mids[j];
      assert mids[i] == f;
    }
    assert forall j | j in n.mids :: n.mids[j] in n.mids.Values;
  }

  /** A cleared frame hooked into a middle node becomes an empty last node. */
  lemma AddLast(n: Nodes, ram: seq<Frame>, table: map<nat, nat>, k: nat, f: nat)
    requires Tree(n, ram, table) && k < 262144 && k / 512 in n.mids && k !in n.lasts && f < |ram| && f !in NodeFrames(n)
    ensures n.mids[k / 512] < |ram| && n.mids[k / 512] != f && f < PPN_LIMIT
    ensures var zeroed, p := ram[f := ZeroFrame()], n.mids[k / 512];
            Tree(n.(lasts := n.lasts[k := f]), zeroed[p := SetPte(ram[p], k % 512, Entry(f, V))], table)
  {
    hide Pte, SetPte, Injective, IsValid, ZeroFrame;
    var p := n.mids[k / 512];
    assert p in n.mids.Values && p in NodeFrames(n);
    var n', ram' := n.(lasts := n.lasts[k := f]), ram[f := ZeroFrame()][p := SetPte(ram[p], k % 512, Entry(f, V))];
    AddLastShape(n, |ram|, k, f);
    forall j: nat | j < 512 ensures RootEntry(n', ram', j) {
      assert RootEntry(n, ram, j);
      assert n.root in NodeFrames(n);
    }
    forall j: nat | j < 262144 && j / 512 in n'.mids ensures MidEntry(n', ram', j) {
      assert MidEntry(n, ram, j);
      MidAfter(n, ram, k, f, j);
    }
    forall vpn: nat | vpn < VPN_LIMIT && vpn / 512 in n'.lasts ensures LeafEntry(n', ram', table, vpn) {
      if vpn / 512 == k {
        PteZero(vpn % 512);
      } else {
        assert LeafEntry(n, ram, table, vpn);
        assert n.lasts[vpn / 512] in n.lasts.Values;
      }
    }
  }

  lemma MidAfter(n: Nodes, ram: seq<Frame>, k: nat, f: nat, j: nat)
    requires k / 512 in n.mids && n.mids[k / 512] < |ram| <= PPN_LIMIT && f < |ram| && f !in n.mids.Values
    requires Injective(n.mids) && MidEntry(n, ram, j)
    ensures MidEntry(n.(lasts := n.lasts[k := f]),
                     ram[f := ZeroFrame()][n.mids[k / 512] := SetPte(ram[n.mids[k / 512]], k % 512, Entry(f, V))], j)
  {
    hide Pte, SetPte, ZeroFrame;
    SameSlot(k, j);
    assert n.mids[j / 512] in n.mids.Values;
    PteSet(ram[n.mids[k / 512]], k % 512, Entry(f, V), j % 512);
  }

  lemma AddLastShape(n: Nodes, size: nat, k: nat, f: nat)
    requires Shape(n, size) && k < 262144 && k / 512 in n.mids && k !in n.lasts && f < size && f !in NodeFrames(n)
    ensures Shape(n.(lasts := n.lasts[k := f]), size)
    ensures NodeFrames(n.(lasts := n.lasts[k := f])) == NodeFrames(n) + {f}
  {
    var lasts := n.lasts[k := f];
    assert lasts.Values == n.lasts.Values + {f} by {
      assert forall j | j in n.lasts :: lasts[j] == n.lasts[j];
      assert lasts[k] == f;
    }
    assert forall j | j in n.lasts :: n.lasts[j] in n.lasts.Values;
  }

  /** A cleared frame is a page table that maps nothing. */
  lemma EmptyTree(ram: seq<Frame>, root: nat)
    requires root < |ram| <= PPN_LIMIT && ram[root] == ZeroFrame()
    ensures Tree(Nodes(root, map[], map[]), ram, map[])
  {
    hide Pte, ZeroFrame;
    forall i: nat | i < 512 ensures RootEntry(Nodes(root, map[], map[]), ram, i) {
      PteZero(i);
    }
  }

  // How many frames a page table takes.

  /** The keys of the middle nodes above last nodes with these keys. */
  ghost function Above(lasts: set<nat>): set<nat>
  {
    set k | k in lasts :: k / 512
  }

  /** The number of nodes of a page table with these last nodes and no middle node without one below it. */
  ghost function Tables(lasts: set<nat>): (n: nat)
    ensures n >= 1
  {
    1 + |Above(lasts)| + |lasts|
  }

  /** How many nodes are missing for these last nodes. */
  ghost function NodesFor(lasts: set<nat>, more: set<nat>): int
  {
    Tables(lasts + more) - Tables(lasts)
  }

  /** The keys of the last nodes on the paths to these pages. */
  ghost function PageLasts(pages: set<nat>): set<nat>
  {
    set v | v in pages :: v / 512
  }

  ghost function LastsOf(start: nat, end: nat): set<nat>
  {
    PageLasts(Range(start, end))
  }

  lemma PageLastsWithin(pages: set<nat>, all: set<nat>)
    requires pages <= all
    ensures PageLasts(pages) <= PageLasts(all)
  {
  }

  lemma PageLastsMore(pages: set<nat>, more: set<nat>)
    ensures PageLasts(pages + more) == PageLasts(pages) + PageLasts(more)
  {
  }

  /** Every middle node has a last node below it. */
  ghost predicate Full(n: Nodes)
  {
    n.mids.Keys == Above(n.lasts.Keys)
  }

  lemma AboveMore(lasts: set<nat>, more: set<nat>)
    ensures Above(lasts + more) == Above(lasts) + Above(more)
  {
  }

  lemma AboveOne(k: nat)
    ensures Above({k}) == {k / 512}
  {
  }

  /** One more last node takes a frame, and its middle node another unless it is there. */
  lemma TablesMore(lasts: set<nat>, k: nat)
    ensures Tables(lasts + {k}) == Tables(lasts) + (if k in lasts then 0 else 1) + if k / 512 in Above(lasts) then 0 else 1
  {
    hide Above;
    AboveMore(lasts, {k});
    AboveOne(k);
    if k in lasts {
      assert lasts + {k} == lasts;
      InAbove(lasts, k);
    }
  }

  lemma InAbove(lasts: set<nat>, k: nat)
    requires k in lasts
    ensures k / 512 in Above(lasts)
  {
  }

  /** More pages take at least as many nodes. */
  lemma {:induction false} TablesMonotone(lasts: set<nat>, more: set<nat>)
    ensures Tables(lasts) <= Tables(lasts + more)
  {
    hide Above, Tables;
    if more != {} {
      var k :| k in more;
      TablesMonotone(lasts, more - {k});
      TablesMore(lasts + (more - {k}), k);
      assert lasts + more == lasts + (more - {k}) + {k};
    } else {
      assert lasts + more == lasts;
    }
  }

  lemma LastsNone(start: nat)
    ensures LastsOf(start, start) == {}
  {
  }

  lemma LastsMore(start: nat, k: nat)
    requires start <= k
    ensures LastsOf(start, k + 1) == LastsOf(start, k) + {k / 512}
  {
    assert Range(start, k + 1) == Range(start, k) + {k};
    PageLastsMore(Range(start, k), {k});
    assert PageLasts({k}) == {k / 512};
  }

  lemma {:induction false} ValuesCount(m: map<nat, nat>)
    requires Injective(m)
    ensures |m.Values| == |m.Keys| == |m|
    decreases |m|
  {
    if m == map[] {
      assert m.Values == {};
    } else {
      var k :| k in m;
      var r := m - {k};
      assert r.Keys == m.Keys - {k};
      ValuesCount(r);
      assert forall j | j in r :: r[j] == m[j] && m[j] != m[k];
      assert m[k] !in r.Values;
      assert m.Values == r.Values + {m[k]} by {
        forall x | x in m.Values ensures x in r.Values + {m[k]} {
          var j :| j in m && m[j] == x;
          assert j != k ==> j in r && r[j] == x;
        }
      }
    }
  }

  /** The nodes of a page table are as many frames as the count says. */
  lemma NodesCount(n: Nodes, size: nat)
    requires Shape(n, size) && Full(n)
    ensures |NodeFrames(n)| == Tables(n.lasts.Keys)
  {
    hide Injective, Above;
    ValuesCount(n.mids);
    ValuesCount(n.lasts);
  }

  // The hardware's walk.

  /**
   Section 4.3.2 of the RISC-V Privileged Architecture specification, without the permission and
   A/D checks of steps 5 and 7: the page number and flags that a virtual page translates to.
   */
  function HardwareWalk(ram: seq<Frame>, a: nat, vpn: nat, level: nat): Option<(nat, nat)>
    requires level < 3
    decreases 3 - level
  {
    if a >= |ram| then None
    else
      var e := Pte(ram[a], Index(vpn, level));
      if !IsValid(e) || (!Readable(e) && Writable(e)) then None
      else if Readable(e) || Executable(e) then Superpage(e, vpn, level)
      else if level == 2 then None
      else HardwareWalk(ram, EntryPpn(e), vpn, level + 1)
  }

  /** Step 6 and 8: a leaf above the last level maps a superpage, which must be aligned. */
  function Superpage(e: nat, vpn: nat, level: nat): Option<(nat, nat)>
    requires level < 3
  {
    var span := if level == 0 then 262144 else if level == 1 then 512 else 1;
    if EntryPpn(e) % span != 0 then None
    else Some((EntryPpn(e) + vpn % span, EntryFlags(e)))
  }

  /** Flags with which the hardware takes an entry as a leaf. */
  predicate LeafFlags(e: nat)
  {
    (Readable(e) || Executable(e)) && (Writable(e) ==> Readable(e))
  }

  lemma PointerEntry(f: nat)
    requires f < PPN_LIMIT
    ensures var e := Entry(f, V); IsValid(e) && !Readable(e) && !Writable(e) && !Executable(e) && EntryPpn(e) == f
  {
    EntryRoundTrip(f, V);
  }

  lemma NoEntry()
    ensures !IsValid(0)
  {
  }

  /** At the last level the walk reads the entry of the page. */
  lemma WalkLast(n: Nodes, ram: seq<Frame>, table: map<nat, nat>, vpn: nat)
    requires vpn < VPN_LIMIT && LeafEntry(n, ram, table, vpn) && (vpn in table ==> IsValid(table[vpn]))
    ensures HardwareWalk(ram, n.lasts[vpn / 512], vpn, 2)
         == if vpn in table && LeafFlags(table[vpn]) then Some((EntryPpn(table[vpn]), EntryFlags(table[vpn]))) else None
  {
    hide Pte, IsValid, Readable, Writable, Executable, EntryPpn, EntryFlags;
    Keys(vpn);
    NoEntry();
  }

  lemma WalkMid(n: Nodes, ram: seq<Frame>, vpn: nat)
    requires vpn < VPN_LIMIT && MidEntry(n, ram, vpn / 512)
    ensures HardwareWalk(ram, n.mids[vpn / 262144], vpn, 1)
         == if vpn / 512 in n.lasts then HardwareWalk(ram, n.lasts[vpn / 512], vpn, 2) else None
  {
    hide Pte, IsValid, Readable, Writable, Executable, EntryPpn, EntryFlags, Superpage;
    Keys(vpn);
    NoEntry();
    if vpn / 512 in n.lasts {
      PointerEntry(n.lasts[vpn / 512]);
    }
  }

  lemma WalkRoot(n: Nodes, ram: seq<Frame>, vpn: nat)
    requires vpn < VPN_LIMIT && RootEntry(n, ram, vpn / 262144)
    ensures HardwareWalk(ram, n.root, vpn, 0)
         == if vpn / 262144 in n.mids then HardwareWalk(ram, n.mids[vpn / 262144], vpn, 1) else None
  {
    hide Pte, IsValid, Readable, Writable, Executable, EntryPpn, EntryFlags, Superpage;
    Keys(vpn);
    NoEntry();
    if vpn / 262144 in n.mids {
      PointerEntry(n.mids[vpn / 262144]);
    }
  }

  /**
   The hardware translates a page exactly when it is mapped with flags that make a leaf; then to the
   page number and flags that were mapped. With other flags the software's `translate` still succeeds
   and the hardware faults.
   */
  lemma HardwareAgrees(n: Nodes, ram: seq<Frame>, table: map<nat, nat>, vpn: nat)
    requires Tree(n, ram, table) && vpn < VPN_LIMIT
    ensures HardwareWalk(ram, n.root, vpn, 0)
         == if vpn in table && LeafFlags(table[vpn]) then Some((EntryPpn(table[vpn]), EntryFlags(table[vpn]))) else None
  {
    hide HardwareWalk, RootEntry, MidEntry, LeafEntry, IsValid, LeafFlags, EntryPpn, EntryFlags, Injective;
    Keys(vpn);
    WalkRoot(n, ram, vpn);
    if vpn / 262144 in n.mids {
      WalkMid(n, ram, vpn);
    }
    if vpn / 512 in n.lasts {
      WalkLast(n, ram, table, vpn);
    }
  }

  /**
   What mapping a page means, in numbers: the entry is the page number from bit 10 on and the flags with V, in the
   eight bytes of its slot; and the hardware translates the page to exactly that, if it is readable, or executable
   and not writable.
   */
  lemma MappedMeans(n: Nodes, ram: seq<Frame>, table: map<nat, nat>, vpn: nat, ppn: nat, flags: nat)
    requires Tree(n, ram, table) && vpn < VPN_LIMIT && ppn < PPN_LIMIT && flags < 256 && vpn in table && table[vpn] == Entry(ppn, WithV(flags))
    ensures table[vpn] == 1024 * ppn + flags + (1 - flags % 2)
    ensures EntryPpn(table[vpn]) == ppn && EntryFlags(table[vpn]) == flags + (1 - flags % 2)
    ensures HardwareWalk(ram, n.root, vpn, 0)
         == if flags / 2 % 2 == 1 || (flags / 8 % 2 == 1 && flags / 4 % 2 == 0) then var withV: nat := flags + (1 - flags % 2); Some((ppn, withV)) else None
    ensures Slot(n, vpn).Some?
    ensures var (f, i) := Slot(n, vpn).value;
            && f < |ram| && i < 512
            && 1024 * ppn + flags + (1 - flags % 2)
               == ram[f][8 * i] as int + 0x100 * ram[f][8 * i + 1] as int + 0x1_0000 * ram[f][8 * i + 2] as int + 0x100_0000 * ram[f][8 * i + 3] as int
                  + 0x1_0000_0000 * ram[f][8 * i + 4] as int + 0x100_0000_0000 * ram[f][8 * i + 5] as int
                  + 0x1_0000_0000_0000 * ram[f][8 * i + 6] as int + 0x100_0000_0000_0000 * ram[f][8 * i + 7] as int
  {
    hide HardwareWalk, Shape, RootEntry, MidEntry, Get;
    EntryMeans(ppn, flags);
    HardwareAgrees(n, ram, table, vpn);
    assert LeafEntry(n, ram, table, vpn);
    GetBytes8(ram[n.lasts[vpn / 512]], 8 * (vpn % 512));
  }

  lemma EntryMeans(ppn: nat, flags: nat)
    requires ppn < PPN_LIMIT && flags < 256
    ensures var e := Entry(ppn, WithV(flags));
            && e == 1024 * ppn + flags + (1 - flags % 2) && EntryPpn(e) == ppn && EntryFlags(e) == flags + (1 - flags % 2)
            && (LeafFlags(e) <==> flags / 2 % 2 == 1 || (flags / 8 % 2 == 1 && flags / 4 % 2 == 0))
  {
    hide EntryPpn, EntryFlags, IsValid;
    EntryRoundTrip(ppn, WithV(flags));
    VKeepsOthers(flags);
  }

  /** V is another bit than R, W and X. */
  lemma VKeepsOthers(flags: nat)
    ensures var f := flags + (1 - flags % 2);
            f / 2 % 2 == flags / 2 % 2 && f / 4 % 2 == flags / 4 % 2 && f / 8 % 2 == flags / 8 % 2
  {
    var q, f := flags / 2, flags + (1 - flags % 2);
    assert flags == 2 * q + flags % 2;
    assert f == 2 * q + 1;
    Halves(f);
    Halves(flags);
  }

  lemma Halves(x: nat)
    ensures x / 4 == x / 2 / 2 && x / 8 == x / 2 / 2 / 2
  {
  }

  /** A page mapped as writable only: the software finds its valid entry, the hardware faults. */
  lemma WriteOnlyFaults(n: Nodes, ram: seq<Frame>, table: map<nat, nat>, vpn: nat, ppn: nat)
    requires Tree(n, ram, table) && vpn < VPN_LIMIT && ppn < PPN_LIMIT && vpn in table && table[vpn] == Entry(ppn, WithV(4))
    ensures Slot(n, vpn).Some? && var (f, i) := Slot(n, vpn).value; f < |ram| && i < 512 && Pte(ram[f], i) == table[vpn] && IsValid(table[vpn])
    ensures HardwareWalk(ram, n.root, vpn, 0) == None
  {
    hide Entry, EntryPpn, EntryFlags, HardwareWalk, Pte, Shape;
    HardwareAgrees(n, ram, table, vpn);
    EntryRoundTrip(ppn, WithV(4));
    assert LeafEntry(n, ram, table, vpn);
  }
}
