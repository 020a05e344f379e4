/**
 The block tree below an index block (easy-fs/src/layout.rs).

 An index block of height `h` holds 128 block numbers; its children have height `h - 1`, and a
 block of height 0 is a data block. `indirect1`, `indirect2` and `indirect3` are roots of height
 1, 2 and 3. The reference description is `Subtree`, the list of all blocks below a root in
 pre-order: growth appends to it, clearing returns it, and lookup indexes it.
 */
module IndexTree {
  import opened Seqs

  const FANOUT: nat := 128

  /** `table(b, i)` is entry `i` of index block `b`. */
  type Table = (nat, nat) -> nat

  /** Number of data blocks below a full index block of height `h`. */
  function Cap(h: nat): (c: nat)
    ensures c > 0
  {
    if h == 0 then 1 else FANOUT * Cap(h - 1)
  }

  /** Index of the last used entry, when `n > 0` data blocks are below a root of height `h`. */
  function Slot(h: nat, n: nat): nat
    requires h > 0 && n > 0
  {
    if n <= Cap(h - 1) then 0 else 1 + Slot(h, n - Cap(h - 1))
  }

  /** Number of data blocks below the last used entry. */
  function Rest(h: nat, n: nat): (r: nat)
    requires h > 0 && n > 0
    ensures 1 <= r <= n && r <= Cap(h - 1)
  {
    if n <= Cap(h - 1) then n else Rest(h, n - Cap(h - 1))
  }

  /** Number of data blocks below `k` full entries. */
  function Full(h: nat, k: nat): nat
    requires h > 0
  {
    if k == 0 then 0 else Full(h, k - 1) + Cap(h - 1)
  }

  /** The blocks strictly below `b`, in pre-order, when `n` data blocks are below it. */
  function Subtree(table: Table, b: nat, h: nat, n: nat): seq<nat>
    decreases h, n
  {
    if h == 0 || n == 0 then []
    else
      var r := Rest(h, n);
      var w := table(b, Slot(h, n));
      Subtree(table, b, h, n - r) + [w] + Subtree(table, w, h - 1, r)
  }

  /** Number of blocks strictly below an index block of height `h` that has `n` data blocks. */
  function SubtreeSize(h: nat, n: nat): nat
    decreases h, n
  {
    if h == 0 || n == 0 then 0
    else
      var r := Rest(h, n);
      SubtreeSize(h, n - r) + 1 + SubtreeSize(h - 1, r)
  }

  /** The index blocks strictly below `b`. */
  ghost function Inner(table: Table, b: nat, h: nat, n: nat): set<nat>
    decreases h, n
  {
    if h <= 1 || n == 0 then {}
    else
      var r := Rest(h, n);
      var w := table(b, Slot(h, n));
      Inner(table, b, h, n - r) + {w} + Inner(table, w, h - 1, r)
  }

  /** The `i`-th data block below `b`, found by walking down. */
  function Leaf(table: Table, b: nat, h: nat, i: nat): nat
    decreases h
  {
    if h == 0 then b
    else Leaf(table, table(b, Slot(h, i + 1)), h - 1, Rest(h, i + 1) - 1)
  }

  lemma {:induction false} SlotOf(h: nat, k: nat, r: nat)
    requires h > 0 && 1 <= r <= Cap(h - 1)
    ensures Slot(h, Full(h, k) + r) == k && Rest(h, Full(h, k) + r) == r
  {
    if k > 0 {
      SlotOf(h, k - 1, r);
    }
  }

  /** `n` data blocks fill `Slot` entries completely and `Rest` of the next. */
  lemma {:induction false} SlotRest(h: nat, n: nat)
    requires h > 0 && n > 0
    ensures n == Full(h, Slot(h, n)) + Rest(h, n)
  {
    if n > Cap(h - 1) {
      SlotRest(h, n - Cap(h - 1));
    }
  }

  lemma {:induction false} FullIsProduct(h: nat, k: nat)
    requires h > 0
    ensures Full(h, k) == k * Cap(h - 1)
  {
    if k > 0 {
      FullIsProduct(h, k - 1);
    }
  }

  lemma {:induction false} FullMonotone(h: nat, j: nat, k: nat)
    requires h > 0 && j <= k
    ensures Full(h, j) <= Full(h, k)
    ensures j < k ==> Full(h, j) + Cap(h - 1) <= Full(h, k)
  {
    if j < k {
      FullMonotone(h, j, k - 1);
    }
  }

  /** Within capacity the last used entry exists. */
  lemma SlotInBounds(h: nat, n: nat)
    requires h > 0 && 0 < n <= Cap(h)
    ensures Slot(h, n) < FANOUT
  {
    SlotRest(h, n);
    FullIsProduct(h, FANOUT);
    if Slot(h, n) >= FANOUT {
      FullMonotone(h, FANOUT, Slot(h, n));
    }
  }

  /** The defining step of `Subtree`, addressed by entry rather than by total. */
  lemma {:induction false} SubtreeStep(table: Table, b: nat, h: nat, k: nat, r: nat)
    requires h > 0 && 1 <= r <= Cap(h - 1)
    ensures Subtree(table, b, h, Full(h, k) + r)
         == Subtree(table, b, h, Full(h, k)) + [table(b, k)] + Subtree(table, table(b, k), h - 1, r)
    ensures SubtreeSize(h, Full(h, k) + r) == SubtreeSize(h, Full(h, k)) + 1 + SubtreeSize(h - 1, r)
    ensures Inner(table, b, h, Full(h, k) + r) ==
            if h == 1 then {}
            else Inner(table, b, h, Full(h, k)) + {table(b, k)} + Inner(table, table(b, k), h - 1, r)
  {
    SlotOf(h, k, r);
  }

  lemma {:induction false} SubtreeLength(table: Table, b: nat, h: nat, n: nat)
    ensures |Subtree(table, b, h, n)| == SubtreeSize(h, n)
    decreases h, n
  {
    if h > 0 && n > 0 {
      var r := Rest(h, n);
      SubtreeLength(table, b, h, n - r);
      SubtreeLength(table, table(b, Slot(h, n)), h - 1, r);
    }
  }

  lemma SameSlot(h: nat, m: nat, n: nat)
    requires h > 0 && 0 < n && n - Rest(h, n) < m <= n
    ensures Slot(h, m) == Slot(h, n) && m - Rest(h, m) == n - Rest(h, n)
  {
    SlotRest(h, n);
    SlotOf(h, Slot(h, n), m - (n - Rest(h, n)));
  }

  lemma ListUnfold(table: Table, b: nat, h: nat, n: nat)
    ensures if h == 0 || n == 0 then Subtree(table, b, h, n) == []
            else var r, w := Rest(h, n), table(b, Slot(h, n));
                 Subtree(table, b, h, n) == Subtree(table, b, h, n - r) + [w] + Subtree(table, w, h - 1, r)
  {
  }

  lemma {:induction false} PrefixInside(table: Table, b: nat, h: nat, m: nat, n: nat)
    requires h > 0 && n > 0 && n - Rest(h, n) < m <= n
    requires var w := table(b, Slot(h, n));
             Subtree(table, w, h - 1, m - (n - Rest(h, n))) <= Subtree(table, w, h - 1, Rest(h, n))
    ensures Subtree(table, b, h, m) <= Subtree(table, b, h, n)
  {
    hide Cap, Slot, Rest, Subtree;
    SameSlot(h, m, n);
    ListUnfold(table, b, h, m);
    ListUnfold(table, b, h, n);
  }

  /** Fewer data blocks give a prefix of the list. */
  lemma {:induction false} SubtreePrefix(table: Table, b: nat, h: nat, m: nat, n: nat)
    requires m <= n
    ensures Subtree(table, b, h, m) <= Subtree(table, b, h, n)
    decreases h, n
  {
    hide Cap, Slot, Rest, Subtree;
    if h == 0 || m == 0 {
      ListUnfold(table, b, h, m);
    } else if m < n {
      var r := Rest(h, n);
      if m <= n - r {
        SubtreePrefix(table, b, h, m, n - r);
        ListUnfold(table, b, h, n);
      } else {
        SubtreePrefix(table, table(b, Slot(h, n)), h - 1, m - (n - r), r);
        PrefixInside(table, b, h, m, n);
      }
    }
  }

  /** Growing from `i` to `i + 1` data blocks puts the `i`-th data block last in the list. */
  lemma {:induction false} SubtreeLast(table: Table, b: nat, h: nat, i: nat)
    requires h > 0
    ensures var s := Subtree(table, b, h, i + 1); |s| > 0 && s[|s| - 1] == Leaf(table, b, h, i)
    decreases h
  {
    if h > 1 {
      SubtreeLast(table, table(b, Slot(h, i + 1)), h - 1, Rest(h, i + 1) - 1);
    }
  }

  lemma SlotBefore(h: nat, n: nat)
    requires h > 0 && n > 0 && n > Rest(h, n)
    ensures Slot(h, n) > 0 && Slot(h, n - Rest(h, n)) == Slot(h, n) - 1
  {
    SlotRest(h, n);
    SlotOf(h, Slot(h, n) - 1, Cap(h - 1));
  }

  /** Every block of the tree rooted at `b`, the root included. */
  ghost function All(table: Table, b: nat, h: nat, n: nat): set<nat>
    decreases h, n
  {
    if h == 0 || n == 0 then {b}
    else All(table, b, h, n - Rest(h, n)) + All(table, table(b, Slot(h, n)), h - 1, Rest(h, n))
  }

  lemma {:induction false} AllIsSubtree(table: Table, b: nat, h: nat, n: nat)
    ensures forall x :: x in All(table, b, h, n) <==> x == b || x in Subtree(table, b, h, n)
    decreases h, n
  {
    if h > 0 && n > 0 {
      AllIsSubtree(table, b, h, n - Rest(h, n));
      AllIsSubtree(table, table(b, Slot(h, n)), h - 1, Rest(h, n));
    }
  }

  /** No block occurs twice, said along the tree instead of along the list. */
  ghost predicate Distinct(table: Table, b: nat, h: nat, n: nat)
    decreases h, n
  {
    h == 0 || n == 0 ||
    var r, w := Rest(h, n), table(b, Slot(h, n));
    && Distinct(table, b, h, n - r) && Distinct(table, w, h - 1, r)
    && All(table, b, h, n - r) !! All(table, w, h - 1, r)
  }

  lemma ApartSets(a0: set<nat>, s0: seq<nat>, a1: set<nat>, s1: seq<nat>)
    requires (forall x | x in a0 :: x in s0) && (forall x | x in a1 :: x in s1)
    requires forall x | x in s0 :: x !in s1
    ensures a0 !! a1
  {
  }

  lemma {:induction false} NoDupSplit(table: Table, b: nat, h: nat, n: nat)
    requires h > 0 && n > 0 && NoDup([b] + Subtree(table, b, h, n))
    ensures var r, w := Rest(h, n), table(b, Slot(h, n));
            && NoDup([b] + Subtree(table, b, h, n - r)) && NoDup([w] + Subtree(table, w, h - 1, r))
            && All(table, b, h, n - r) !! All(table, w, h - 1, r)
  {
    hide Rest, Slot, Cap, All;
    var r, w := Rest(h, n), table(b, Slot(h, n));
    var s0, s1 := [b] + Subtree(table, b, h, n - r), [w] + Subtree(table, w, h - 1, r);
    assert [b] + Subtree(table, b, h, n) == s0 + s1;
    NoDupParts(s0, s1);
    AllIsSubtree(table, b, h, n - r);
    AllIsSubtree(table, w, h - 1, r);
    ApartSets(All(table, b, h, n - r), s0, All(table, w, h - 1, r), s1);
  }

  lemma {:induction false} NoDupIsDistinct(table: Table, b: nat, h: nat, n: nat)
    requires NoDup([b] + Subtree(table, b, h, n))
    ensures Distinct(table, b, h, n)
    decreases h, n
  {
    if h > 0 && n > 0 {
      hide Rest, Slot, Cap, All, Subtree, NoDup;
      NoDupSplit(table, b, h, n);
      NoDupIsDistinct(table, b, h, n - Rest(h, n));
      NoDupIsDistinct(table, table(b, Slot(h, n)), h - 1, Rest(h, n));
    }
  }

  lemma {:induction false} InnerInAll(table: Table, b: nat, h: nat, n: nat)
    ensures Inner(table, b, h, n) <= All(table, b, h, n)
    ensures b in All(table, b, h, n)
    decreases h, n
  {
    if h > 0 && n > 0 {
      InnerInAll(table, b, h, n - Rest(h, n));
      InnerInAll(table, table(b, Slot(h, n)), h - 1, Rest(h, n));
    }
  }

  /** The walk to a leaf below the last entry starts at that entry. */
  lemma LeafInside(table: Table, b: nat, h: nat, i: nat, n: nat)
    requires h > 0 && i < n && n - Rest(h, n) <= i
    ensures Leaf(table, b, h, i) == Leaf(table, table(b, Slot(h, n)), h - 1, i - (n - Rest(h, n)))
  {
    SameSlot(h, i + 1, n);
  }

  lemma {:induction false} LeafInAll(table: Table, b: nat, h: nat, n: nat, i: nat)
    requires i < n
    ensures Leaf(table, b, h, i) in All(table, b, h, n)
    decreases h, n
  {
    if h > 0 {
      hide Rest, Slot, Cap, Leaf;
      var r := Rest(h, n);
      if i < n - r {
        LeafInAll(table, b, h, n - r, i);
      } else {
        LeafInAll(table, table(b, Slot(h, n)), h - 1, r, i - (n - r));
        LeafInside(table, b, h, i, n);
      }
    } else {
      assert Leaf(table, b, h, i) == b;
    }
  }

  lemma {:induction false} DistinctSplit(table: Table, b: nat, h: nat, n: nat)
    requires h > 0 && n > 0 && Distinct(table, b, h, n)
    ensures var r, w := Rest(h, n), table(b, Slot(h, n));
            && Distinct(table, b, h, n - r) && Distinct(table, w, h - 1, r)
            && All(table, b, h, n - r) !! All(table, w, h - 1, r)
            && Inner(table, b, h, n) <= Inner(table, b, h, n - r) + (if h > 1 then {w} else {}) + Inner(table, w, h - 1, r)
  {
    hide Rest, Slot, Cap, All;
  }

  lemma InnerOfData(table: Table, b: nat, n: nat)
    ensures Inner(table, b, 0, n) == {}
  {
  }

  /** Leaves are never index blocks, when no block occurs twice. */
  lemma {:induction false} LeafNotInner(table: Table, b: nat, h: nat, n: nat, i: nat)
    requires i < n && Distinct(table, b, h, n)
    ensures Leaf(table, b, h, i) !in Inner(table, b, h, n)
    ensures h > 0 ==> Leaf(table, b, h, i) != b
    decreases h, n
  {
    hide Rest, Slot, Cap, Leaf, All, Inner, Distinct;
    InnerOfData(table, b, n);
    if h > 0 {
      var r, w := Rest(h, n), table(b, Slot(h, n));
      DistinctSplit(table, b, h, n);
      InnerInAll(table, b, h, n - r);
      InnerInAll(table, w, h - 1, r);
      if i < n - r {
        LeafNotInner(table, b, h, n - r, i);
        LeafInAll(table, b, h, n - r, i);
      } else {
        LeafNotInner(table, w, h - 1, r, i - (n - r));
        LeafInAll(table, w, h - 1, r, i - (n - r));
        LeafInside(table, b, h, i, n);
      }
    }
  }

  /** The list depends only on the used entries of the root and on the index blocks below it. */
  lemma {:induction false} SubtreeFrame(table: Table, table': Table, b: nat, h: nat, n: nat)
    requires h > 0 && n > 0 ==> forall j | 0 <= j <= Slot(h, n) :: table'(b, j) == table(b, j)
    requires forall x, j | x in Inner(table, b, h, n) && 0 <= j < FANOUT :: table'(x, j) == table(x, j)
    ensures Subtree(table', b, h, n) == Subtree(table, b, h, n)
    ensures Inner(table', b, h, n) == Inner(table, b, h, n)
    ensures All(table', b, h, n) == All(table, b, h, n)
    ensures Distinct(table', b, h, n) == Distinct(table, b, h, n)
    decreases h, n
  {
    hide Rest, Slot, Cap, Full, Subtree, All, Inner, Distinct;
    Unfold(table, b, h, n);
    Unfold(table', b, h, n);
    if h > 0 && n > 0 {
      var r, w := Rest(h, n), table(b, Slot(h, n));
      if n - r > 0 {
        SlotBefore(h, n);
      }
      SubtreeFrame(table, table', b, h, n - r);
      if h > 1 {
        SlotInBounds(h - 1, r);
        SubtreeFrame(table, table', w, h - 1, r);
      } else {
        Unfold(table, w, 0, r);
        Unfold(table', w, 0, r);
      }
    }
  }

  lemma {:induction false} Unfold(table: Table, b: nat, h: nat, n: nat)
    ensures if h == 0 || n == 0 then
              Subtree(table, b, h, n) == [] && All(table, b, h, n) == {b} && Inner(table, b, h, n) == {} && Distinct(table, b, h, n)
            else
              var r, w := Rest(h, n), table(b, Slot(h, n));
              && Subtree(table, b, h, n) == Subtree(table, b, h, n - r) + [w] + Subtree(table, w, h - 1, r)
              && All(table, b, h, n) == All(table, b, h, n - r) + All(table, w, h - 1, r)
              && Inner(table, b, h, n) == (if h == 1 then {} else Inner(table, b, h, n - r) + {w} + Inner(table, w, h - 1, r))
              && Distinct(table, b, h, n) == (Distinct(table, b, h, n - r) && Distinct(table, w, h - 1, r)
                                              && All(table, b, h, n - r) !! All(table, w, h - 1, r))
              && (h == 1 ==> Inner(table, b, h, n - r) == {})
  {
    hide Rest, Slot, Cap;
  }

  // Steps addressed by entry, for the set descriptions.

  lemma {:induction false} SetStep(table: Table, b: nat, h: nat, k: nat, r: nat)
    requires h > 0 && 1 <= r <= Cap(h - 1)
    ensures var w, m := table(b, k), Full(h, k);
            && All(table, b, h, m + r) == All(table, b, h, m) + All(table, w, h - 1, r)
            && Inner(table, b, h, m + r) == (if h == 1 then {} else Inner(table, b, h, m) + {w} + Inner(table, w, h - 1, r))
            && (Distinct(table, b, h, m + r) <==>
                && Distinct(table, b, h, m) && Distinct(table, w, h - 1, r)
                && All(table, b, h, m) !! All(table, w, h - 1, r))
  {
    SlotOf(h, k, r);
  }

  /** Fewer data blocks: a part of the same blocks, still distinct. */
  lemma {:induction false} SetPrefix(table: Table, b: nat, h: nat, m: nat, n: nat)
    requires m <= n
    ensures All(table, b, h, m) <= All(table, b, h, n)
    ensures Inner(table, b, h, m) <= Inner(table, b, h, n)
    ensures Distinct(table, b, h, n) ==> Distinct(table, b, h, m)
    decreases h, n
  {
    hide Rest, Slot, Cap, Full, All, Inner, Distinct;
    RootInAll(table, b, h, m);
    RootInAll(table, b, h, n);
    if h > 0 && 0 < m < n {
      var r, k := Rest(h, n), Slot(h, n);
      SlotRest(h, n);
      if m <= n - r {
        SetPrefix(table, b, h, m, n - r);
        SetBelow(table, b, h, m, n);
      } else {
        SetPrefix(table, table(b, k), h - 1, m - (n - r), r);
        SetStep(table, b, h, k, m - (n - r));
        SetStep(table, b, h, k, r);
      }
    }
  }

  lemma {:induction false} RootInAll(table: Table, b: nat, h: nat, n: nat)
    ensures b in All(table, b, h, n)
    ensures h == 0 || n == 0 ==> All(table, b, h, n) == {b} && Inner(table, b, h, n) == {} && Distinct(table, b, h, n)
  {
    InnerInAll(table, b, h, n);
  }

  lemma {:induction false} SetBelow(table: Table, b: nat, h: nat, m: nat, n: nat)
    requires h > 0 && n > 0
    requires All(table, b, h, m) <= All(table, b, h, n - Rest(h, n))
    requires Inner(table, b, h, m) <= Inner(table, b, h, n - Rest(h, n))
    requires Distinct(table, b, h, n - Rest(h, n)) ==> Distinct(table, b, h, m)
    ensures All(table, b, h, m) <= All(table, b, h, n)
    ensures Inner(table, b, h, m) <= Inner(table, b, h, n)
    ensures Distinct(table, b, h, n) ==> Distinct(table, b, h, m)
  {
    hide Rest, Slot, Cap, All, Inner, Distinct;
    Unfold(table, b, h, n);
  }

  /**
   One step of growth, seen from the root: entry `k` had `r0` data blocks below it (none if it was
   not yet used) and now has `r1`; nothing under earlier entries changed.
   */
  lemma Extend(t: Table, t': Table, b: nat, h: nat, k: nat, r0: nat, r1: nat, ext: seq<nat>)
    requires h > 0 && r0 <= r1 <= Cap(h - 1) && r1 > 0
    requires forall j | 0 <= j < k :: t'(b, j) == t(b, j)
    requires r0 > 0 ==> t'(b, k) == t(b, k)
    requires forall x, j | x in Inner(t, b, h, Full(h, k)) && 0 <= j < FANOUT :: t'(x, j) == t(x, j)
    requires Subtree(t', t'(b, k), h - 1, r1) == Subtree(t, t'(b, k), h - 1, r0) + ext
    ensures Subtree(t', b, h, Full(h, k) + r1)
         == Subtree(t, b, h, Full(h, k) + r0) + (if r0 == 0 then [t'(b, k)] else []) + ext
    ensures Subtree(t', b, h, Full(h, k)) == Subtree(t, b, h, Full(h, k))
    ensures Inner(t', b, h, Full(h, k)) == Inner(t, b, h, Full(h, k))
    ensures All(t', b, h, Full(h, k)) == All(t, b, h, Full(h, k))
    ensures Distinct(t', b, h, Full(h, k)) == Distinct(t, b, h, Full(h, k))
  {
    hide Rest, Slot, Cap, Full, Subtree, All, Inner, Distinct;
    FullSlot(h, k);
    SubtreeFrame(t, t', b, h, Full(h, k));
    SubtreeStep(t', b, h, k, r1);
    Unfold(t, t'(b, k), h - 1, 0);
    if r0 > 0 {
      SubtreeStep(t, b, h, k, r0);
    }
  }

  /** The root is not below itself. */
  lemma {:induction false} RootNotInner(table: Table, b: nat, h: nat, n: nat)
    requires Distinct(table, b, h, n)
    ensures b !in Inner(table, b, h, n)
    decreases h, n
  {
    hide Rest, Slot, Cap, All, Inner, Distinct;
    Unfold(table, b, h, n);
    if h > 1 && n > 0 {
      var r, w := Rest(h, n), table(b, Slot(h, n));
      RootNotInner(table, b, h, n - r);
      RootInAll(table, b, h, n - r);
      InnerInAll(table, w, h - 1, r);
    }
  }

  /** What the blocks below entry `k` are after growth under it: the old ones and the new ones. */
  lemma GrownBlocks(t: Table, t': Table, w: nat, h: nat, r0: nat, r1: nat, ext: seq<nat>)
    requires Subtree(t', w, h, r1) == Subtree(t, w, h, r0) + ext
    ensures forall x | x in All(t', w, h, r1) :: x in All(t, w, h, r0) || x in ext
  {
    hide All, Subtree;
    AllIsSubtree(t, w, h, r0);
    AllIsSubtree(t', w, h, r1);
  }

  /** Growth under entry `k` as it reaches the root, for all descriptions of the tree at once. */
  lemma GrowChild(t: Table, t': Table, b: nat, h: nat, k: nat, r0: nat, r1: nat, ext: seq<nat>)
    requires h > 0 && r0 <= r1 <= Cap(h - 1) && r1 > 0
    requires Distinct(t, b, h, Full(h, k) + r0)
    requires forall j | 0 <= j < k :: t'(b, j) == t(b, j)
    requires r0 > 0 ==> t'(b, k) == t(b, k)
    requires r0 == 0 ==> t'(b, k) !in All(t, b, h, Full(h, k))
    requires forall x | x in ext :: x !in All(t, b, h, Full(h, k) + r0)
    requires Subtree(t', t'(b, k), h - 1, r1) == Subtree(t, t'(b, k), h - 1, r0) + ext
    requires Distinct(t', t'(b, k), h - 1, r1)
    requires Inner(t, t'(b, k), h - 1, r0) <= Inner(t', t'(b, k), h - 1, r1)
    requires forall x, j | x != b && x != t'(b, k) && x !in Inner(t', t'(b, k), h - 1, r1) && 0 <= j < FANOUT ::
               t'(x, j) == t(x, j)
    ensures Subtree(t', b, h, Full(h, k) + r1)
         == Subtree(t, b, h, Full(h, k) + r0) + (if r0 == 0 then [t'(b, k)] else []) + ext
    ensures Distinct(t', b, h, Full(h, k) + r1)
    ensures Inner(t, b, h, Full(h, k) + r0) <= Inner(t', b, h, Full(h, k) + r1)
    ensures h > 1 ==> t'(b, k) in Inner(t', b, h, Full(h, k) + r1)
    ensures Inner(t', t'(b, k), h - 1, r1) <= Inner(t', b, h, Full(h, k) + r1)
  {
    hide Rest, Slot, Cap, Full, Subtree, All, Inner, Distinct;
    var w, m := t'(b, k), Full(h, k);
    UnderEntry(t, t', b, h, k, r0, r1, ext);
    Extend(t, t', b, h, k, r0, r1, ext);
    SetStep(t', b, h, k, r1);
    Unfold(t, b, h, m);
    Unfold(t, w, h - 1, 0);
    InnerOfData(t', w, r1);
    if r0 > 0 {
      SetStep(t, b, h, k, r0);
    }
  }

  /** The blocks that changed under entry `k` are none of those under earlier entries. */
  lemma UnderEntry(t: Table, t': Table, b: nat, h: nat, k: nat, r0: nat, r1: nat, ext: seq<nat>)
    requires h > 0 && r0 <= r1 <= Cap(h - 1) && r1 > 0
    requires Distinct(t, b, h, Full(h, k) + r0)
    requires r0 > 0 ==> t'(b, k) == t(b, k)
    requires r0 == 0 ==> t'(b, k) !in All(t, b, h, Full(h, k))
    requires forall x | x in ext :: x !in All(t, b, h, Full(h, k) + r0)
    requires Subtree(t', t'(b, k), h - 1, r1) == Subtree(t, t'(b, k), h - 1, r0) + ext
    ensures Distinct(t, b, h, Full(h, k))
    ensures All(t, b, h, Full(h, k)) !! All(t', t'(b, k), h - 1, r1)
    ensures b !in Inner(t, b, h, Full(h, k)) && Inner(t, b, h, Full(h, k)) <= All(t, b, h, Full(h, k))
    ensures t'(b, k) in All(t', t'(b, k), h - 1, r1)
    ensures Inner(t', t'(b, k), h - 1, r1) <= All(t', t'(b, k), h - 1, r1)
  {
    hide Rest, Slot, Cap, Full, Subtree, All, Inner, Distinct;
    var w, m := t'(b, k), Full(h, k);
    GrownBlocks(t, t', w, h - 1, r0, r1, ext);
    InnerInAll(t', w, h - 1, r1);
    InnerInAll(t, b, h, m);
    if r0 > 0 {
      SetStep(t, b, h, k, r0);
    } else {
      Unfold(t, w, h - 1, 0);
    }
    RootNotInner(t, b, h, m);
  }

  lemma FullSlot(h: nat, k: nat)
    requires h > 0
    ensures Full(h, k) > 0 ==> k > 0 && Slot(h, Full(h, k)) == k - 1
  {
    if k > 0 {
      SlotOf(h, k - 1, Cap(h - 1));
    }
  }

  /** Each further data block needs at least one more block. */
  lemma {:induction false} SubtreeSizeStep(h: nat, i: nat)
    requires h > 0
    ensures SubtreeSize(h, i) < SubtreeSize(h, i + 1)
    decreases h
  {
    hide Cap, Slot, Rest, Full, SubtreeSize;
    var k, r := Slot(h, i + 1), Rest(h, i + 1);
    SlotRest(h, i + 1);
    SizeUnfold(h, k, r);
    if r > 1 {
      Caps();
      SizeUnfold(h, k, r - 1);
      SubtreeSizeStep(h - 1, r - 1);
    }
  }

  lemma SizeUnfold(h: nat, k: nat, r: nat)
    requires h > 0 && 1 <= r <= Cap(h - 1)
    ensures SubtreeSize(h, Full(h, k) + r) == SubtreeSize(h, Full(h, k)) + 1 + SubtreeSize(h - 1, r)
  {
    hide Cap, Slot, Rest, Full;
    SlotOf(h, k, r);
  }

  // The closed forms used by `total_blocks` and `get_block_id`.

  function CeilDiv(n: nat, d: nat): nat
    requires d > 0
  {
    (n + d - 1) / d
  }

  lemma Caps()
    ensures Cap(0) == 1 && Cap(1) == 128 && Cap(2) == 16384 && Cap(3) == 2097152
  {
    assert Cap(1) == 128 * Cap(0);
    assert Cap(2) == 128 * Cap(1);
    assert Cap(3) == 128 * Cap(2);
  }

  lemma {:induction false} SubtreeSize1(n: nat)
    ensures SubtreeSize(1, n) == n
  {
    if n > 0 {
      Caps();
      SubtreeSize1(n - 1);
    }
  }

  lemma {:induction false} SlotDiv2(n: nat)
    requires n > 0
    ensures Slot(2, n) == (n - 1) / 128 && Rest(2, n) == (n - 1) % 128 + 1
  {
    Caps();
    if n > 128 {
      SlotDiv2(n - 128);
    }
  }

  lemma {:induction false} SlotDiv3(n: nat)
    requires n > 0
    ensures Slot(3, n) == (n - 1) / 16384 && Rest(3, n) == (n - 1) % 16384 + 1
  {
    Caps();
    if n > 16384 {
      SlotDiv3(n - 16384);
    }
  }

  lemma SizeOfRest(h: nat, n: nat)
    requires h > 0 && n > 0
    ensures SubtreeSize(h, n) == SubtreeSize(h, n - Rest(h, n)) + 1 + SubtreeSize(h - 1, Rest(h, n))
  {
  }

  lemma SizeOfNone(h: nat)
    ensures SubtreeSize(h, 0) == 0
  {
  }

  lemma CeilStep(n: nat, r: nat)
    requires n > 0 && r == (n - 1) % 128 + 1
    ensures CeilDiv(n, 128) == CeilDiv(n - r, 128) + 1
  {
    var q := (n - 1) / 128;
    assert n - r == 128 * q;
  }

  lemma {:induction false} SubtreeSize2(n: nat)
    ensures SubtreeSize(2, n) == n + CeilDiv(n, 128)
  {
    hide SubtreeSize, Rest, Slot, Cap;
    SizeOfNone(2);
    if n > 0 {
      var r := Rest(2, n);
      SlotDiv2(n);
      SizeOfRest(2, n);
      SubtreeSize2(n - r);
      SubtreeSize1(r);
      CeilStep(n, r);
    }
  }

  lemma CeilSum(n: nat, r: nat)
    requires n > 0 && r == (n - 1) % 16384 + 1
    ensures CeilDiv(n, 128) == CeilDiv(n - r, 128) + CeilDiv(r, 128)
    ensures CeilDiv(n, 16384) == CeilDiv(n - r, 16384) + 1
  {
    var q := (n - 1) / 16384;
    assert n - r == 16384 * q;
    assert CeilDiv(16384 * q + r, 128) == 128 * q + CeilDiv(r, 128);
  }

  lemma {:induction false} SubtreeSize3(n: nat)
    ensures SubtreeSize(3, n) == n + CeilDiv(n, 128) + CeilDiv(n, 16384)
  {
    hide SubtreeSize, Rest, Slot, Cap;
    SizeOfNone(3);
    if n > 0 {
      var r := Rest(3, n);
      SlotDiv3(n);
      SizeOfRest(3, n);
      SubtreeSize3(n - r);
      SubtreeSize2(r);
      CeilSum(n, r);
    }
  }
}
