/**
 The loops that fill and collect the entries of `indirect1` and of the tree under `indirect2`
 (easy-fs/src/layout.rs:222-266 and 392-438).
 */
module TreeFill {
  import opened Seqs
  import opened BlockCaches
  import opened IndexTree
  import opened TreeBuild

  /** Two growth steps are one growth step with the lists of new blocks appended. */
  lemma GrownTrans(d0: seq<Block>, d1: seq<Block>, d2: seq<Block>, vec: seq<nat>, p0: nat, p1: nat, p2: nat,
                   b: nat, h: nat, m: nat, n: nat, k: nat)
    requires Grown(d0, d1, vec, p0, p1, b, h, m, n) && Grown(d1, d2, vec, p1, p2, b, h, n, k)
    ensures Grown(d0, d2, vec, p0, p2, b, h, m, k)
  {
    hide Subtree, Inner, Distinct, Words, SubtreeSize;
    assert vec[p0..p2] == vec[p0..p1] + vec[p1..p2];
    assert forall x: nat | x < |d0| && (x != b || h == 0) && x !in Inner(Words(d2), b, h, k) :: d2[x] == d1[x];
  }

  /** Writing a data block number into a level-1 index block is one growth step of height 1. */
  lemma LeafStep(d: seq<Block>, pins: set<nat>, vec: seq<nat>, pos: nat, b: nat, k: nat)
    requires k < FANOUT && Buildable(d, pins, vec, pos, b, 1, k, k + 1)
    ensures pos < |vec| && b < |d|
    ensures Grown(d, d[b := SetEntry(d[b], k, vec[pos])], vec, pos, pos + 1, b, 1, k, k + 1)
  {
    hide Subtree, All, Inner, Distinct, Words, SetEntry, NoDup, SubtreeSize, Cap, Full, Grown, Buildable, Fresh;
    Caps();
    FullOne(k);
    BuildableRoot(d, pins, vec, pos, b, 1, k, k + 1);
    ReadyNew(d, d, pins, vec, pos, pos, b, 1, k, k, k + 1, 1);
    var d1 := d[b := SetEntry(d[b], k, vec[pos])];
    DataGrown(d1, vec, pos + 1, vec[pos]);
    GrowNew(d, d, d1, vec, pos, pos, pos + 1, b, 1, k, k, 1);
  }

  lemma DataGrown(d: seq<Block>, vec: seq<nat>, pos: nat, w: nat)
    requires pos <= |vec|
    ensures Grown(d, d, vec, pos, pos, w, 0, 0, 1)
  {
    assert vec[pos..pos] == [];
  }

  lemma {:induction false} FullOne(k: nat)
    ensures Full(1, k) == k
  {
    FullIsProduct(1, k);
    Caps();
  }

  /** After part of the growth, the rest can still be done. */
  lemma StillBuildable(d0: seq<Block>, d: seq<Block>, pins: set<nat>, vec: seq<nat>, start: nat, pos: nat,
                       b: nat, h: nat, m: nat, e: nat, n: nat)
    requires Buildable(d0, pins, vec, start, b, h, m, n) && Grown(d0, d, vec, start, pos, b, h, m, e) && e <= n
    ensures Buildable(d, pins, vec, pos, b, h, e, n)
  {
    hide Subtree, All, Inner, Distinct, Words, SubtreeSize, NoDup;
    GrownBlocks(Words(d0), Words(d), b, h, m, e, vec[start..pos]);
    assert forall x | x in vec[start..pos] :: x in vec[start..];
    FreshRest(d, vec, start, pos, All(Words(d0), b, h, m) + pins, All(Words(d), b, h, e) + pins);
  }

  lemma BuildableLess(d: seq<Block>, pins: set<nat>, vec: seq<nat>, pos: nat, b: nat, h: nat, m: nat, n: nat, n': nat)
    requires Buildable(d, pins, vec, pos, b, h, m, n) && n' <= n
    ensures Buildable(d, pins, vec, pos, b, h, m, n')
  {
    hide All, Distinct, Words, SubtreeSize, NoDup;
    SizeMonotone(h, n', n);
  }

  /** Fill the entries of a level-1 index block from `cur` towards `tot`. */
  method FillIndirect1(cache: BlockCacheManager, b: nat, vec: seq<nat>, pos: nat, cur: nat, tot: nat)
    returns (pos': nat, i: nat)
    requires cache.Valid() && |cache.pins| + 1 <= cache.budget && cur <= tot
    requires Buildable(cache.disk, cache.pins, vec, pos, b, 1, Min(cur, FANOUT), Min(tot, FANOUT))
    modifies cache
    ensures cache.Valid() && cache.pins == old(cache.pins)
    ensures i == Max(cur, Min(tot, FANOUT))
    ensures Grown(old(cache.disk), cache.disk, vec, pos, pos', b, 1, Min(cur, FANOUT), Min(tot, FANOUT))
  {
    hide Grown, Buildable, SetEntry, BlockCacheManager.Valid;
    ghost var d0, pins0, m, n := cache.disk, cache.pins, Min(cur, FANOUT), Min(tot, FANOUT);
    BuildableRoot(d0, pins0, vec, pos, b, 1, m, n);
    pos' := pos;
    cache.Lock(b);
    i := cur;
    while i < Min(tot, FANOUT)
      invariant cur <= i <= Max(cur, n) && cache.Valid() && cache.pins == pins0 + {b}
      invariant Grown(d0, cache.disk, vec, pos, pos', b, 1, m, Min(i, FANOUT))
    {
      ghost var d := cache.disk;
      StillBuildable(d0, d, pins0, vec, pos, pos', b, 1, m, i, n);
      BuildableLess(d, pins0, vec, pos', b, 1, i, n, i + 1);
      LeafStep(d, pins0, vec, pos', b, i);
      var bytes := cache.Read(b);
      cache.Modify(b, SetEntry(bytes, i, vec[pos']));
      pos' := pos' + 1;
      GrownTrans(d0, d, cache.disk, vec, pos, pos' - 1, pos', b, 1, m, i, i + 1);
      i := i + 1;
    }
    cache.Unlock(b);
  }

  lemma BuildableRoot(d: seq<Block>, pins: set<nat>, vec: seq<nat>, pos: nat, b: nat, h: nat, m: nat, n: nat)
    requires Buildable(d, pins, vec, pos, b, h, m, n)
    ensures b < |d| && b !in pins && Grown(d, d, vec, pos, pos, b, h, m, m)
  {
    hide Subtree, All, Inner, Distinct, Words, SubtreeSize, NoDup;
    RootInAll(Words(d), b, h, m);
    GrownNot(d, vec, pos, b, h, m);
  }

  lemma FullTwo(a: nat)
    ensures Full(2, a) == 128 * a && Cap(1) == 128
  {
    FullIsProduct(2, a);
    Caps();
  }

  /** One more data block in an existing level-1 block under `indirect2`. */
  lemma OldEntryStep(d: seq<Block>, pins: set<nat>, vec: seq<nat>, pos: nat, b: nat, a: nat, c: nat)
    requires a < FANOUT && 0 < c < FANOUT && Buildable(d, pins, vec, pos, b, 2, 128 * a + c, 128 * a + c + 1)
    ensures var w := Words(d)(b, a);
            && b < |d| && w < |d| && w != b && w !in pins && pos < |vec|
            && Grown(d, d[w := SetEntry(d[w], c, vec[pos])], vec, pos, pos + 1, b, 2, 128 * a + c, 128 * a + c + 1)
  {
    hide Subtree, All, Inner, Distinct, Words, SetEntry, NoDup, SubtreeSize, Cap, Full, Grown, Buildable, Fresh;
    FullTwo(a);
    var w := Words(d)(b, a);
    BuildableRoot(d, pins, vec, pos, b, 2, 128 * a + c, 128 * a + c + 1);
    ReadyExisting(d, pins, vec, pos, b, 2, a, 128 * a + c, 128 * a + c + 1, c, c + 1);
    BuildableRoot(d, pins + {b}, vec, pos, w, 1, c, c + 1);
    LeafStep(d, pins + {b}, vec, pos, w, c);
    GrowExisting(d, d[w := SetEntry(d[w], c, vec[pos])], vec, pos, pos + 1, b, 2, a, c, c + 1);
  }

  /** A new level-1 block under `indirect2`, with its first data block. */
  lemma NewEntryStep(d: seq<Block>, pins: set<nat>, vec: seq<nat>, pos: nat, b: nat, a: nat)
    requires a < FANOUT && Buildable(d, pins, vec, pos, b, 2, 128 * a, 128 * a + 1)
    ensures b < |d| && pos + 1 < |vec| && vec[pos] < U32 && vec[pos] < |d| && vec[pos] != b && vec[pos] !in pins
    ensures var w := vec[pos];
            var d1 := d[b := SetEntry(d[b], a, w)];
            Grown(d, d1[w := SetEntry(d1[w], 0, vec[pos + 1])], vec, pos, pos + 2, b, 2, 128 * a, 128 * a + 1)
  {
    hide Subtree, All, Inner, Distinct, Words, SetEntry, NoDup, SubtreeSize, Cap, Full, Grown, Buildable, Fresh;
    FullTwo(a);
    BuildableRoot(d, pins, vec, pos, b, 2, 128 * a, 128 * a + 1);
    ReadyNew(d, d, pins, vec, pos, pos, b, 2, a, 128 * a, 128 * a + 1, 1);
    var w := vec[pos];
    var d1 := d[b := SetEntry(d[b], a, w)];
    BuildableRoot(d1, pins + {b}, vec, pos + 1, w, 1, 0, 1);
    LeafStep(d1, pins + {b}, vec, pos + 1, w, 0);
    GrowNew(d, d, d1[w := SetEntry(d1[w], 0, vec[pos + 1])], vec, pos, pos, pos + 2, b, 2, a, 128 * a, 1);
  }

  const INODE_INDIRECT2_COUNT: nat := FANOUT * FANOUT

  /** One round of the loop: data block `b0` of entry `a0`, and the entry itself when it is new. */
  method FillOne(cache: BlockCacheManager, b: nat, vec: seq<nat>, pos: nat, a0: nat, b0: nat, ghost pins: set<nat>) returns (pos': nat)
    requires cache.Valid() && cache.pins == pins + {b} && b !in pins && |pins| + 2 <= cache.budget && a0 < FANOUT && b0 < FANOUT
    requires Buildable(cache.disk, pins, vec, pos, b, 2, 128 * a0 + b0, 128 * a0 + b0 + 1)
    modifies cache
    ensures cache.Valid() && cache.pins == pins + {b}
    ensures Grown(old(cache.disk), cache.disk, vec, pos, pos', b, 2, 128 * a0 + b0, 128 * a0 + b0 + 1)
  {
    hide Grown, Buildable, SetEntry, Entry, Words, BlockCacheManager.Valid;
    ghost var d := cache.disk;
    pos' := pos;
    if b0 == 0 {
      NewEntryStep(d, pins, vec, pos', b, a0);
      WordsSet(d, b, a0, vec[pos']);
      var bytes := cache.Read(b);
      cache.Modify(b, SetEntry(bytes, a0, vec[pos']));
      pos' := pos' + 1;
    } else {
      OldEntryStep(d, pins, vec, pos', b, a0, b0);
    }
    var top := cache.Read(b);
    EntryAt(cache.disk, b, a0);
    var w := Entry(top, a0);
    cache.Lock(w);
    var bytes := cache.Read(w);
    cache.Modify(w, SetEntry(bytes, b0, vec[pos']));
    pos' := pos' + 1;
    cache.Unlock(w);
  }

  /** Fill the tree under `indirect2` from `cur` towards `tot` data blocks. */
  method FillIndirect2(cache: BlockCacheManager, b: nat, vec: seq<nat>, pos: nat, cur: nat, tot: nat)
    returns (pos': nat, n: nat)
    requires cache.Valid() && |cache.pins| + 2 <= cache.budget && cur <= tot
    requires Buildable(cache.disk, cache.pins, vec, pos, b, 2, Min(cur, INODE_INDIRECT2_COUNT), Min(tot, INODE_INDIRECT2_COUNT))
    modifies cache
    ensures cache.Valid() && cache.pins == old(cache.pins)
    ensures n == Max(cur, Min(tot, INODE_INDIRECT2_COUNT))
    ensures Grown(old(cache.disk), cache.disk, vec, pos, pos', b, 2, Min(cur, INODE_INDIRECT2_COUNT), Min(tot, INODE_INDIRECT2_COUNT))
  {
    hide Grown, Buildable, SetEntry, Entry, Words, BlockCacheManager.Valid;
    ghost var d0, pins0 := cache.disk, cache.pins;
    ghost var m, k := Min(cur, INODE_INDIRECT2_COUNT), Min(tot, INODE_INDIRECT2_COUNT);
    BuildableRoot(d0, pins0, vec, pos, b, 2, m, k);
    pos' := pos;
    n := cur;
    var a0, b0 := cur / FANOUT, cur % FANOUT;
    var a1, b1 := Min(tot, INODE_INDIRECT2_COUNT) / FANOUT, Min(tot, INODE_INDIRECT2_COUNT) % FANOUT;
    cache.Lock(b);
    while a0 < a1 || (a0 == a1 && b0 < b1)
      invariant n == 128 * a0 + b0 && 0 <= a0 && 0 <= b0 < FANOUT && cur <= n <= Max(cur, k)
      invariant cache.Valid() && cache.pins == pins0 + {b}
      invariant Grown(d0, cache.disk, vec, pos, pos', b, 2, m, Min(n, INODE_INDIRECT2_COUNT))
      decreases k - n
    {
      ghost var d, start := cache.disk, pos';
      StillBuildable(d0, d, pins0, vec, pos, pos', b, 2, m, n, k);
      BuildableLess(d, pins0, vec, pos', b, 2, n, k, n + 1);
      pos' := FillOne(cache, b, vec, pos', a0, b0, pins0);
      GrownTrans(d0, d, cache.disk, vec, pos, start, pos', b, 2, m, n, n + 1);
      n := n + 1;
      b0 := b0 + 1;
      if b0 == FANOUT {
        b0 := 0;
        a0 := a0 + 1;
      }
    }
    cache.Unlock(b);
  }

  lemma EntryList(t: Table, b: nat, c: nat)
    ensures Subtree(t, b, 1, 0) == []
    ensures Subtree(t, b, 1, c + 1) == Subtree(t, b, 1, c) + [t(b, c)]
  {
    hide Cap, Full, Slot, Rest;
    Caps();
    FullOne(c);
    SubtreeStep(t, b, 1, c, 1);
    Unfold(t, t(b, c), 0, 1);
  }

  /** Append the first `cnt` entries of a level-1 index block. */
  method CollectEntries(cache: BlockCacheManager, b: nat, cnt: nat, v0: seq<nat>) returns (v: seq<nat>)
    requires cache.Valid() && |cache.pins| + 1 <= cache.budget && cnt <= FANOUT && b < |cache.disk| && b !in cache.pins
    modifies cache
    ensures cache.Valid() && cache.pins == old(cache.pins) && cache.disk == old(cache.disk)
    ensures v == v0 + Subtree(Words(cache.disk), b, 1, cnt)
  {
    hide Subtree, Words, Entry, BlockCacheManager.Valid;
    ghost var d := cache.disk;
    EntryList(Words(d), b, 0);
    v := v0;
    cache.Lock(b);
    var i := 0;
    while i < cnt
      invariant i <= cnt && cache.Valid() && cache.disk == d && cache.pins == old(cache.pins) + {b}
      invariant v == v0 + Subtree(Words(d), b, 1, i)
    {
      EntryList(Words(d), b, i);
      EntryAt(d, b, i);
      var bytes := cache.Read(b);
      v := v + [Entry(bytes, i)];
      i := i + 1;
    }
    cache.Unlock(b);
  }

  /** The next level-1 block under `indirect2`, with its entries. */
  lemma EntryUnder2(d: seq<Block>, pins: set<nat>, b: nat, a: nat, c: nat, n: nat)
    requires a < FANOUT && 1 <= c <= FANOUT && 128 * a + c <= n && Walkable(d, pins, b, 2, n)
    ensures var w := Words(d)(b, a);
            && b < |d| && w < |d| && w != b && w !in pins
            && Subtree(Words(d), b, 2, 128 * a + c) == Subtree(Words(d), b, 2, 128 * a) + [w] + Subtree(Words(d), w, 1, c)
  {
    hide Subtree, All, Inner, Distinct, Words, Full, Cap, Slot, Rest, SubtreeSize;
    FullTwo(a);
    SetPrefix(Words(d), b, 2, 128 * a + c, n);
    SetStep(Words(d), b, 2, a, c);
    RootInAll(Words(d), b, 2, 128 * a);
    RootInAll(Words(d), Words(d)(b, a), 1, c);
    SubtreeStep(Words(d), b, 2, a, c);
  }

  /** Append all blocks below `indirect2` when it has `n` data blocks. */
  method CollectIndirect2(cache: BlockCacheManager, b: nat, n: nat, v0: seq<nat>) returns (v: seq<nat>)
    requires cache.Valid() && |cache.pins| + 2 <= cache.budget && n <= INODE_INDIRECT2_COUNT
    requires b < |cache.disk| && b !in cache.pins && Walkable(cache.disk, cache.pins, b, 2, n)
    modifies cache
    ensures cache.Valid() && cache.pins == old(cache.pins) && cache.disk == old(cache.disk)
    ensures v == v0 + Subtree(Words(cache.disk), b, 2, n)
  {
    hide Subtree, Words, Entry, Walkable, BlockCacheManager.Valid;
    ghost var d, pins0 := cache.disk, cache.pins;
    Unfold(Words(d), b, 2, 0);
    v := v0;
    var a1, b1 := n / FANOUT, n % FANOUT;
    cache.Lock(b);
    var a := 0;
    while a < a1
      invariant a <= a1 && cache.Valid() && cache.disk == d && cache.pins == pins0 + {b}
      invariant v == v0 + Subtree(Words(d), b, 2, 128 * a)
    {
      EntryUnder2(d, pins0, b, a, FANOUT, n);
      EntryAt(d, b, a);
      var bytes := cache.Read(b);
      v := v + [Entry(bytes, a)];
      v := CollectEntries(cache, Entry(bytes, a), FANOUT, v);
      a := a + 1;
    }
    if b1 > 0 {
      EntryUnder2(d, pins0, b, a1, b1, n);
      EntryAt(d, b, a1);
      var bytes := cache.Read(b);
      v := v + [Entry(bytes, a1)];
      v := CollectEntries(cache, Entry(bytes, a1), b1, v);
    }
    cache.Unlock(b);
  }
}
