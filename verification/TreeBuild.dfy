/**
 Growing and collecting the block tree below an index block, on a cached disk:
 `build_tree` and `collect_tree_blocks` of easy-fs/src/layout.rs.
 */
module TreeBuild {
  import opened Seqs
  import opened Bytes
  import opened BlockCaches
  import opened IndexTree

  const U32: nat := 0x1_0000_0000

  /** Entry `i` of an index block with these bytes. */
  function Entry(bytes: Block, i: nat): nat
    requires i < FANOUT
  {
    Get(bytes, 4 * i, 4)
  }

  function SetEntry(bytes: Block, i: nat, v: nat): Block
    requires i < FANOUT
  {
    Put(bytes, 4 * i, 4, v)
  }

  /** The index entries found on a disk. */
  ghost function Words(disk: seq<Block>): Table
  {
    (b: nat, i: nat) => if b < |disk| && i < FANOUT then Entry(disk[b], i) else 0
  }

  lemma EntryAt(disk: seq<Block>, b: nat, i: nat)
    requires b < |disk| && i < FANOUT
    ensures Words(disk)(b, i) == Entry(disk[b], i)
  {
  }

  lemma WordsFrame(disk: seq<Block>, disk': seq<Block>)
    requires |disk| == |disk'|
    ensures forall x: nat, j: nat | j < FANOUT && (x < |disk| ==> disk'[x] == disk[x]) :: Words(disk')(x, j) == Words(disk)(x, j)
  {
  }

  lemma WordsSet(disk: seq<Block>, b: nat, i: nat, v: nat)
    requires b < |disk| && i < FANOUT && v < U32
    ensures var disk' := disk[b := SetEntry(disk[b], i, v)];
            && Words(disk')(b, i) == v
            && forall x: nat, j: nat | j < FANOUT && (x != b || j != i) :: Words(disk')(x, j) == Words(disk)(x, j)
  {
    assert Pow256(4) == U32;
    GetPut(disk[b], 4 * i, 4, v);
    forall j | 0 <= j < FANOUT && j != i
      ensures Entry(SetEntry(disk[b], i, v), j) == Entry(disk[b], j)
    {
      GetPutOther(disk[b], 4 * i, 4, v, 4 * j, 4);
    }
  }

  /** How many of the data blocks numbered `cur`, `cur + 1`, ... below `leaf` fit under height `h`. */
  function Clamp(leaf: nat, cur: nat, h: nat): (m: nat)
    ensures m <= Cap(h)
  {
    if leaf <= cur then 0 else if leaf - cur <= Cap(h) then leaf - cur else Cap(h)
  }

  /** Blocks that growth may hand out: in range, and none of them in use. */
  ghost predicate Fresh(disk: seq<Block>, vec: seq<nat>, used: set<nat>)
  {
    && NoDup(vec)
    && (forall x | x in vec :: x < |disk| && x < U32 && x !in used)
  }

  /**
   From disk `d` to disk `d'` the subtree under `b` grew from `m` to `n` data blocks, taking exactly
   the blocks `vec[pos..pos']`, in pre-order; only index blocks of the subtree changed.
   */
  ghost predicate Grown(d: seq<Block>, d': seq<Block>, vec: seq<nat>, pos: nat, pos': nat, b: nat, h: nat, m: nat, n: nat)
  {
    var t, t' := Words(d), Words(d');
    && |d'| == |d| && m <= n && pos <= pos' <= |vec|
    && pos' == pos + SubtreeSize(h, n) - SubtreeSize(h, m)
    && Subtree(t', b, h, n) == Subtree(t, b, h, m) + vec[pos..pos']
    && Distinct(t', b, h, n)
    && Inner(t, b, h, m) <= Inner(t', b, h, n)
    && (m == n ==> d' == d)
    && (forall x: nat | x < |d| && (x != b || h == 0) && x !in Inner(t', b, h, n) :: d'[x] == d[x])
  }

  lemma GrownNot(d: seq<Block>, vec: seq<nat>, pos: nat, b: nat, h: nat, m: nat)
    requires Distinct(Words(d), b, h, m) && pos <= |vec|
    ensures Grown(d, d, vec, pos, pos, b, h, m, m)
  {
    assert vec[pos..pos] == [];
  }

  lemma SizeMonotone(h: nat, m: nat, n: nat)
    requires m <= n
    ensures SubtreeSize(h, m) <= SubtreeSize(h, n)
  {
    var t: Table := (b, i) => 0;
    SubtreePrefix(t, 0, h, m, n);
    SubtreeLength(t, 0, h, m);
    SubtreeLength(t, 0, h, n);
  }

  /** Growth under an entry that was in use before. */
  lemma GrowExisting(d: seq<Block>, d': seq<Block>, vec: seq<nat>, pos: nat, pos': nat, b: nat, h: nat, k: nat, r0: nat, r1: nat)
    requires h > 0 && 1 <= r0 <= r1 <= Cap(h - 1)
    requires Distinct(Words(d), b, h, Full(h, k) + r0)
    requires pos <= |vec| && Fresh(d, vec[pos..], All(Words(d), b, h, Full(h, k) + r0))
    requires Grown(d, d', vec, pos, pos', Words(d)(b, k), h - 1, r0, r1)
    requires b < |d| && k < FANOUT
    ensures Grown(d, d', vec, pos, pos', b, h, Full(h, k) + r0, Full(h, k) + r1)
  {
    hide Rest, Slot, Cap, Full, Subtree, All, Inner, Distinct, Words, SubtreeSize, NoDup;
    var t, t', w := Words(d), Words(d'), Words(d)(b, k);
    var ext := vec[pos..pos'];
    WordsFrame(d, d');
    SetStep(t, b, h, k, r0);
    RootInAll(t, b, h, Full(h, k));
    RootInAll(t, w, h - 1, r0);
    assert forall x | x in ext :: x in vec[pos..];
    GrownBlocks(t, t', w, h - 1, r0, r1, ext);
    InnerInAll(t', w, h - 1, r1);
    InnerOfData(t', w, r1);
    assert d'[b] == d[b];
    GrowChild(t, t', b, h, k, r0, r1, ext);
    SubtreeStep(t, b, h, k, r0);
    SubtreeStep(t, b, h, k, r1);
  }

  /** Growth under an entry that is first used now. */
  lemma GrowNew(d0: seq<Block>, d: seq<Block>, d': seq<Block>, vec: seq<nat>, start: nat, pos: nat, pos': nat,
                b: nat, h: nat, k: nat, m: nat, r: nat)
    requires h > 0 && 1 <= r <= Cap(h - 1) && k < FANOUT && b < |d| && pos < |vec|
    requires Grown(d0, d, vec, start, pos, b, h, m, Full(h, k))
    requires Fresh(d, vec[pos..], All(Words(d), b, h, Full(h, k)))
    requires Grown(d[b := SetEntry(d[b], k, vec[pos])], d', vec, pos + 1, pos', vec[pos], h - 1, 0, r)
    ensures Grown(d0, d', vec, start, pos', b, h, m, Full(h, k) + r)
  {
    hide Rest, Slot, Cap, Full, Subtree, All, Inner, Distinct, Words, SubtreeSize, NoDup, SetEntry;
    var w, q := vec[pos], Full(h, k);
    var d1 := d[b := SetEntry(d[b], k, w)];
    var t0, t, t1, t' := Words(d0), Words(d), Words(d1), Words(d');
    var ext := vec[pos + 1..pos'];
    assert w == vec[pos..][0] && w in vec[pos..];
    WordsSet(d, b, k, w);
    WordsFrame(d1, d');
    RootInAll(t, b, h, q);
    Unfold(t1, w, h - 1, 0);
    Unfold(t, w, h - 1, 0);
    assert forall x | x in ext :: x in vec[pos..];
    GrownBlocks(t1, t', w, h - 1, 0, r, ext);
    InnerInAll(t', w, h - 1, r);
    InnerOfData(t', w, r);
    NewApart(vec, pos, pos');
    assert d'[b] == d1[b];
    GrowChild(t, t', b, h, k, 0, r, ext);
    SubtreeStep(t', b, h, k, r);
    SizeOfNone(h - 1);
    assert vec[start..pos'] == vec[start..pos] + [w] + ext;
    GrowNewFrame(d0, d, d', b, k, w, Inner(t, b, h, q), Inner(t', w, h - 1, r), Inner(t', b, h, q + r), h);
  }

  lemma NewApart(vec: seq<nat>, pos: nat, pos': nat)
    requires pos < pos' <= |vec| && NoDup(vec[pos..])
    ensures vec[pos] !in vec[pos + 1..pos']
  {
    var s, part := vec[pos + 1..], vec[pos + 1..pos'];
    assert vec[pos..] == [vec[pos]] + s;
    NoDupParts([vec[pos]], s);
    assert forall x | x in part :: x in s;
  }

  lemma GrowNewFrame(d0: seq<Block>, d: seq<Block>, d': seq<Block>, b: nat, k: nat, w: nat,
                     i0: set<nat>, i1: set<nat>, i': set<nat>, h: nat)
    requires h > 0 && b < |d| == |d0| == |d'| && k < FANOUT
    requires i0 <= i' && i1 <= i' && (h > 1 ==> w in i')
    requires forall x: nat | x < |d| && x != b && x !in i0 :: d[x] == d0[x]
    requires forall x: nat | x < |d| && (x != w || h == 1) && x !in i1 :: d'[x] == d[b := SetEntry(d[b], k, w)][x]
    ensures forall x: nat | x < |d| && x != b && x !in i' :: d'[x] == d0[x]
  {
    hide SetEntry;
  }

  function Min(a: nat, b: nat): nat { if a <= b then a else b }
  function Max(a: nat, b: nat): nat { if a <= b then b else a }

  /** What growth needs: distinct blocks in the subtree, enough fresh ones, and none of them locked. */
  ghost predicate Buildable(d: seq<Block>, pins: set<nat>, vec: seq<nat>, pos: nat, b: nat, h: nat, m: nat, n: nat)
  {
    && pos <= |vec|
    && SubtreeSize(h, n) + pos <= |vec| + SubtreeSize(h, m)
    && Distinct(Words(d), b, h, m)
    && Fresh(d, vec[pos..], All(Words(d), b, h, m) + pins)
    && (forall x | x in All(Words(d), b, h, m) :: x < |d| && x !in pins)
  }

  lemma EntryRoom(h: nat, k: nat)
    requires h > 0 && k < FANOUT
    ensures Full(h, k) + Cap(h - 1) == Full(h, k + 1) <= Cap(h)
  {
    FullIsProduct(h, FANOUT);
    FullMonotone(h, k + 1, FANOUT);
  }

  lemma ClampChild(leaf: nat, cur: nat, h: nat, k: nat)
    requires h > 0 && k < FANOUT
    ensures var m, q, r := Clamp(leaf, cur, h), Full(h, k), Clamp(leaf, cur + Full(h, k), h - 1);
            && (m <= q ==> r == 0)
            && (q < m ==> r >= 1 && q + r == Min(Full(h, k + 1), m) && (q + r < m ==> r == Cap(h - 1)))
  {
    EntryRoom(h, k);
  }

  lemma ReadyExisting(d: seq<Block>, pins: set<nat>, vec: seq<nat>, pos: nat, b: nat, h: nat, k: nat, m: nat, n: nat, r0: nat, r1: nat)
    requires h > 0 && Buildable(d, pins, vec, pos, b, h, m, n)
    requires 1 <= r0 <= r1 <= Cap(h - 1) && Full(h, k) + r0 <= m && Full(h, k) + r1 <= n
    requires r0 == Cap(h - 1) || Full(h, k) + r0 == m
    ensures Buildable(d, pins + {b}, vec, pos, Words(d)(b, k), h - 1, r0, r1)
    ensures Distinct(Words(d), b, h, Full(h, k) + r0)
    ensures Fresh(d, vec[pos..], All(Words(d), b, h, Full(h, k) + r0))
  {
    hide Rest, Slot, Cap, Full, All, Inner, Distinct, Words, SubtreeSize, NoDup;
    var t, q := Words(d), Full(h, k);
    SetPrefix(t, b, h, q + r0, m);
    SetStep(t, b, h, k, r0);
    RootInAll(t, b, h, q);
    RootInAll(t, b, h, m);
    SubtreeStep(t, b, h, k, r0);
    SubtreeStep(t, b, h, k, r1);
    SizeMonotone(h, q + r1, n);
  }

  lemma FreshRest(d: seq<Block>, vec: seq<nat>, pos: nat, pos': nat, used: set<nat>, used': set<nat>)
    requires pos <= pos' <= |vec| && Fresh(d, vec[pos..], used)
    requires forall x | x in used' :: x in used || x in vec[pos..pos']
    ensures Fresh(d, vec[pos'..], used')
  {
    var s, s0, s' := vec[pos..], vec[pos..pos'], vec[pos'..];
    assert s == s0 + s';
    NoDupParts(s0, s');
  }

  lemma ReadyNew(d0: seq<Block>, d: seq<Block>, pins: set<nat>, vec: seq<nat>, start: nat, pos: nat,
                 b: nat, h: nat, k: nat, m: nat, n: nat, r: nat)
    requires h > 0 && k < FANOUT && Buildable(d0, pins, vec, start, b, h, m, n)
    requires Grown(d0, d, vec, start, pos, b, h, m, Full(h, k))
    requires 1 <= r <= Cap(h - 1) && Full(h, k) + r <= n
    ensures pos < |vec| && b < |d| && vec[pos] < U32
    ensures Fresh(d, vec[pos..], All(Words(d), b, h, Full(h, k)))
    ensures Buildable(d[b := SetEntry(d[b], k, vec[pos])], pins + {b}, vec, pos + 1, vec[pos], h - 1, 0, r)
  {
    hide Rest, Slot, Cap, Full, Subtree, All, Inner, Distinct, Words, SubtreeSize, NoDup, SetEntry;
    var t0, t, q := Words(d0), Words(d), Full(h, k);
    SubtreeStep(t, b, h, k, r);
    SizeMonotone(h, q + r, n);
    SizeOfNone(h - 1);
    RootInAll(t0, b, h, m);
    GrownBlocks(t0, t, b, h, m, q, vec[start..pos]);
    var w, d1 := vec[pos], d[b := SetEntry(d[b], k, vec[pos])];
    FreshRest(d, vec, start, pos, All(t0, b, h, m) + pins, All(t, b, h, q) + pins);
    Unfold(Words(d1), w, h - 1, 0);
    assert w == vec[pos..][0] && w in vec[pos..];
    RootInAll(t, b, h, q);
    assert vec[pos..pos + 1] == [w];
    FreshRest(d1, vec, pos, pos + 1, pins + {b}, All(Words(d1), w, h - 1, 0) + (pins + {b}));
  }

  lemma BuildFacts(d: seq<Block>, pins: set<nat>, vec: seq<nat>, pos: nat, b: nat, cur: nat, src: nat, dst: nat, h: nat)
    requires cur < dst && src <= dst
    requires Buildable(d, pins, vec, pos, b, h, Clamp(src, cur, h), Clamp(dst, cur, h))
    ensures b < |d| && b !in pins
    ensures Clamp(src, cur, h) <= Clamp(dst, cur, h)
    ensures h == 0 ==> Clamp(dst, cur, h) == 1 && Grown(d, d, vec, pos, pos, b, 0, Clamp(src, cur, h), 1)
    ensures h > 0 ==> Full(h, 0) == 0 && Grown(d, d, vec, pos, pos, b, h, Clamp(src, cur, h), Clamp(src, cur, h))
  {
    hide Subtree, All, Inner, Distinct, Words, NoDup;
    var m := Clamp(src, cur, h);
    RootInAll(Words(d), b, h, m);
    GrownNot(d, vec, pos, b, h, m);
    if h == 0 {
      Unfold(Words(d), b, 0, m);
      Unfold(Words(d), b, 0, 1);
      assert vec[pos..pos] == [];
    }
  }

  /** What one iteration of the loop knows about its position. */
  lemma IterationFacts(d0: seq<Block>, d: seq<Block>, vec: seq<nat>, start: nat, pos: nat,
                       cur: nat, leaf: nat, src: nat, dst: nat, b: nat, h: nat, k: nat, m0: nat, m1: nat)
    requires h > 0 && k < FANOUT && leaf < dst && src <= dst
    requires m0 == Clamp(src, cur, h) && m1 == Clamp(dst, cur, h) && leaf == cur + Min(Full(h, k), m1)
    requires Grown(d0, d, vec, start, pos, b, h, m0, Max(m0, Min(Full(h, k), m1)))
    ensures var q, r0, r1 := Full(h, k), Clamp(src, leaf, h - 1), Clamp(dst, leaf, h - 1);
            && q < m1 && leaf == cur + q && (leaf >= src <==> m0 <= q)
            && 1 <= r1 && r0 <= r1 <= Cap(h - 1) && q + r1 == Min(Full(h, k + 1), m1)
            && (m0 <= q ==> r0 == 0 && Grown(d0, d, vec, start, pos, b, h, m0, q))
            && (q < m0 ==> 1 <= r0 && q + r0 <= m0 && (r0 == Cap(h - 1) || q + r0 == m0) && d == d0 && pos == start)
  {
    EntryRoom(h, k);
    ClampChild(src, cur, h, k);
    ClampChild(dst, cur, h, k);
    hide Subtree, All, Inner, Distinct, Words, NoDup, SubtreeSize, Cap, Full;
  }

  /** One iteration under an entry in use: from the child's growth to the invariant for the next entry. */
  lemma IterationExisting(d: seq<Block>, d': seq<Block>, pins: set<nat>, vec: seq<nat>, pos: nat, pos': nat,
                          b: nat, h: nat, k: nat, m0: nat, m1: nat, r0: nat, r1: nat)
    requires h > 0 && k < FANOUT && Buildable(d, pins, vec, pos, b, h, m0, m1)
    requires 1 <= r0 <= r1 <= Cap(h - 1) && Full(h, k) + r0 <= m0 <= m1 && Full(h, k) + r1 == Min(Full(h, k + 1), m1)
    requires r0 == Cap(h - 1) || Full(h, k) + r0 == m0
    requires Grown(d, d', vec, pos, pos', Words(d)(b, k), h - 1, r0, r1)
    ensures Grown(d, d', vec, pos, pos', b, h, m0, Max(m0, Min(Full(h, k + 1), m1)))
  {
    hide Rest, Slot, Cap, Full, Subtree, All, Inner, Distinct, Words, SubtreeSize, NoDup;
    EntryRoom(h, k);
    RootInAll(Words(d), b, h, m0);
    if r0 == Cap(h - 1) {
      GrownNot(d, vec, pos, b, h, m0);
    } else {
      ReadyExisting(d, pins, vec, pos, b, h, k, m0, m1, r0, r1);
      GrowExisting(d, d', vec, pos, pos', b, h, k, r0, r1);
    }
  }

  lemma ExitFacts(cur: nat, leaf: nat, dst: nat, h: nat, k: nat)
    requires h > 0 && k <= FANOUT && (k == FANOUT || leaf >= dst)
    requires leaf == cur + Min(Full(h, k), Clamp(dst, cur, h))
    ensures Min(Full(h, k), Clamp(dst, cur, h)) == Clamp(dst, cur, h)
  {
    FullIsProduct(h, FANOUT);
  }

  const TREE_DEPTH: nat := 3

  /**
   `build_tree`: extend the subtree under `b` from the data blocks below `srcLeaf` to those below
   `dstLeaf`, taking new blocks from `vec` starting at `pos`.
   */
  method BuildTree(cache: BlockCacheManager, vec: seq<nat>, pos: nat, b: nat,
                   curLeaf: nat, srcLeaf: nat, dstLeaf: nat, curDepth: nat)
    returns (pos': nat, leaf: nat)
    requires curDepth <= TREE_DEPTH && curLeaf < dstLeaf && srcLeaf <= dstLeaf
    requires cache.Valid() && |cache.pins| + TREE_DEPTH - curDepth <= cache.budget
    requires var h := TREE_DEPTH - curDepth;
             Buildable(cache.disk, cache.pins, vec, pos, b, h, Clamp(srcLeaf, curLeaf, h), Clamp(dstLeaf, curLeaf, h))
    modifies cache
    ensures cache.Valid() && cache.pins == old(cache.pins)
    ensures leaf == curLeaf + Clamp(dstLeaf, curLeaf, TREE_DEPTH - curDepth)
    ensures var h := TREE_DEPTH - curDepth;
            Grown(old(cache.disk), cache.disk, vec, pos, pos', b, h, Clamp(srcLeaf, curLeaf, h), Clamp(dstLeaf, curLeaf, h))
    decreases TREE_DEPTH - curDepth
  {
    hide Rest, Slot, Cap, Full, Subtree, All, Inner, Distinct, Words, SubtreeSize, NoDup, SetEntry, Entry, Grown, Buildable, Clamp, BlockCacheManager.Valid;
    ghost var h := TREE_DEPTH - curDepth;
    ghost var m0, m1 := Clamp(srcLeaf, curLeaf, h), Clamp(dstLeaf, curLeaf, h);
    ghost var d0, pins0 := cache.disk, cache.pins;
    BuildFacts(d0, pins0, vec, pos, b, curLeaf, srcLeaf, dstLeaf, h);
    if curDepth == TREE_DEPTH {
      return pos, curLeaf + 1;
    }
    pos', leaf := pos, curLeaf;
    cache.Lock(b);
    var i := 0;
    while i < FANOUT && leaf < dstLeaf
      invariant i <= FANOUT && cache.Valid() && cache.pins == pins0 + {b}
      invariant leaf == curLeaf + Min(Full(h, i), m1)
      invariant Grown(d0, cache.disk, vec, pos, pos', b, h, m0, Max(m0, Min(Full(h, i), m1)))
    {
      ghost var d, start := cache.disk, pos';
      ghost var q := Full(h, i);
      IterationFacts(d0, d, vec, pos, pos', curLeaf, leaf, srcLeaf, dstLeaf, b, h, i, m0, m1);
      ghost var r0, r1 := Clamp(srcLeaf, leaf, h - 1), Clamp(dstLeaf, leaf, h - 1);
      if leaf >= srcLeaf {
        ReadyNew(d0, d, pins0, vec, pos, pos', b, h, i, m0, m1, r1);
        var bytes := cache.Read(b);
        cache.Modify(b, SetEntry(bytes, i, vec[pos']));
        pos' := pos' + 1;
      } else {
        ReadyExisting(d, pins0, vec, pos', b, h, i, m0, m1, r0, r1);
      }
      var bytes := cache.Read(b);
      EntryAt(cache.disk, b, i);
      if leaf >= srcLeaf {
        WordsSet(d, b, i, vec[start]);
        pos', leaf := BuildTree(cache, vec, pos', Entry(bytes, i), leaf, srcLeaf, dstLeaf, curDepth + 1);
        GrowNew(d0, d, cache.disk, vec, pos, start, pos', b, h, i, m0, r1);
      } else {
        pos', leaf := BuildTree(cache, vec, pos', Entry(bytes, i), leaf, srcLeaf, dstLeaf, curDepth + 1);
        IterationExisting(d, cache.disk, pins0, vec, start, pos', b, h, i, m0, m1, r0, r1);
      }
      i := i + 1;
    }
    ExitFacts(curLeaf, leaf, dstLeaf, h, i);
    cache.Unlock(b);
  }

  /** Walking a subtree needs its blocks distinct, on the disk and not locked. */
  ghost predicate Walkable(d: seq<Block>, pins: set<nat>, b: nat, h: nat, n: nat)
  {
    && Distinct(Words(d), b, h, n)
    && (forall x | x in All(Words(d), b, h, n) :: x < |d| && x !in pins)
  }

  lemma WalkFacts(d: seq<Block>, pins: set<nat>, b: nat, cur: nat, dst: nat, h: nat)
    requires cur < dst && Walkable(d, pins, b, h, Clamp(dst, cur, h))
    ensures b < |d| && b !in pins
    ensures Subtree(Words(d), b, h, 0) == []
    ensures if h == 0 then Clamp(dst, cur, h) == 1 && Subtree(Words(d), b, h, 1) == [] else Full(h, 0) == 0
  {
    hide All, Distinct, Words;
    RootInAll(Words(d), b, h, Clamp(dst, cur, h));
  }

  lemma WalkPosition(cur: nat, leaf: nat, dst: nat, h: nat, k: nat)
    requires h > 0 && k < FANOUT && leaf < dst && leaf == cur + Min(Full(h, k), Clamp(dst, cur, h))
    ensures var r := Clamp(dst, leaf, h - 1);
            && Full(h, k) < Clamp(dst, cur, h) && leaf == cur + Full(h, k)
            && 1 <= r <= Cap(h - 1) && Full(h, k) + r == Min(Full(h, k + 1), Clamp(dst, cur, h))
  {
    EntryRoom(h, k);
    ClampChild(dst, cur, h, k);
  }

  lemma WalkEntry(d: seq<Block>, pins: set<nat>, b: nat, cur: nat, leaf: nat, dst: nat, h: nat, k: nat)
    requires h > 0 && k < FANOUT && leaf < dst && leaf == cur + Min(Full(h, k), Clamp(dst, cur, h))
    requires Walkable(d, pins, b, h, Clamp(dst, cur, h))
    ensures var w, r := Words(d)(b, k), Clamp(dst, leaf, h - 1);
            && leaf == cur + Full(h, k)
            && Walkable(d, pins + {b}, w, h - 1, r)
            && Full(h, k) + r == Min(Full(h, k + 1), Clamp(dst, cur, h))
            && Full(h, k) < Clamp(dst, cur, h)
            && Subtree(Words(d), b, h, Full(h, k) + r) == Subtree(Words(d), b, h, Full(h, k)) + [w] + Subtree(Words(d), w, h - 1, r)
  {
    hide Rest, Slot, Cap, Full, Subtree, All, Inner, Distinct, Words, Clamp;
    var m, t := Clamp(dst, cur, h), Words(d);
    WalkPosition(cur, leaf, dst, h, k);
    var r := Clamp(dst, leaf, h - 1);
    SetPrefix(t, b, h, Full(h, k) + r, m);
    SetStep(t, b, h, k, r);
    RootInAll(t, b, h, Full(h, k));
    SubtreeStep(t, b, h, k, r);
  }

  /** `collect_tree_blocks`: append every block below `b`, in pre-order. */
  method CollectTree(cache: BlockCacheManager, collected: seq<nat>, b: nat, curLeaf: nat, maxLeaf: nat, curDepth: nat)
    returns (v: seq<nat>, leaf: nat)
    requires curDepth <= TREE_DEPTH && curLeaf < maxLeaf
    requires cache.Valid() && |cache.pins| + TREE_DEPTH - curDepth <= cache.budget
    requires Walkable(cache.disk, cache.pins, b, TREE_DEPTH - curDepth, Clamp(maxLeaf, curLeaf, TREE_DEPTH - curDepth))
    modifies cache
    ensures cache.Valid() && cache.pins == old(cache.pins) && cache.disk == old(cache.disk)
    ensures leaf == curLeaf + Clamp(maxLeaf, curLeaf, TREE_DEPTH - curDepth)
    ensures var h := TREE_DEPTH - curDepth;
            v == collected + Subtree(Words(cache.disk), b, h, Clamp(maxLeaf, curLeaf, h))
    decreases TREE_DEPTH - curDepth
  {
    hide Rest, Slot, Cap, Full, Subtree, Words, Entry, Walkable, Clamp, BlockCacheManager.Valid;
    ghost var h := TREE_DEPTH - curDepth;
    ghost var d, pins0 := cache.disk, cache.pins;
    WalkFacts(d, pins0, b, curLeaf, maxLeaf, h);
    if curDepth == TREE_DEPTH {
      return collected, curLeaf + 1;
    }
    v, leaf := collected, curLeaf;
    cache.Lock(b);
    var i := 0;
    while i < FANOUT && leaf < maxLeaf
      invariant i <= FANOUT && cache.Valid() && cache.pins == pins0 + {b} && cache.disk == d
      invariant leaf == curLeaf + Min(Full(h, i), Clamp(maxLeaf, curLeaf, h))
      invariant v == collected + Subtree(Words(d), b, h, Min(Full(h, i), Clamp(maxLeaf, curLeaf, h)))
    {
      WalkEntry(d, pins0, b, curLeaf, leaf, maxLeaf, h, i);
      EntryAt(d, b, i);
      var bytes := cache.Read(b);
      v := v + [Entry(bytes, i)];
      v, leaf := CollectTree(cache, v, Entry(bytes, i), leaf, maxLeaf, curDepth + 1);
      i := i + 1;
    }
    ExitFacts(curLeaf, leaf, maxLeaf, h, i);
    cache.Unlock(b);
  }
}
