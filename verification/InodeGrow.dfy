/**
 Growth of an inode, phase by phase (easy-fs/src/layout.rs:197-287): the direct entries and then
 the trees of height 1, 2 and 3.
 */
module InodeGrow {
  import opened Seqs
  import opened BlockCaches
  import opened IndexTree
  import opened TreeBuild
  import opened InodeTree

  /** `vec[pos..]` are just the blocks needed to grow from `e` to `n` data blocks, all of them fresh. */
  ghost predicate Growable(d: seq<Block>, pins: set<nat>, ino: Ino, vec: seq<nat>, pos: nat, e: nat, n: nat)
  {
    && |ino.direct| == INODE_DIRECT_COUNT && e <= n <= Base(LEVELS + 1)
    && pos <= |vec| && |vec| - pos == Count(n, LEVELS) - Count(e, LEVELS)
    && NoDup(BlockList(Words(d), ino, e) + vec[pos..])
    && (forall x | x in BlockList(Words(d), ino, e) + vec[pos..] :: x < |d| && x < U32 && x !in pins)
  }

  /**
   The inode grew from `e` to `e'` data blocks: its block list was extended by exactly
   `vec[pos..pos']`, and only its index blocks changed on the disk.
   */
  ghost predicate InoGrown(d: seq<Block>, d': seq<Block>, ino: Ino, ino': Ino, vec: seq<nat>, pos: nat, pos': nat, e: nat, e': nat)
  {
    && |d'| == |d| && |ino.direct| == |ino'.direct| == INODE_DIRECT_COUNT
    && e <= e' && pos <= pos' <= |vec| && pos' - pos == Count(e', LEVELS) - Count(e, LEVELS)
    && BlockList(Words(d'), ino', e') == BlockList(Words(d), ino, e) + vec[pos..pos']
    && IndexBlocks(Words(d), ino, e, LEVELS) <= IndexBlocks(Words(d'), ino', e', LEVELS)
    && (forall x: nat | x < |d| && x !in IndexBlocks(Words(d'), ino', e', LEVELS) :: d'[x] == d[x])
    && ino'.isDir == ino.isDir
    && (Fields(ino) && (forall x | x in vec :: x < U32) ==> Fields(ino'))
  }

  /** Every block number in the inode is a `u32`. */
  ghost predicate Fields(ino: Ino)
  {
    && (forall i | 0 <= i < |ino.direct| :: ino.direct[i] < U32)
    && ino.indirect1 < U32 && ino.indirect2 < U32 && ino.indirect3 < U32
  }

  lemma InoGrownNot(d: seq<Block>, ino: Ino, vec: seq<nat>, pos: nat, e: nat)
    requires |ino.direct| == INODE_DIRECT_COUNT && pos <= |vec|
    ensures InoGrown(d, d, ino, ino, vec, pos, pos, e, e)
  {
    assert vec[pos..pos] == [];
  }

  lemma InoGrownTrans(d0: seq<Block>, d1: seq<Block>, d2: seq<Block>, i0: Ino, i1: Ino, i2: Ino, vec: seq<nat>,
                      p0: nat, p1: nat, p2: nat, e0: nat, e1: nat, e2: nat)
    requires InoGrown(d0, d1, i0, i1, vec, p0, p1, e0, e1) && InoGrown(d1, d2, i1, i2, vec, p1, p2, e1, e2)
    ensures InoGrown(d0, d2, i0, i2, vec, p0, p2, e0, e2)
  {
    hide BlockList, IndexBlocks, Words, Count;
    assert vec[p0..p2] == vec[p0..p1] + vec[p1..p2];
    assert forall x: nat | x < |d0| && x !in IndexBlocks(Words(d2), i2, e2, LEVELS) :: d2[x] == d1[x];
  }

  /** After part of the growth, the rest can still be done. */
  lemma GrowableNext(d: seq<Block>, d': seq<Block>, pins: set<nat>, ino: Ino, ino': Ino, vec: seq<nat>, pos: nat, pos': nat,
                     e: nat, e': nat, n: nat)
    requires Growable(d, pins, ino, vec, pos, e, n) && InoGrown(d, d', ino, ino', vec, pos, pos', e, e') && e' <= n
    ensures Growable(d', pins, ino', vec, pos', e', n)
  {
    hide BlockList, IndexBlocks, Words, Count, NoDup, Base;
    assert BlockList(Words(d), ino, e) + vec[pos..] == BlockList(Words(d'), ino', e') + vec[pos'..];
  }

  /** One direct entry. */
  lemma DirectStep(d: seq<Block>, ino: Ino, ino': Ino, vec: seq<nat>, pos: nat, i: nat)
    requires |ino.direct| == INODE_DIRECT_COUNT && i < INODE_DIRECT_COUNT && pos < |vec|
    requires ino' == ino.(direct := ino.direct[i := vec[pos]])
    ensures InoGrown(d, d, ino, ino', vec, pos, pos + 1, i, i + 1)
  {
    hide Words, Branch, BranchIndex, BranchSize;
    var t := Words(d);
    assert vec[pos] in vec;
    assert ino'.direct[..i + 1] == ino.direct[..i] + [vec[pos]] == ino.direct[..i] + vec[pos..pos + 1];
    ListsAbove(t, ino, 0, i, LEVELS);
    ListsAbove(t, ino', 0, i + 1, LEVELS);
    BaseStep(0);
  }

  /** The root that the phase of height `h` works on: a new one exactly when it is first used. */
  ghost predicate PhaseRoot(ino: Ino, ino': Ino, vec: seq<nat>, pos: nat, p: nat, h: nat, e: nat)
  {
    && 1 <= h <= LEVELS && SameButRoot(ino, ino', h) && ino'.isDir == ino.isDir
    && if e == Base(h) then pos < |vec| && p == pos + 1 && Root(ino', h) == vec[pos]
       else p == pos && ino' == ino
  }

  lemma PhaseRootFields(ino: Ino, ino': Ino, vec: seq<nat>, pos: nat, p: nat, h: nat, e: nat)
    requires PhaseRoot(ino, ino', vec, pos, p, h, e) && Fields(ino) && forall x | x in vec :: x < U32
    ensures Fields(ino')
  {
    hide Base;
    assert pos < |vec| ==> vec[pos] in vec;
    assert Root(ino', 1) < U32 && Root(ino', 2) < U32 && Root(ino', 3) < U32;
  }

  /** The blocks of one branch are part of the list. */
  lemma BranchInList(t: Table, ino: Ino, h: nat, n: nat)
    requires |ino.direct| == INODE_DIRECT_COUNT && 1 <= h <= LEVELS && Share(n, h) > 0
    ensures Separate(t, ino, n, LEVELS) ==> Distinct(t, Root(ino, h), h, Share(n, h))
    ensures forall x | x in All(t, Root(ino, h), h, Share(n, h)) :: x in BlockList(t, ino, n)
  {
    hide All, Root, Distinct, Share, Lists;
    BlocksAreLists(t, ino, n, LEVELS);
    BranchUp(t, ino, n, h, LEVELS);
  }

  lemma {:induction false} BranchUp(t: Table, ino: Ino, n: nat, h: nat, g: nat)
    requires |ino.direct| == INODE_DIRECT_COUNT && 1 <= h <= g
    ensures BranchSet(t, ino, h, n) <= Blocks(t, ino, n, g)
    ensures Separate(t, ino, n, g) ==> Separate(t, ino, n, h)
    ensures Blocks(t, ino, n, h) <= Blocks(t, ino, n, g)
  {
    hide BranchSet, Root, Distinct, Share;
    if h < g {
      BranchUp(t, ino, n, h, g - 1);
    }
  }

  /** Existing blocks of a branch can be walked or grown. */
  lemma PhaseReadyOld(d: seq<Block>, pins: set<nat>, ino: Ino, vec: seq<nat>, pos: nat, h: nat, e: nat, n: nat, m: nat)
    requires Growable(d, pins, ino, vec, pos, e, n) && 1 <= h <= LEVELS && Share(e, h) > 0
    requires Share(e, h) <= m && SubtreeSize(h, m) - SubtreeSize(h, Share(e, h)) <= |vec| - pos
    ensures Buildable(d, pins, vec, pos, Root(ino, h), h, Share(e, h), m)
  {
    hide All, Root, Distinct, Share, Separate, BlockList, Words, Count, Base, NoDup, SubtreeSize;
    var t, s := Words(d), BlockList(Words(d), ino, e);
    NoDupParts(s, vec[pos..]);
    NoDupBlockList(t, ino, e);
    BranchInList(t, ino, h, e);
    assert forall x | x in vec[pos..] :: x in s + vec[pos..];
    assert forall x | x in s :: x in s + vec[pos..];
  }

  lemma NoDupBlockList(t: Table, ino: Ino, e: nat)
    requires |ino.direct| == INODE_DIRECT_COUNT && NoDup(BlockList(t, ino, e))
    ensures Separate(t, ino, e, LEVELS)
  {
    NoDupIsSeparate(t, ino, e, LEVELS);
  }

  lemma CountMonotone(m: nat, n: nat, h: nat)
    requires m <= n
    ensures Count(m, h) <= Count(n, h)
  {
    hide Lists, Count;
    var t: Table := (b, j) => 0;
    var ino := Ino(0, seq(INODE_DIRECT_COUNT, _ => 0), 0, 0, 0, false);
    ListsPrefix(t, ino, m, n, h);
    ListsLength(t, ino, m, h);
    ListsLength(t, ino, n, h);
  }

  /** Where the phase of height `h` starts and ends: from `e` to `e'`, on the way to `n`. */
  ghost predicate Phase(h: nat, e: nat, e': nat, n: nat)
  {
    && 1 <= h <= LEVELS && Base(h) < n && Base(h) <= e <= e' <= n
    && if e >= Base(h + 1) then e' == e else e' == Min(n, Base(h + 1))
  }

  lemma PhaseShares(h: nat, e: nat, e': nat, n: nat)
    requires Phase(h, e, e', n)
    ensures if e >= Base(h + 1) then Share(e, h) == Share(e', h) == Cap(h)
            else (e == Base(h) ==> e < e') && e' <= Base(h + 1) && Share(e, h) == e - Base(h) && Share(e', h) == e' - Base(h)
    ensures Base(h) < Base(h + 1)
  {
    BaseStep(h);
  }

  /** The number of blocks the phase takes. */
  lemma PhaseCount(h: nat, e: nat, e': nat, n: nat)
    requires Phase(h, e, e', n) && e < Base(h + 1)
    ensures Count(e', LEVELS) - Count(e, LEVELS)
         == SubtreeSize(h, Share(e', h)) - SubtreeSize(h, Share(e, h)) + (if e == Base(h) then 1 else 0)
    ensures Count(e', LEVELS) <= Count(n, LEVELS)
  {
    hide Count, SubtreeSize, Lists, IndexBlocks, BlockList, Subtree, Inner, Cap, Base;
    PhaseShares(h, e, e', n);
    var t: Table := (b, j) => 0;
    var ino := Ino(0, seq(INODE_DIRECT_COUNT, _ => 0), 0, 0, 0, false);
    LastBranch(t, ino, h, e);
    LastBranch(t, ino, h, e');
    CountSaturated(e, e', h - 1);
    SizeOfNone(h);
    CountMonotone(e', n, LEVELS);
  }

  lemma PhaseReady(d: seq<Block>, pins: set<nat>, ino: Ino, ino': Ino, vec: seq<nat>, pos: nat, p: nat, h: nat, e: nat, e': nat, n: nat)
    requires Growable(d, pins, ino, vec, pos, e, n) && Phase(h, e, e', n) && PhaseRoot(ino, ino', vec, pos, p, h, e)
    ensures Buildable(d, pins, vec, p, Root(ino', h), h, Share(e, h), Share(e', h))
  {
    hide All, Root, Distinct, Share, Separate, BlockList, Words, Count, Base, NoDup, SubtreeSize, Buildable, Growable;
    PhaseShares(h, e, e', n);
    if e < Base(h + 1) {
      PhaseCount(h, e, e', n);
    }
    SizeOfNone(h);
    if e == Base(h) {
      PhaseReadyNew(d, pins, ino, vec, pos, h, e, n, Share(e', h));
    } else {
      GrowableCount(d, pins, ino, vec, pos, e, n);
      PhaseReadyOld(d, pins, ino, vec, pos, h, e, n, Share(e', h));
    }
  }

  lemma GrowableCount(d: seq<Block>, pins: set<nat>, ino: Ino, vec: seq<nat>, pos: nat, e: nat, n: nat)
    requires Growable(d, pins, ino, vec, pos, e, n)
    ensures pos <= |vec| && |vec| - pos == Count(n, LEVELS) - Count(e, LEVELS)
  {
  }

  lemma PhaseReadyNew(d: seq<Block>, pins: set<nat>, ino: Ino, vec: seq<nat>, pos: nat, h: nat, e: nat, n: nat, m: nat)
    requires Growable(d, pins, ino, vec, pos, e, n) && pos < |vec|
    requires SubtreeSize(h, m) + 1 <= Count(n, LEVELS) - Count(e, LEVELS)
    ensures Buildable(d, pins, vec, pos + 1, vec[pos], h, 0, m)
  {
    hide All, Distinct, BlockList, Words, Count, Base, NoDup, SubtreeSize;
    var s, w := BlockList(Words(d), ino, e), vec[pos];
    NoDupParts(s, vec[pos..]);
    Unfold(Words(d), w, h, 0);
    SizeOfNone(h);
    assert vec[pos..][0] == w && vec[pos..pos + 1] == [w];
    assert forall x | x in vec[pos..] :: x in s + vec[pos..];
    FreshRest(d, vec, pos, pos + 1, pins, All(Words(d), w, h, 0) + pins);
    assert w in vec[pos..];
  }

  /** Blocks of the branch after its growth: none of them was under a lower root before. */
  lemma PhaseApart(d: seq<Block>, d': seq<Block>, pins: set<nat>, ino: Ino, ino': Ino, vec: seq<nat>, pos: nat, p: nat, pos': nat,
                   h: nat, e: nat, e': nat, n: nat)
    requires Growable(d, pins, ino, vec, pos, e, n) && Phase(h, e, e', n) && PhaseRoot(ino, ino', vec, pos, p, h, e)
    requires Grown(d, d', vec, p, pos', Root(ino', h), h, Share(e, h), Share(e', h))
    ensures IndexBlocks(Words(d), ino, e, h - 1) !! All(Words(d'), Root(ino', h), h, Share(e', h))
  {
    hide All, Root, Distinct, Inner, Share, BlockList, IndexBlocks, Words, Count, Base, NoDup, SubtreeSize, Subtree, Blocks, BranchSet;
    var t, s, ext := Words(d), BlockList(Words(d), ino, e), vec[p..pos'];
    NoDupParts(s, vec[pos..]);
    NoDupBlockList(t, ino, e);
    GrownBlocks(t, Words(d'), Root(ino', h), h, Share(e, h), Share(e', h), ext);
    assert forall x | x in ext :: x in vec[pos..];
    PhaseShares(h, e, e', n);
    LowerBlocks(t, ino, e, h);
    if e == Base(h) {
      Unfold(t, Root(ino', h), h, 0);
      assert vec[pos..][0] == vec[pos] && vec[pos] in vec[pos..];
    }
  }

  lemma LowerBlocks(t: Table, ino: Ino, e: nat, h: nat)
    requires |ino.direct| == INODE_DIRECT_COUNT && 1 <= h <= LEVELS && Separate(t, ino, e, LEVELS)
    ensures forall x | x in IndexBlocks(t, ino, e, h - 1) :: x in BlockList(t, ino, e)
    ensures Share(e, h) > 0 ==> IndexBlocks(t, ino, e, h - 1) !! All(t, Root(ino, h), h, Share(e, h))
  {
    hide All, Root, Distinct, Inner, Share, Lists;
    BranchUp(t, ino, e, h, LEVELS);
    IndexInBlocks(t, ino, e, h - 1);
    BlocksAreLists(t, ino, e, LEVELS);
  }

  lemma PhaseDone(d: seq<Block>, d': seq<Block>, pins: set<nat>, ino: Ino, ino': Ino, vec: seq<nat>, pos: nat, p: nat, pos': nat,
                  h: nat, e: nat, e': nat, n: nat)
    requires Growable(d, pins, ino, vec, pos, e, n) && Phase(h, e, e', n) && PhaseRoot(ino, ino', vec, pos, p, h, e)
    requires Grown(d, d', vec, p, pos', Root(ino', h), h, Share(e, h), Share(e', h))
    ensures InoGrown(d, d', ino, ino', vec, pos, pos', e, e')
  {
    hide All, Root, Distinct, Inner, Share, Separate, BlockList, IndexBlocks, Words, Count, Base, NoDup, SubtreeSize, Subtree, Cap, Fields;
    PhaseShares(h, e, e', n);
    if Fields(ino) && forall x | x in vec :: x < U32 {
      PhaseRootFields(ino, ino', vec, pos, p, h, e);
    }
    if e == e' {
      InoGrownNot(d, ino, vec, pos, e);
    } else {
      var t, t', r := Words(d), Words(d'), Root(ino', h);
      PhaseApart(d, d', pins, ino, ino', vec, pos, p, pos', h, e, e', n);
      InnerInAll(t', r, h, Share(e', h));
      WordsFrame(d, d');
      GrowBranch(t, t', ino, ino', h, e, e', vec[p..pos']);
      assert vec[pos..pos'] == vec[pos..p] + vec[p..pos'];
    }
  }

  lemma GrowableFacts(d: seq<Block>, pins: set<nat>, ino: Ino, vec: seq<nat>, pos: nat, e: nat, n: nat)
    requires Growable(d, pins, ino, vec, pos, e, n)
    ensures |ino.direct| == INODE_DIRECT_COUNT && pos <= |vec| && (e < n ==> pos < |vec|) && (e == n ==> pos == |vec|)
    ensures e <= n <= Base(LEVELS + 1)
  {
    hide Count, NoDup, BlockList, Words;
    if e < n {
      CountStep(e, LEVELS);
      CountMonotone(e + 1, n, LEVELS);
    }
  }

  /** Setting the size field alone grows nothing. */
  lemma ResizeOnly(d: seq<Block>, pins: set<nat>, ino: Ino, size: nat, vec: seq<nat>, e: nat, n: nat)
    requires Growable(d, pins, ino, vec, 0, e, n)
    ensures Growable(d, pins, ino.(size := size), vec, 0, e, n)
    ensures InoGrown(d, d, ino, ino.(size := size), vec, 0, 0, e, e)
  {
    hide Words, Subtree, Inner, Share, Base, NoDup;
    SameLists(Words(d), ino, ino.(size := size), e, LEVELS);
    assert vec[0..0] == [];
  }

  lemma {:induction false} SameLists(t: Table, ino: Ino, ino': Ino, n: nat, h: nat)
    requires |ino.direct| == INODE_DIRECT_COUNT && ino' == ino.(size := ino'.size)
    ensures Lists(t, ino', n, h) == Lists(t, ino, n, h)
    ensures IndexBlocks(t, ino', n, h) == IndexBlocks(t, ino, n, h)
  {
    hide Subtree, Inner, Share;
    if h > 0 {
      SameLists(t, ino, ino', n, h - 1);
    }
  }

  lemma Bases()
    ensures Base(1) == 27 && Base(2) == 155 && Base(3) == 16539 && Base(4) == 2113691
  {
    Caps();
    BaseStep(1);
    BaseStep(2);
    BaseStep(3);
  }

  /** The phase of height `h` in the counters of the code, which subtract what lies below. */
  lemma PhaseNumbers(h: nat, e: nat, n: nat)
    requires 1 <= h <= LEVELS && Base(h) < n <= Base(LEVELS + 1) && Base(h) <= e <= n
    ensures Phase(h, e, Max(e, Min(n, Base(h + 1))), n)
    ensures Share(e, h) == Min(e - Base(h), Cap(h))
    ensures Share(Max(e, Min(n, Base(h + 1))), h) == Min(n - Base(h), Cap(h))
  {
    BaseStep(h);
  }

  /** The blocks of the inode are distinct, on the disk and not locked. */
  ghost predicate Sound(d: seq<Block>, pins: set<nat>, ino: Ino, n: nat)
  {
    && |ino.direct| == INODE_DIRECT_COUNT && n <= Base(LEVELS + 1)
    && NoDup(BlockList(Words(d), ino, n))
    && (forall x | x in BlockList(Words(d), ino, n) :: x < |d| && x !in pins)
  }

  lemma SoundDirect(d: seq<Block>, pins: set<nat>, ino: Ino, n: nat)
    requires Sound(d, pins, ino, n)
    ensures |ino.direct| == INODE_DIRECT_COUNT
  {
  }

  lemma BranchWalk(d: seq<Block>, pins: set<nat>, ino: Ino, n: nat, h: nat)
    requires Sound(d, pins, ino, n) && 1 <= h <= LEVELS && Share(n, h) > 0
    ensures Walkable(d, pins, Root(ino, h), h, Share(n, h))
    ensures Root(ino, h) < |d| && Root(ino, h) !in pins
  {
    hide Words, BlockList, NoDup, All, Distinct, Share, Root, Base, Separate;
    NoDupBlockList(Words(d), ino, n);
    BranchInList(Words(d), ino, h, n);
    RootInAll(Words(d), Root(ino, h), h, Share(n, h));
  }

  /** The block list, spelled out. */
  lemma BlockListParts(t: Table, ino: Ino, n: nat)
    requires |ino.direct| == INODE_DIRECT_COUNT
    ensures BlockList(t, ino, n)
         == ino.direct[..Min(n, 27)] + Branch(t, ino, 1, n) + Branch(t, ino, 2, n) + Branch(t, ino, 3, n)
    ensures Share(n, 1) == (if n <= 27 then 0 else Min(n - 27, 128))
    ensures Share(n, 2) == (if n <= 155 then 0 else Min(n - 155, 16384))
    ensures Share(n, 3) == (if n <= 16539 then 0 else Min(n - 16539, 2097152))
  {
    hide Branch;
    Bases();
    Caps();
    assert Lists(t, ino, n, 1) == Lists(t, ino, n, 0) + Branch(t, ino, 1, n);
    assert Lists(t, ino, n, 2) == Lists(t, ino, n, 1) + Branch(t, ino, 2, n);
  }

  /** `total_blocks`: the closed-form number of data and index blocks of a file of this size. */
  function TotalBlocks(size: nat): nat
  {
    var n := DataBlocks(size);
    n + (if n > 27 then 1 else 0)
      + (if n > 155 then 1 + Min((n - 155 + 127) / 128, 128) else 0)
      + (if n > 16539 then 1 + (n - 16539 + 16383) / 16384 + (n - 16539 + 127) / 128 else 0)
  }

  lemma BranchSizes(n: nat)
    ensures BranchSize(1, n) == (if n <= 27 then 0 else 1 + Min(n - 27, 128))
    ensures BranchSize(2, n) == (if n <= 155 then 0 else 1 + Min(n - 155, 16384) + CeilDiv(Min(n - 155, 16384), 128))
    ensures BranchSize(3, n) == (if n <= 16539 then 0
                                 else var m := Min(n - 16539, 2097152); 1 + m + CeilDiv(m, 128) + CeilDiv(m, 16384))
  {
    hide SubtreeSize, Share;
    BlockListParts((b, j) => 0, Ino(0, seq(INODE_DIRECT_COUNT, _ => 0), 0, 0, 0, false), n);
    SubtreeSize1(Share(n, 1));
    SubtreeSize2(Share(n, 2));
    SubtreeSize3(Share(n, 3));
  }

  lemma CountParts(n: nat)
    ensures Count(n, LEVELS) == Min(n, 27) + BranchSize(1, n) + BranchSize(2, n) + BranchSize(3, n)
  {
    hide BranchSize;
    assert Count(n, 1) == Count(n, 0) + BranchSize(1, n);
    assert Count(n, 2) == Count(n, 1) + BranchSize(2, n);
  }

  /**
   The closed form counts the blocks of the tree exactly as long as the file fits the tree; beyond
   that the tree has no place for the blocks that the closed form still counts.
   */
  lemma TotalBlocksExact(size: nat)
    ensures TotalBlocks(size) == Count(DataBlocks(size), LEVELS) <==> DataBlocks(size) <= Base(LEVELS + 1)
  {
    hide DataBlocks, Count, BranchSize, Base;
    var n := DataBlocks(size);
    Bases();
    BranchSizes(n);
    CountParts(n);
    TotalArithmetic(n);
  }

  lemma TotalArithmetic(n: nat)
    ensures n > 155 ==> Min((n - 155 + 127) / 128, 128) == CeilDiv(Min(n - 155, 16384), 128)
  {
  }

  /** The first size past the capacity, which the closed form no longer counts right. */
  lemma TotalBlocksPastCapacity()
    ensures var size := 512 * 2113691 + 1; TotalBlocks(size) != Count(DataBlocks(size), LEVELS)
    ensures forall size: nat | size < 512 * 2113691 + 1 :: TotalBlocks(size) == Count(DataBlocks(size), LEVELS)
  {
    hide Base, Count, TotalBlocks;
    Bases();
    TotalBlocksExact(512 * 2113691 + 1);
    forall size: nat | size < 512 * 2113691 + 1 ensures TotalBlocks(size) == Count(DataBlocks(size), LEVELS) {
      TotalBlocksExact(size);
    }
  }
}
