/**
 All blocks of one inode (easy-fs/src/layout.rs): 27 direct entries and the trees under
 `indirect1`, `indirect2` and `indirect3`.

 `BlockList` lists them in the order in which growth takes them and `clear_size` returns them.
 */
module InodeTree {
  import opened Seqs
  import opened IndexTree
  import opened TreeBuild

  const INODE_DIRECT_COUNT: nat := 27
  const BLOCK_BYTES: nat := 512
  const LEVELS: nat := 3

  datatype Ino = Ino(size: nat, direct: seq<nat>, indirect1: nat, indirect2: nat, indirect3: nat, isDir: bool)

  function DataBlocks(size: nat): nat
  {
    (size + BLOCK_BYTES - 1) / BLOCK_BYTES
  }

  /** Number of the first data block that lies under the root of height `h`. */
  function Base(h: nat): nat
  {
    if h == 0 then 0 else if h == 1 then INODE_DIRECT_COUNT else Base(h - 1) + Cap(h - 1)
  }

  function Root(ino: Ino, h: nat): nat
  {
    if h <= 1 then ino.indirect1 else if h == 2 then ino.indirect2 else ino.indirect3
  }

  /** How many of the first `n` data blocks lie under the root of height `h`. */
  function Share(n: nat, h: nat): (m: nat)
    ensures m <= Cap(h)
  {
    Clamp(n, Base(h), h)
  }

  /** The root of height `h` and everything below it, when it is in use. */
  function Branch(t: Table, ino: Ino, h: nat, n: nat): seq<nat>
  {
    if Share(n, h) == 0 then [] else [Root(ino, h)] + Subtree(t, Root(ino, h), h, Share(n, h))
  }

  function BranchSize(h: nat, n: nat): nat
  {
    if Share(n, h) == 0 then 0 else 1 + SubtreeSize(h, Share(n, h))
  }

  /** The direct blocks and the branches of height at most `h`. */
  function Lists(t: Table, ino: Ino, n: nat, h: nat): seq<nat>
    requires |ino.direct| == INODE_DIRECT_COUNT
  {
    if h == 0 then ino.direct[..Min(n, INODE_DIRECT_COUNT)] else Lists(t, ino, n, h - 1) + Branch(t, ino, h, n)
  }

  function Count(n: nat, h: nat): nat
  {
    if h == 0 then Min(n, INODE_DIRECT_COUNT) else Count(n, h - 1) + BranchSize(h, n)
  }

  /** Every block of the inode when it has `n` data blocks. */
  function BlockList(t: Table, ino: Ino, n: nat): seq<nat>
    requires |ino.direct| == INODE_DIRECT_COUNT
  {
    Lists(t, ino, n, LEVELS)
  }

  /** `get_block_id`: the block of data block number `i`, over all heights at most `h`. */
  function DataBlock(t: Table, ino: Ino, i: nat, h: nat): nat
    requires |ino.direct| == INODE_DIRECT_COUNT && i < Base(h + 1)
  {
    if h == 0 then ino.direct[i]
    else if i < Base(h) then DataBlock(t, ino, i, h - 1)
    else Leaf(t, Root(ino, h), h, i - Base(h))
  }

  lemma {:induction false} ListsLength(t: Table, ino: Ino, n: nat, h: nat)
    requires |ino.direct| == INODE_DIRECT_COUNT
    ensures |Lists(t, ino, n, h)| == Count(n, h)
  {
    if h > 0 {
      ListsLength(t, ino, n, h - 1);
      SubtreeLength(t, Root(ino, h), h, Share(n, h));
    }
  }

  lemma {:induction false} BaseMonotone(g: nat, h: nat)
    requires g <= h
    ensures Base(g) <= Base(h)
    ensures g < h ==> Base(g) < Base(h)
    ensures 0 < g < h ==> Base(g) + Cap(g) <= Base(h)
  {
    if g < h {
      BaseMonotone(g, h - 1);
    }
  }

  /** Below the first block of the next height, the lower lists are complete. */
  lemma {:induction false} ListsSaturated(t: Table, ino: Ino, m: nat, n: nat, h: nat)
    requires |ino.direct| == INODE_DIRECT_COUNT && Base(h + 1) <= m <= n
    ensures Lists(t, ino, m, h) == Lists(t, ino, n, h) && Count(m, h) == Count(n, h)
  {
    if h > 0 {
      BaseMonotone(h, h + 1);
      ListsSaturated(t, ino, m, n, h - 1);
      assert Share(m, h) == Share(n, h) == Cap(h);
    }
  }

  lemma ShareMonotone(m: nat, n: nat, h: nat)
    requires m <= n
    ensures Share(m, h) <= Share(n, h)
    ensures Share(m, h) > 0 && h > 0 ==> Base(h) <= m
  {
    hide Cap, Base;
  }

  /** Below the first block of height `h`, the branch of height `h` is empty. */
  lemma BranchPrefix(t: Table, ino: Ino, m: nat, n: nat, h: nat)
    requires m <= n
    ensures Branch(t, ino, h, m) <= Branch(t, ino, h, n)
    ensures Share(m, h) == 0 ==> Branch(t, ino, h, m) == []
  {
    hide Subtree, Cap, Base, Share;
    ShareMonotone(m, n, h);
    SubtreePrefix(t, Root(ino, h), h, Share(m, h), Share(n, h));
  }

  /** Fewer data blocks give a prefix of the list. */
  lemma {:induction false} ListsPrefix(t: Table, ino: Ino, m: nat, n: nat, h: nat)
    requires |ino.direct| == INODE_DIRECT_COUNT && m <= n
    ensures Lists(t, ino, m, h) <= Lists(t, ino, n, h)
  {
    hide Subtree, Cap, Base, Share, Branch;
    if h > 0 {
      ShareMonotone(m, n, h);
      ListsPrefix(t, ino, m, n, h - 1);
      BranchPrefix(t, ino, m, n, h);
      if Share(m, h) > 0 {
        ListsSaturated(t, ino, m, n, h - 1);
      }
    }
  }

  /** Growing by one data block puts it last in the list. */
  lemma {:induction false} ListsLast(t: Table, ino: Ino, i: nat, h: nat)
    requires |ino.direct| == INODE_DIRECT_COUNT && i < Base(h + 1)
    ensures var s := Lists(t, ino, i + 1, h); |s| > 0 && s[|s| - 1] == DataBlock(t, ino, i, h)
  {
    hide Subtree, Leaf;
    if h > 0 {
      if i < Base(h) {
        ListsLast(t, ino, i, h - 1);
      } else {
        assert Share(i + 1, h) == i - Base(h) + 1;
        SubtreeLast(t, Root(ino, h), h, i - Base(h));
      }
    }
  }

  /** The list has as many blocks as the count says. */
  lemma BlockListLength(t: Table, ino: Ino, n: nat)
    requires |ino.direct| == INODE_DIRECT_COUNT
    ensures |BlockList(t, ino, n)| == Count(n, LEVELS)
  {
    hide Lists, Count;
    ListsLength(t, ino, n, LEVELS);
  }

  /**
   Lookup agrees with construction: data block `i` stands at position `Count(i + 1) - 1` of the
   block list, however far the file has grown since.
   */
  lemma DataBlockAt(t: Table, ino: Ino, i: nat, n: nat)
    requires |ino.direct| == INODE_DIRECT_COUNT && i < n && i < Base(LEVELS + 1)
    ensures Count(i, LEVELS) < Count(i + 1, LEVELS) <= |BlockList(t, ino, n)|
    ensures BlockList(t, ino, n)[Count(i + 1, LEVELS) - 1] == DataBlock(t, ino, i, LEVELS)
  {
    hide Subtree, Leaf, Cap, Base, Lists, Count;
    ListsLast(t, ino, i, LEVELS);
    ListsLength(t, ino, i, LEVELS);
    ListsLength(t, ino, i + 1, LEVELS);
    ListsPrefix(t, ino, i, i + 1, LEVELS);
    ListsPrefix(t, ino, i + 1, n, LEVELS);
    CountStep(i, LEVELS);
  }

  lemma {:induction false} CountSaturated(m: nat, n: nat, h: nat)
    requires Base(h + 1) <= m <= n
    ensures Count(m, h) == Count(n, h)
  {
    var ino := Ino(0, seq(INODE_DIRECT_COUNT, _ => 0), 0, 0, 0, false);
    ListsSaturated((b, j) => 0, ino, m, n, h);
  }

  lemma {:induction false} CountStep(i: nat, h: nat)
    requires i < Base(h + 1)
    ensures Count(i, h) < Count(i + 1, h)
  {
    hide SubtreeSize, Cap;
    if h > 0 {
      if i < Base(h) {
        CountStep(i, h - 1);
      } else {
        CountSaturated(i, i + 1, h - 1);
        SubtreeSizeStep(h, i - Base(h));
      }
    }
  }

  // The blocks of an inode as sets.

  ghost function BranchSet(t: Table, ino: Ino, h: nat, n: nat): set<nat>
  {
    if Share(n, h) == 0 then {} else All(t, Root(ino, h), h, Share(n, h))
  }

  ghost function BranchIndex(t: Table, ino: Ino, h: nat, n: nat): set<nat>
  {
    if Share(n, h) == 0 then {} else {Root(ino, h)} + Inner(t, Root(ino, h), h, Share(n, h))
  }

  /** All blocks of height at most `h`. */
  ghost function Blocks(t: Table, ino: Ino, n: nat, h: nat): set<nat>
    requires |ino.direct| == INODE_DIRECT_COUNT
  {
    if h == 0 then (set x | x in ino.direct[..Min(n, INODE_DIRECT_COUNT)])
    else Blocks(t, ino, n, h - 1) + BranchSet(t, ino, h, n)
  }

  /** The index blocks among them. */
  ghost function IndexBlocks(t: Table, ino: Ino, n: nat, h: nat): set<nat>
  {
    if h == 0 then {} else IndexBlocks(t, ino, n, h - 1) + BranchIndex(t, ino, h, n)
  }

  /** No block of the inode occurs twice. */
  ghost predicate Separate(t: Table, ino: Ino, n: nat, h: nat)
    requires |ino.direct| == INODE_DIRECT_COUNT
  {
    h == 0 ||
    (&& Separate(t, ino, n, h - 1)
     && Blocks(t, ino, n, h - 1) !! BranchSet(t, ino, h, n)
     && (Share(n, h) > 0 ==> Distinct(t, Root(ino, h), h, Share(n, h))))
  }

  lemma {:induction false} BlocksAreLists(t: Table, ino: Ino, n: nat, h: nat)
    requires |ino.direct| == INODE_DIRECT_COUNT
    ensures forall x :: x in Blocks(t, ino, n, h) <==> x in Lists(t, ino, n, h)
  {
    hide Subtree, All, Share, Root;
    if h > 0 {
      BlocksAreLists(t, ino, n, h - 1);
      AllIsSubtree(t, Root(ino, h), h, Share(n, h));
    }
  }

  lemma {:induction false} NoDupIsSeparate(t: Table, ino: Ino, n: nat, h: nat)
    requires |ino.direct| == INODE_DIRECT_COUNT && NoDup(Lists(t, ino, n, h))
    ensures Separate(t, ino, n, h)
  {
    hide Subtree, All, Share, Root, Distinct, NoDup;
    if h > 0 {
      NoDupParts(Lists(t, ino, n, h - 1), Branch(t, ino, h, n));
      NoDupIsSeparate(t, ino, n, h - 1);
      BlocksAreLists(t, ino, n, h - 1);
      AllIsSubtree(t, Root(ino, h), h, Share(n, h));
      if Share(n, h) > 0 {
        NoDupIsDistinct(t, Root(ino, h), h, Share(n, h));
      }
      assert forall x | x in BranchSet(t, ino, h, n) :: x in Branch(t, ino, h, n);
      ApartSets(Blocks(t, ino, n, h - 1), Lists(t, ino, n, h - 1), BranchSet(t, ino, h, n), Branch(t, ino, h, n));
    }
  }

  lemma {:induction false} IndexInBlocks(t: Table, ino: Ino, n: nat, h: nat)
    requires |ino.direct| == INODE_DIRECT_COUNT
    ensures IndexBlocks(t, ino, n, h) <= Blocks(t, ino, n, h)
  {
    hide All, Share, Root, Inner;
    if h > 0 {
      IndexInBlocks(t, ino, n, h - 1);
      InnerInAll(t, Root(ino, h), h, Share(n, h));
    }
  }

  /** Data blocks are never index blocks. */
  lemma {:induction false} DataNotIndex(t: Table, ino: Ino, i: nat, n: nat, h: nat)
    requires |ino.direct| == INODE_DIRECT_COUNT && i < n && i < Base(h + 1) && Separate(t, ino, n, h)
    ensures DataBlock(t, ino, i, h) in Blocks(t, ino, n, h)
    ensures DataBlock(t, ino, i, h) !in IndexBlocks(t, ino, n, h)
  {
    hide All, Root, Inner, Leaf, Distinct, Cap, Base;
    if h == 0 {
      DirectInBlocks(t, ino, i, n);
    } else {
      InnerInAll(t, Root(ino, h), h, Share(n, h));
      if i < Base(h) {
        DataNotIndex(t, ino, i, n, h - 1);
      } else {
        BaseStep(h);
        IndexInBlocks(t, ino, n, h - 1);
        LeafInAll(t, Root(ino, h), h, Share(n, h), i - Base(h));
        LeafNotInner(t, Root(ino, h), h, Share(n, h), i - Base(h));
      }
    }
  }

  lemma BaseStep(h: nat)
    ensures Base(1) == INODE_DIRECT_COUNT
    ensures h > 0 ==> Base(h + 1) == Base(h) + Cap(h)
  {
  }

  lemma DirectInBlocks(t: Table, ino: Ino, i: nat, n: nat)
    requires |ino.direct| == INODE_DIRECT_COUNT && i < n && i < Base(1)
    ensures DataBlock(t, ino, i, 0) in Blocks(t, ino, n, 0)
  {
    assert ino.direct[..Min(n, INODE_DIRECT_COUNT)][i] == ino.direct[i];
  }

  /** The block list depends only on the inode and its index blocks. */
  lemma {:induction false} ListsFrame(t: Table, t': Table, ino: Ino, n: nat, h: nat)
    requires |ino.direct| == INODE_DIRECT_COUNT
    requires forall x, j | x in IndexBlocks(t, ino, n, h) && 0 <= j < FANOUT :: t'(x, j) == t(x, j)
    ensures Lists(t', ino, n, h) == Lists(t, ino, n, h)
    ensures IndexBlocks(t', ino, n, h) == IndexBlocks(t, ino, n, h)
    ensures Blocks(t', ino, n, h) == Blocks(t, ino, n, h)
    ensures Separate(t', ino, n, h) == Separate(t, ino, n, h)
  {
    hide All, Root, Inner, Distinct, Cap, Base, Subtree, Slot;
    if h > 0 {
      ListsFrame(t, t', ino, n, h - 1);
      if Share(n, h) > 0 {
        SlotInBounds(h, Share(n, h));
        SubtreeFrame(t, t', Root(ino, h), h, Share(n, h));
      }
    }
  }

  /** `ino'` differs from `ino` at most in the root of height `h`. */
  ghost predicate SameButRoot(ino: Ino, ino': Ino, h: nat)
  {
    ino'.direct == ino.direct && forall g: nat | 1 <= g <= LEVELS && g != h :: Root(ino', g) == Root(ino, g)
  }

  lemma {:induction false} ListsBelow(t: Table, t': Table, ino: Ino, ino': Ino, h: nat, e: nat, g: nat)
    requires |ino.direct| == INODE_DIRECT_COUNT && h <= LEVELS && g < h && SameButRoot(ino, ino', h)
    requires forall x, j | x in IndexBlocks(t, ino, e, g) && 0 <= j < FANOUT :: t'(x, j) == t(x, j)
    ensures Lists(t', ino', e, g) == Lists(t, ino, e, g)
    ensures IndexBlocks(t', ino', e, g) == IndexBlocks(t, ino, e, g)
  {
    hide Root, Inner, Cap, Base, Subtree, Slot;
    if g > 0 {
      ListsBelow(t, t', ino, ino', h, e, g - 1);
      if Share(e, g) > 0 {
        SlotInBounds(g, Share(e, g));
        SubtreeFrame(t, t', Root(ino, g), g, Share(e, g));
      }
    }
  }

  /** Unused branches contribute nothing. */
  lemma {:induction false} ListsAbove(t: Table, ino: Ino, h: nat, e: nat, g: nat)
    requires |ino.direct| == INODE_DIRECT_COUNT && h <= g && e <= Base(h + 1)
    ensures Lists(t, ino, e, g) == Lists(t, ino, e, h)
    ensures IndexBlocks(t, ino, e, g) == IndexBlocks(t, ino, e, h)
    ensures Count(e, g) == Count(e, h)
  {
    hide Root, Inner, Cap, Subtree, SubtreeSize;
    if g > h {
      ListsAbove(t, ino, h, e, g - 1);
      BaseMonotone(h + 1, g);
    }
  }

  lemma {:induction false} IndexSaturated(t: Table, ino: Ino, m: nat, n: nat, h: nat)
    requires Base(h + 1) <= m <= n
    ensures IndexBlocks(t, ino, m, h) == IndexBlocks(t, ino, n, h)
  {
    hide Root, Inner;
    if h > 0 {
      BaseMonotone(h, h + 1);
      IndexSaturated(t, ino, m, n, h - 1);
      assert Share(m, h) == Share(n, h) == Cap(h);
    }
  }

  /** The last branch in use, spelled out. */
  lemma LastBranch(t: Table, ino: Ino, h: nat, e: nat)
    requires |ino.direct| == INODE_DIRECT_COUNT && 1 <= h <= LEVELS && Base(h) <= e <= Base(h + 1)
    ensures BlockList(t, ino, e) == Lists(t, ino, e, h - 1) + (if e == Base(h) then [] else [Root(ino, h)] + Subtree(t, Root(ino, h), h, e - Base(h)))
    ensures IndexBlocks(t, ino, e, LEVELS)
         == IndexBlocks(t, ino, e, h - 1) + (if e == Base(h) then {} else {Root(ino, h)} + Inner(t, Root(ino, h), h, e - Base(h)))
    ensures Count(e, LEVELS) == Count(e, h - 1) + (if e == Base(h) then 0 else 1 + SubtreeSize(h, e - Base(h)))
  {
    hide Root, Inner, Cap, Base, Subtree, SubtreeSize;
    ListsAbove(t, ino, h, e, LEVELS);
    BaseStep(h);
    assert Share(e, h) == e - Base(h);
  }

  /** Growth inside the branch of height `h`, as it shows in the block list of the inode. */
  lemma GrowBranch(t: Table, t': Table, ino: Ino, ino': Ino, h: nat, e: nat, e': nat, ext: seq<nat>)
    requires |ino.direct| == INODE_DIRECT_COUNT && 1 <= h <= LEVELS && SameButRoot(ino, ino', h)
    requires Base(h) <= e < e' <= Base(h + 1)
    requires e > Base(h) ==> Root(ino', h) == Root(ino, h)
    requires Subtree(t', Root(ino', h), h, e' - Base(h)) == Subtree(t, Root(ino', h), h, e - Base(h)) + ext
    requires Inner(t, Root(ino', h), h, e - Base(h)) <= Inner(t', Root(ino', h), h, e' - Base(h))
    requires forall x, j | x in IndexBlocks(t, ino, e, h - 1) && 0 <= j < FANOUT :: t'(x, j) == t(x, j)
    ensures BlockList(t', ino', e') == BlockList(t, ino, e) + (if e == Base(h) then [Root(ino', h)] else []) + ext
    ensures IndexBlocks(t', ino', e', LEVELS) == IndexBlocks(t, ino, e, h - 1) + {Root(ino', h)} + Inner(t', Root(ino', h), h, e' - Base(h))
    ensures IndexBlocks(t, ino, e, LEVELS) <= IndexBlocks(t', ino', e', LEVELS)
    ensures Count(e', LEVELS) - Count(e, LEVELS)
         == SubtreeSize(h, e' - Base(h)) - SubtreeSize(h, e - Base(h)) + (if e == Base(h) then 1 else 0)
  {
    hide Root, Inner, Cap, Base, Subtree, SubtreeSize, BlockList, IndexBlocks, Lists, Count;
    LastBranch(t, ino, h, e);
    LastBranch(t', ino', h, e');
    ListsBelow(t, t', ino, ino', h, e, h - 1);
    ListsSaturated(t', ino', e, e', h - 1);
    IndexSaturated(t', ino', e, e', h - 1);
    SizeOfNone(h);
    Unfold(t, Root(ino', h), h, 0);
  }
}
