/**
 Growing an inode in any number of steps and then clearing it: the blocks that come back are exactly
 the blocks that were handed in, in the same order.
 */
module GrowClear {
  import opened Seqs
  import opened BlockCaches
  import opened TreeBuild
  import opened InodeTree
  import opened InodeGrow
  import opened DiskInodes

  /** One call of `increase_size`: the new size and the fresh blocks supplied for it. */
  datatype Growth = Growth(newSize: nat, blocks: seq<nat>)

  function SizeAfter(steps: seq<Growth>): nat
  {
    if steps == [] then 0 else steps[|steps| - 1].newSize
  }

  /** All blocks ever supplied. */
  function Supplied(steps: seq<Growth>): seq<nat>
  {
    if steps == [] then [] else Supplied(steps[..|steps| - 1]) + steps[|steps| - 1].blocks
  }

  /** Each step supplies as many blocks as `blocks_num_needed` computes. */
  ghost predicate Counted(steps: seq<Growth>)
  {
    steps == [] ||
    var before, last := steps[..|steps| - 1], steps[|steps| - 1];
    && Counted(before)
    && DataBlocks(SizeAfter(before)) <= DataBlocks(last.newSize) <= Base(LEVELS + 1)
    && |last.blocks| == TotalBlocks(last.newSize) - TotalBlocks(SizeAfter(before))
  }

  lemma {:induction false} SupplyPrefix(steps: seq<Growth>, k: nat)
    requires k <= |steps| && Counted(steps)
    ensures Counted(steps[..k]) && Supplied(steps[..k]) <= Supplied(steps)
    ensures DataBlocks(SizeAfter(steps)) <= Base(LEVELS + 1)
  {
    hide DataBlocks, Base, TotalBlocks;
    if k < |steps| {
      var before := steps[..|steps| - 1];
      SupplyPrefix(before, k);
      assert before[..k] == steps[..k];
    } else {
      assert steps[..k] == steps;
      assert DataBlocks(0) == 0 by { NoBlocks(); }
    }
  }

  lemma NoBlocks()
    ensures DataBlocks(0) == 0
  {
  }

  lemma StepSupply(steps: seq<Growth>, k: nat)
    requires k < |steps| && Counted(steps) && NoDup(Supplied(steps))
    ensures var blocks, was, now := steps[k].blocks, SizeAfter(steps[..k]), steps[k].newSize;
            && Supplied(steps[..k + 1]) == Supplied(steps[..k]) + blocks
            && NoDup(Supplied(steps[..k]) + blocks) && Supplied(steps[..k]) + blocks <= Supplied(steps)
            && DataBlocks(was) <= DataBlocks(now) <= Base(LEVELS + 1)
            && |blocks| == TotalBlocks(now) - TotalBlocks(was)
  {
    hide DataBlocks, Base, TotalBlocks, NoDup;
    SupplyPrefix(steps, k + 1);
    var upTo := steps[..k + 1];
    assert upTo[..k] == steps[..k];
    var all := Supplied(upTo);
    assert Supplied(steps) == all + Supplied(steps)[|all|..];
    NoDupParts(all, Supplied(steps)[|all|..]);
  }

  /** What is still to be supplied at step `k` meets the demands of `increase_size`. */
  lemma StepReady(d: seq<Block>, pins: set<nat>, ino: Ino, steps: seq<Growth>, k: nat)
    requires k < |steps| && Counted(steps) && NoDup(Supplied(steps)) && |ino.direct| == INODE_DIRECT_COUNT
    requires forall x | x in Supplied(steps) :: x < |d| && x < U32 && x !in pins
    requires BlockList(Words(d), ino, DataBlocks(SizeAfter(steps[..k]))) == Supplied(steps[..k])
    ensures Growable(d, pins, ino, steps[k].blocks, 0, DataBlocks(SizeAfter(steps[..k])), DataBlocks(steps[k].newSize))
    ensures Supplied(steps[..k + 1]) == Supplied(steps[..k]) + steps[k].blocks
  {
    hide DataBlocks, Base, TotalBlocks, BlockList, Words, Count, NoDup, Supplied, Counted, SizeAfter;
    StepSupply(steps, k);
    assert steps[k].blocks[0..] == steps[k].blocks;
    assert forall x | x in Supplied(steps[..k]) + steps[k].blocks :: x in Supplied(steps);
    TotalBlocksExact(SizeAfter(steps[..k]));
    TotalBlocksExact(steps[k].newSize);
  }

  /**
   Growth in any number of steps followed by `clear_size`. The blocks returned are the blocks
   supplied, data and index blocks alike, exactly when `clear_size` does not fail its assertion.
   */
  method GrowThenClear(ino: DiskInode, cache: BlockCacheManager, steps: seq<Growth>) returns (ok: bool, v: seq<nat>)
    requires cache.Valid() && |cache.pins| + LEVELS <= cache.budget
    requires ino.size == 0 && |ino.direct| == INODE_DIRECT_COUNT
    requires Counted(steps) && NoDup(Supplied(steps))
    requires forall x | x in Supplied(steps) :: x < |cache.disk| && x < U32 && x !in cache.pins
    modifies ino, cache
    ensures cache.Valid() && cache.pins == old(cache.pins)
    ensures ok <==> DataBlocks(SizeAfter(steps)) <= 27 + 128 + 128 * 128 * 128
    ensures ok ==> v == Supplied(steps) && |v| == TotalBlocks(SizeAfter(steps)) && ino.size == 0
  {
    hide BlockCacheManager.Valid, DataBlocks, Base, TotalBlocks, BlockList, Words, Count, NoDup, Growable, InoGrown, Counted, Supplied, SizeAfter;
    ghost var pins := cache.pins;
    Start(cache.disk, ino.Value());
    assert steps[..0] == [];
    for k := 0 to |steps|
      invariant cache.Valid() && cache.pins == pins && |cache.disk| == |old(cache.disk)|
      invariant |ino.direct| == INODE_DIRECT_COUNT && ino.size == SizeAfter(steps[..k])
      invariant BlockList(Words(cache.disk), ino.Value(), DataBlocks(ino.size)) == Supplied(steps[..k])
    {
      ghost var d, was := cache.disk, ino.Value();
      StepReady(d, pins, was, steps, k);
      ino.IncreaseSize(steps[k].newSize, steps[k].blocks, cache);
      StepTaken(d, cache.disk, was, ino.Value(), steps, k);
    }
    assert steps[..|steps|] == steps;
    Finish(cache.disk, pins, ino.Value(), steps);
    ok, v := ino.ClearSize(cache);
  }

  /** The size of a file of one block more than `clear_size` accepts. */
  const GAP_SIZE: nat := 512 * (27 + 128 + 128 * 128 * 128 + 1)

  /** Growth accepts the size, and it is a 32-bit number. */
  lemma GapSize()
    ensures GAP_SIZE < U32 && DataBlocks(GAP_SIZE) <= Base(LEVELS + 1) && DataBlocks(GAP_SIZE) > 27 + 128 + 128 * 128 * 128
    ensures DataBlocks(0) == 0 && TotalBlocks(0) == 0
  {
    hide Base;
    Bases();
  }

  /** A file that can be grown and then not cleared: whatever fresh blocks it is given, the assertion fails. */
  method WritableNotClearable(ino: DiskInode, cache: BlockCacheManager, blocks: seq<nat>) returns (ok: bool)
    requires cache.Valid() && |cache.pins| + LEVELS <= cache.budget
    requires ino.size == 0 && |ino.direct| == INODE_DIRECT_COUNT
    requires |blocks| == TotalBlocks(GAP_SIZE) && NoDup(blocks)
    requires forall x | x in blocks :: x < |cache.disk| && x < U32 && x !in cache.pins
    modifies ino, cache
    ensures !ok
  {
    hide BlockCacheManager.Valid, DataBlocks, Base, TotalBlocks, NoDup;
    GapSize();
    var steps := [Growth(GAP_SIZE, blocks)];
    assert steps[..0] == [] && Supplied(steps[..0]) == [];
    assert Supplied(steps) == [] + blocks == blocks;
    var v;
    ok, v := GrowThenClear(ino, cache, steps);
  }

  lemma Start(d: seq<Block>, ino: Ino)
    requires ino.size == 0 && |ino.direct| == INODE_DIRECT_COUNT
    ensures BlockList(Words(d), ino, DataBlocks(0)) == [] == Supplied([]) && SizeAfter([]) == 0
  {
    hide BlockList, Words;
    BlockListParts(Words(d), ino, 0);
  }

  lemma StepTaken(d: seq<Block>, d': seq<Block>, ino: Ino, ino': Ino, steps: seq<Growth>, k: nat)
    requires k < |steps| && |ino.direct| == INODE_DIRECT_COUNT && ino'.size == steps[k].newSize
    requires Supplied(steps[..k + 1]) == Supplied(steps[..k]) + steps[k].blocks
    requires BlockList(Words(d), ino, DataBlocks(ino.size)) == Supplied(steps[..k])
    requires InoGrown(d, d', ino, ino', steps[k].blocks, 0, |steps[k].blocks|, DataBlocks(ino.size), DataBlocks(ino'.size))
    ensures |d'| == |d| && |ino'.direct| == INODE_DIRECT_COUNT && ino'.size == SizeAfter(steps[..k + 1])
    ensures BlockList(Words(d'), ino', DataBlocks(ino'.size)) == Supplied(steps[..k + 1])
  {
    hide BlockList, Words, DataBlocks, Supplied, Count, IndexBlocks;
    assert steps[k].blocks[0..|steps[k].blocks|] == steps[k].blocks;
  }

  lemma Finish(d: seq<Block>, pins: set<nat>, ino: Ino, steps: seq<Growth>)
    requires Counted(steps) && NoDup(Supplied(steps)) && ino.size == SizeAfter(steps) && |ino.direct| == INODE_DIRECT_COUNT
    requires forall x | x in Supplied(steps) :: x < |d| && x !in pins
    requires BlockList(Words(d), ino, DataBlocks(ino.size)) == Supplied(steps)
    ensures Sound(d, pins, ino, DataBlocks(ino.size)) && |Supplied(steps)| == TotalBlocks(SizeAfter(steps))
  {
    hide BlockList, Words, DataBlocks, Supplied, Count, NoDup, Base, TotalBlocks;
    SupplyPrefix(steps, |steps|);
    TotalBlocksExact(ino.size);
    BlockListLength(Words(d), ino, DataBlocks(ino.size));
  }
}
