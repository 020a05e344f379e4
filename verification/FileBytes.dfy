/**
 The bytes of a file, as its inode and the disk hold them.
 */
module FileBytes {
  import opened Seqs
  import opened Bytes
  import opened BlockCaches
  import opened IndexTree
  import opened TreeBuild
  import opened InodeTree
  import opened InodeGrow

  /** The block that holds data block `i` of the file; 0 for a block number no inode can have. */
  ghost function BlockOf(d: seq<Block>, ino: Ino, i: nat): nat
  {
    if |ino.direct| == INODE_DIRECT_COUNT && i < Base(LEVELS + 1) then DataBlock(Words(d), ino, i, LEVELS) else 0
  }

  ghost function ByteAt(d: seq<Block>, ino: Ino, j: nat): byte
  {
    var b := BlockOf(d, ino, j / BLOCK_SZ);
    if b < |d| then d[b][j % BLOCK_SZ] else 0
  }

  /** All bytes of the first `n` data blocks, whether or not they are below the file's size. */
  ghost function Raw(d: seq<Block>, ino: Ino, n: nat): (s: seq<byte>)
    ensures |s| == BLOCK_SZ * n
    ensures forall j | 0 <= j < BLOCK_SZ * n :: s[j] == ByteAt(d, ino, j)
  {
    seq(BLOCK_SZ * n, j requires 0 <= j < BLOCK_SZ * n => ByteAt(d, ino, j))
  }

  lemma SizeFits(size: nat)
    ensures size <= BLOCK_SZ * DataBlocks(size) < size + BLOCK_SZ
  {
  }

  /** The contents of the file: the bytes below its size. */
  ghost function Contents(d: seq<Block>, ino: Ino): (s: seq<byte>)
    ensures |s| == ino.size
  {
    SizeFits(ino.size);
    Raw(d, ino, DataBlocks(ino.size))[..ino.size]
  }

  /** Where a data block stands in the block list. */
  lemma BlockOfAt(d: seq<Block>, ino: Ino, n: nat, i: nat)
    requires |ino.direct| == INODE_DIRECT_COUNT && i < n <= Base(LEVELS + 1)
    ensures Count(i, LEVELS) < Count(i + 1, LEVELS) <= |BlockList(Words(d), ino, n)|
    ensures BlockOf(d, ino, i) == BlockList(Words(d), ino, n)[Count(i + 1, LEVELS) - 1]
  {
    hide BlockList, Count, DataBlock, Base, Words;
    DataBlockAt(Words(d), ino, i, n);
  }

  /** Growth never changes where an existing data block is. */
  lemma LookupStable(d: seq<Block>, d': seq<Block>, ino: Ino, ino': Ino, vec: seq<nat>, e: nat, e': nat, i: nat)
    requires InoGrown(d, d', ino, ino', vec, 0, |vec|, e, e') && i < e && e' <= Base(LEVELS + 1)
    ensures BlockOf(d', ino', i) == BlockOf(d, ino, i)
  {
    hide BlockList, Count, BlockOf, Base, Words, IndexBlocks;
    BlockOfAt(d, ino, e, i);
    BlockOfAt(d', ino', e', i);
  }

  /** The data blocks that one growth step adds are among the blocks supplied to it. */
  lemma LookupOfNew(d: seq<Block>, d': seq<Block>, ino: Ino, ino': Ino, vec: seq<nat>, e: nat, e': nat, i: nat)
    requires InoGrown(d, d', ino, ino', vec, 0, |vec|, e, e') && e <= i < e' <= Base(LEVELS + 1)
    ensures 0 <= Count(i + 1, LEVELS) - 1 - Count(e, LEVELS) < |vec|
    ensures BlockOf(d', ino', i) == vec[Count(i + 1, LEVELS) - 1 - Count(e, LEVELS)]
  {
    hide BlockList, Count, BlockOf, Base, Words, IndexBlocks;
    BlockListLength(Words(d), ino, e);
    BlockOfAt(d', ino', e', i);
    CountMonotone(e, i, LEVELS);
    CountMonotone(i + 1, e', LEVELS);
  }

  /** Different data blocks are in different blocks. */
  lemma BlockOfInjective(d: seq<Block>, pins: set<nat>, ino: Ino, n: nat, i: nat, j: nat)
    requires Sound(d, pins, ino, n) && i < n && j < n && i != j
    ensures BlockOf(d, ino, i) != BlockOf(d, ino, j)
  {
    hide BlockList, Count, BlockOf, Base, Words;
    BlockOfAt(d, ino, n, i);
    BlockOfAt(d, ino, n, j);
    if i < j {
      CountMonotone(i + 1, j, LEVELS);
    } else {
      CountMonotone(j + 1, i, LEVELS);
    }
  }

  lemma BlockOfSound(d: seq<Block>, pins: set<nat>, ino: Ino, n: nat, i: nat)
    requires Sound(d, pins, ino, n) && i < n
    ensures BlockOf(d, ino, i) < |d| && BlockOf(d, ino, i) !in pins
    ensures BlockOf(d, ino, i) in BlockList(Words(d), ino, n)
    ensures BlockOf(d, ino, i) !in IndexBlocks(Words(d), ino, n, LEVELS)
  {
    hide BlockList, Count, DataBlock, Base, Words, IndexBlocks, NoDup, Separate, Blocks;
    BlockOfAt(d, ino, n, i);
    assert BlockOf(d, ino, i) in BlockList(Words(d), ino, n);
    NoDupBlockList(Words(d), ino, n);
    DataNotIndex(Words(d), ino, i, n, LEVELS);
  }

  /** The file's blocks depend only on the inode and its index blocks. */
  lemma BlockOfFrame(d: seq<Block>, d': seq<Block>, ino: Ino, n: nat)
    requires |ino.direct| == INODE_DIRECT_COUNT && n <= Base(LEVELS + 1) && |d'| == |d|
    requires forall x: nat | x < |d| && x in IndexBlocks(Words(d), ino, n, LEVELS) :: d'[x] == d[x]
    ensures BlockList(Words(d'), ino, n) == BlockList(Words(d), ino, n)
    ensures IndexBlocks(Words(d'), ino, n, LEVELS) == IndexBlocks(Words(d), ino, n, LEVELS)
    ensures forall i: nat | i < n :: BlockOf(d', ino, i) == BlockOf(d, ino, i)
  {
    hide Words, IndexBlocks, Lists, Count, BlockOf, Base;
    WordsFrame(d, d');
    ListsFrame(Words(d), Words(d'), ino, n, LEVELS);
    forall i: nat | i < n ensures BlockOf(d', ino, i) == BlockOf(d, ino, i) {
      BlockOfAt(d, ino, n, i);
      BlockOfAt(d', ino, n, i);
    }
  }

  /** Overwriting one data block changes its bytes and no others. */
  lemma WriteBlock(d: seq<Block>, pins: set<nat>, ino: Ino, n: nat, k: nat, bytes: Block)
    requires Sound(d, pins, ino, n) && k < n
    ensures var b := BlockOf(d, ino, k);
            b < |d| &&
            var d' := d[b := bytes];
            && Sound(d', pins, ino, n)
            && BlockList(Words(d'), ino, n) == BlockList(Words(d), ino, n)
            && (forall i: nat | i < n :: BlockOf(d', ino, i) == BlockOf(d, ino, i))
            && (forall j: nat | j < BLOCK_SZ * n :: ByteAt(d', ino, j) == if j / BLOCK_SZ == k then bytes[j % BLOCK_SZ] else ByteAt(d, ino, j))
  {
    hide Words, IndexBlocks, BlockList, BlockOf, Base, NoDup;
    BlockOfSound(d, pins, ino, n, k);
    var b := BlockOf(d, ino, k);
    var d' := d[b := bytes];
    BlockOfFrame(d, d', ino, n);
    forall j: nat | j < BLOCK_SZ * n
      ensures ByteAt(d', ino, j) == if j / BLOCK_SZ == k then bytes[j % BLOCK_SZ] else ByteAt(d, ino, j)
    {
      BlockOfSound(d, pins, ino, n, j / BLOCK_SZ);
      if j / BLOCK_SZ != k {
        BlockOfInjective(d, pins, ino, n, j / BLOCK_SZ, k);
      }
    }
  }

  lemma Lookup1(t: Table, b: nat, i: nat)
    ensures Leaf(t, b, 1, i) == t(b, i)
  {
    SlotDiv1(i + 1);
    assert Leaf(t, b, 1, i) == Leaf(t, t(b, i), 0, 0);
  }

  lemma {:induction false} SlotDiv1(n: nat)
    requires n > 0
    ensures Slot(1, n) == n - 1 && Rest(1, n) == 1
  {
    Caps();
    if n > 1 {
      SlotDiv1(n - 1);
    }
  }

  lemma Lookup2(t: Table, b: nat, i: nat)
    ensures Leaf(t, b, 2, i) == t(t(b, i / 128), i % 128)
  {
    hide Slot, Rest, Cap;
    SlotDiv2(i + 1);
    Lookup1(t, t(b, i / 128), i % 128);
  }

  lemma Lookup3(t: Table, b: nat, i: nat)
    ensures Leaf(t, b, 3, i) == t(t(t(b, i / 16384), (i % 16384) / 128), (i % 16384) % 128)
  {
    hide Slot, Rest, Cap;
    SlotDiv3(i + 1);
    Lookup2(t, t(b, i / 16384), i % 16384);
  }

  /** The closed-form walk of `get_block_id` finds the data block. */
  lemma LookupCode(t: Table, ino: Ino, i: nat)
    requires |ino.direct| == INODE_DIRECT_COUNT && i < Base(LEVELS + 1)
    ensures DataBlock(t, ino, i, LEVELS) ==
            if i < 27 then ino.direct[i]
            else if i < 155 then t(ino.indirect1, i - 27)
            else if i < 16539 then
              var last := i - 155;
              t(t(ino.indirect2, last / 128), last % 128)
            else
              var last := i - 16539;
              t(t(t(ino.indirect3, last / 16384), (last % 16384) / 128), (last % 16384) % 128)
  {
    hide Base, Leaf;
    Bases();
    DataBlockUp(t, ino, i, 3);
    if i < 16539 {
      DataBlockUp(t, ino, i, 2);
    }
    if i < 155 {
      DataBlockUp(t, ino, i, 1);
    }
    if 27 <= i < 155 {
      Lookup1(t, ino.indirect1, i - 27);
    } else if 155 <= i < 16539 {
      Lookup2(t, ino.indirect2, i - 155);
    } else if i >= 16539 {
      Lookup3(t, ino.indirect3, i - 16539);
    }
  }

  lemma DataBlockUp(t: Table, ino: Ino, i: nat, h: nat)
    requires |ino.direct| == INODE_DIRECT_COUNT && h > 0 && i < Base(h + 1)
    ensures DataBlock(t, ino, i, h) == if i < Base(h) then DataBlock(t, ino, i, h - 1) else Leaf(t, Root(ino, h), h, i - Base(h))
    ensures i < Base(1) ==> DataBlock(t, ino, i, 0) == ino.direct[i]
  {
    hide Leaf;
  }

  /** The index block one step further on the walk to a leaf. */
  lemma ChildInner(t: Table, b: nat, h: nat, n: nat, i: nat)
    requires h > 1 && i < n
    ensures t(b, Slot(h, i + 1)) in Inner(t, b, h, n)
    ensures Inner(t, t(b, Slot(h, i + 1)), h - 1, Rest(h, i + 1)) <= Inner(t, b, h, n)
  {
    hide Inner, Slot, Rest, Cap, All, Distinct, Subtree;
    SetPrefix(t, b, h, i + 1, n);
    Unfold(t, b, h, i + 1);
  }

  /** Every index block that `get_block_id` reads is on the disk and not locked. */
  lemma LookupPath(d: seq<Block>, pins: set<nat>, ino: Ino, n: nat, i: nat)
    requires Sound(d, pins, ino, n) && i < n
    ensures 27 <= i < 155 ==> ino.indirect1 < |d| && ino.indirect1 !in pins
    ensures 155 <= i < 16539 ==>
              var w := Words(d)(ino.indirect2, (i - 155) / 128);
              ino.indirect2 < |d| && ino.indirect2 !in pins && w < |d| && w !in pins
    ensures i >= 16539 ==>
              var last := i - 16539;
              var w := Words(d)(ino.indirect3, last / 16384);
              var x := Words(d)(w, (last % 16384) / 128);
              ino.indirect3 < |d| && ino.indirect3 !in pins && w < |d| && w !in pins && x < |d| && x !in pins
  {
    hide Words, Subtree, All, Inner, Distinct, Slot, Rest, Cap, Base, BlockList, NoDup, Sound;
    SoundDirect(d, pins, ino, n);
    BlockListParts(Words(d), ino, n);
    var t := Words(d);
    if 27 <= i < 155 {
      BranchWalk(d, pins, ino, n, 1);
    } else if 155 <= i < 16539 {
      BranchWalk(d, pins, ino, n, 2);
      InnerInAll(t, ino.indirect2, 2, Share(n, 2));
      ChildInner(t, ino.indirect2, 2, Share(n, 2), i - 155);
      SlotDiv2(i - 155 + 1);
    } else if i >= 16539 {
      SoundBound(d, pins, ino, n);
      var last := i - 16539;
      BranchWalk(d, pins, ino, n, 3);
      InnerInAll(t, ino.indirect3, 3, Share(n, 3));
      ChildInner(t, ino.indirect3, 3, Share(n, 3), last);
      SlotDiv3(last + 1);
      var w := t(ino.indirect3, last / 16384);
      ChildInner(t, w, 2, Rest(3, last + 1), last % 16384);
      SlotDiv2(last % 16384 + 1);
    }
  }

  lemma SoundBound(d: seq<Block>, pins: set<nat>, ino: Ino, n: nat)
    requires Sound(d, pins, ino, n)
    ensures n <= 2113691
  {
    hide Words, BlockList, NoDup;
    Bases();
  }

  /** Copy `src` into `bytes` at `o`. */
  function Splice(bytes: Block, o: nat, src: seq<byte>): (r: Block)
    requires o + |src| <= BLOCK_SZ
    ensures forall i | 0 <= i < BLOCK_SZ :: r[i] == if o <= i < o + |src| then src[i - o] else bytes[i]
  {
    bytes[..o] + src + bytes[o + |src|..]
  }

  /** One iteration of `read_at`: the part of a block that is copied out. */
  lemma ReadStep(d: seq<Block>, pins: set<nat>, ino: Ino, n: nat, start: nat, end: nat)
    requires Sound(d, pins, ino, n) && start < end <= BLOCK_SZ * n && end <= (start / BLOCK_SZ + 1) * BLOCK_SZ
    ensures var b := BlockOf(d, ino, start / BLOCK_SZ);
            && start / BLOCK_SZ < n && b < |d| && b !in pins && start % BLOCK_SZ + (end - start) <= BLOCK_SZ
            && d[b][start % BLOCK_SZ..start % BLOCK_SZ + (end - start)] == Raw(d, ino, n)[start..end]
  {
    hide BlockOf;
    var k := start / BLOCK_SZ;
    var b := BlockOf(d, ino, k);
    BlockOfSound(d, pins, ino, n, k);
    forall j | start <= j < end ensures Raw(d, ino, n)[j] == d[b][start % BLOCK_SZ + (j - start)] {
      assert j / BLOCK_SZ == k && j % BLOCK_SZ == start % BLOCK_SZ + (j - start);
    }
  }

  /** One iteration of `write_at`: the part of a block that is overwritten. */
  lemma WriteStep(d: seq<Block>, pins: set<nat>, ino: Ino, n: nat, start: nat, src: seq<byte>)
    requires Sound(d, pins, ino, n) && start + |src| <= BLOCK_SZ * n && start / BLOCK_SZ < n
    requires start + |src| <= (start / BLOCK_SZ + 1) * BLOCK_SZ
    ensures start % BLOCK_SZ + |src| <= BLOCK_SZ
    ensures var b := BlockOf(d, ino, start / BLOCK_SZ);
            b < |d| &&
            var d' := d[b := Splice(d[b], start % BLOCK_SZ, src)];
            && Sound(d', pins, ino, n)
            && BlockList(Words(d'), ino, n) == BlockList(Words(d), ino, n)
            && (forall i: nat | i < n :: BlockOf(d', ino, i) == BlockOf(d, ino, i))
            && Raw(d', ino, n) == Raw(d, ino, n)[..start] + src + Raw(d, ino, n)[start + |src|..]
  {
    hide BlockOf, Sound, Words, BlockList, ByteAt, Splice;
    var k := start / BLOCK_SZ;
    var b := BlockOf(d, ino, k);
    BlockOfSound(d, pins, ino, n, k);
    var bytes := Splice(d[b], start % BLOCK_SZ, src);
    WriteBlock(d, pins, ino, n, k, bytes);
    var d' := d[b := bytes];
    BlockBytes(d, ino, n, k);
    SpliceRaw(Raw(d, ino, n), Raw(d', ino, n), start, src, d[b], k);
  }

  lemma BlockBytes(d: seq<Block>, ino: Ino, n: nat, k: nat)
    requires BlockOf(d, ino, k) < |d|
    ensures forall j | 0 <= j < BLOCK_SZ * n && j / BLOCK_SZ == k :: Raw(d, ino, n)[j] == d[BlockOf(d, ino, k)][j % BLOCK_SZ]
  {
    hide BlockOf;
  }

  lemma SpliceRaw(raw: seq<byte>, raw': seq<byte>, start: nat, src: seq<byte>, block: Block, k: nat)
    requires |raw'| == |raw| && start + |src| <= |raw| && k == start / BLOCK_SZ
    requires start % BLOCK_SZ + |src| <= BLOCK_SZ
    requires forall j | 0 <= j < |raw| && j / BLOCK_SZ == k :: raw[j] == block[j % BLOCK_SZ]
    requires forall j | 0 <= j < |raw| :: raw'[j] == if j / BLOCK_SZ == k then Splice(block, start % BLOCK_SZ, src)[j % BLOCK_SZ] else raw[j]
    ensures raw' == raw[..start] + src + raw[start + |src|..]
  {
    hide Splice;
    var r := raw[..start] + src + raw[start + |src|..];
    forall j | 0 <= j < |raw| ensures raw'[j] == r[j] {
      if j / BLOCK_SZ == k {
        SameBlockOffset(start, j);
      }
    }
  }

  lemma SameBlockOffset(start: nat, j: nat)
    requires j / BLOCK_SZ == start / BLOCK_SZ
    ensures j - start == j % BLOCK_SZ - start % BLOCK_SZ
  {
  }

  /** From `d` to `d'`, `src` was written over the file at `start`; only its data blocks changed. */
  ghost predicate Written(d: seq<Block>, d': seq<Block>, pins: set<nat>, ino: Ino, n: nat, start: nat, src: seq<byte>)
  {
    && |ino.direct| == INODE_DIRECT_COUNT && |d'| == |d| && start + |src| <= BLOCK_SZ * n
    && Sound(d, pins, ino, n) && Sound(d', pins, ino, n)
    && BlockList(Words(d'), ino, n) == BlockList(Words(d), ino, n)
    && Raw(d', ino, n) == Raw(d, ino, n)[..start] + src + Raw(d, ino, n)[start + |src|..]
    && (forall x: nat | x < |d| && x !in BlockList(Words(d), ino, n) :: d'[x] == d[x])
  }

  lemma PartWritten(d: seq<Block>, pins: set<nat>, ino: Ino, n: nat, start: nat, src: seq<byte>)
    requires Sound(d, pins, ino, n) && start + |src| <= BLOCK_SZ * n && start / BLOCK_SZ < n
    requires start + |src| <= (start / BLOCK_SZ + 1) * BLOCK_SZ
    ensures start % BLOCK_SZ + |src| <= BLOCK_SZ
    ensures var b := BlockOf(d, ino, start / BLOCK_SZ);
            && b < |d| && b !in pins
            && Written(d, d[b := Splice(d[b], start % BLOCK_SZ, src)], pins, ino, n, start, src)
  {
    hide BlockOf, Sound, Words, BlockList, ByteAt, Splice, Raw;
    WriteStep(d, pins, ino, n, start, src);
    BlockOfSound(d, pins, ino, n, start / BLOCK_SZ);
    SoundDirect(d, pins, ino, n);
  }

  lemma WrittenNothing(d: seq<Block>, pins: set<nat>, ino: Ino, n: nat, start: nat)
    requires Sound(d, pins, ino, n) && start <= BLOCK_SZ * n
    ensures Written(d, d, pins, ino, n, start, [])
  {
    hide Words, BlockList, Raw;
    var raw := Raw(d, ino, n);
    assert raw == raw[..start] + [] + raw[start..];
  }

  lemma WrittenSound(d: seq<Block>, d': seq<Block>, pins: set<nat>, ino: Ino, n: nat, start: nat, src: seq<byte>)
    requires Written(d, d', pins, ino, n, start, src)
    ensures Sound(d', pins, ino, n)
  {
  }

  /** Writing a part and then the next part is writing both. */
  lemma WrittenTrans(d0: seq<Block>, d1: seq<Block>, d2: seq<Block>, pins: set<nat>, ino: Ino, n: nat, start: nat, s1: seq<byte>, s2: seq<byte>)
    requires Written(d0, d1, pins, ino, n, start, s1) && Written(d1, d2, pins, ino, n, start + |s1|, s2)
    ensures Written(d0, d2, pins, ino, n, start, s1 + s2)
  {
    hide Words, BlockList, Raw, Sound;
    SplicedTwice(Raw(d0, ino, n), start, s1, s2);
  }

  lemma SplicedTwice(raw: seq<byte>, start: nat, s1: seq<byte>, s2: seq<byte>)
    requires start + |s1| + |s2| <= |raw|
    ensures var r := raw[..start] + s1 + raw[start + |s1|..];
            r[..start + |s1|] + s2 + r[start + |s1| + |s2|..] == raw[..start] + (s1 + s2) + raw[start + |s1 + s2|..]
  {
  }
}
