/**
 The state of a whole easy-fs volume: where its areas lie, which inodes and blocks are in use and
 what every reachable volume satisfies.
 */
module FsState {
  import opened Seqs
  import opened Bytes
  import opened BlockCaches
  import opened IndexTree
  import opened TreeBuild
  import opened InodeTree
  import opened InodeGrow
  import opened FileBytes
  import opened Bitmaps
  import opened Records

  /** The sizes of the five areas, as the super block records them. */
  datatype Layout = Layout(totalBlocks: nat, inodeBitmapBlocks: nat, inodeAreaBlocks: nat, dataBitmapBlocks: nat, dataAreaBlocks: nat)
  {
    function InodeAreaStart(): nat { 1 + inodeBitmapBlocks }
    function DataBitmapStart(): nat { 1 + inodeBitmapBlocks + inodeAreaBlocks }
    function DataStart(): nat { 1 + inodeBitmapBlocks + inodeAreaBlocks + dataBitmapBlocks }

    function Inodes(): nat { BLOCK_BITS * inodeBitmapBlocks }
    function DataBits(): nat { BLOCK_BITS * dataBitmapBlocks }

    /** The areas tile the device, every inode has a slot and every data block a bit. */
    ghost predicate Tiled()
    {
      && DataStart() + dataAreaBlocks == totalBlocks < U32
      && Inodes() * INODE_SIZE <= inodeAreaBlocks * BLOCK_SZ
      && dataAreaBlocks <= DataBits()
    }
  }

  function NoDirect(n: nat): (s: seq<nat>)
    ensures |s| == n && forall i | 0 <= i < n :: s[i] == 0
  {
    if n == 0 then [] else NoDirect(n - 1) + [0]
  }

  /** The inode that `initialize` leaves in a slot. */
  function NewIno(isDir: bool): Ino { Ino(0, NoDirect(INODE_DIRECT_COUNT), 0, 0, 0, isDir) }

  /** `get_disk_inode_pos`. */
  function InodeBlock(l: Layout, id: nat): nat { l.InodeAreaStart() + id / 4 }
  function InodeOffset(id: nat): (o: nat) ensures o + INODE_SIZE <= BLOCK_SZ { (id % 4) * INODE_SIZE }

  ghost function InodeAt(d: seq<Block>, l: Layout, id: nat): (ino: Ino)
    ensures |ino.direct| == INODE_DIRECT_COUNT
  {
    if InodeBlock(l, id) < |d| then GetIno(d[InodeBlock(l, id)], InodeOffset(id)) else NewIno(false)
  }

  /** All blocks that inode `id` uses. */
  ghost function ListOf(d: seq<Block>, l: Layout, id: nat): seq<nat>
  {
    var ino := InodeAt(d, l, id);
    BlockList(Words(d), ino, DataBlocks(ino.size))
  }

  ghost predicate ZeroFrom(s: seq<byte>, i: nat)
  {
    forall j | i <= j < |s| :: s[j] == 0
  }

  /** One inode in use: its blocks are distinct and lie in the data area, and bytes past its size are zero. */
  ghost predicate InodeOk(d: seq<Block>, l: Layout, id: nat)
  {
    && DataBlocks(InodeAt(d, l, id).size) <= Base(LEVELS + 1)
    && NoDup(ListOf(d, l, id))
    && (forall x | x in ListOf(d, l, id) :: l.DataStart() <= x < l.totalBlocks)
    && ZeroFrom(Raw(d, InodeAt(d, l, id), DataBlocks(InodeAt(d, l, id).size)), InodeAt(d, l, id).size)
    && (InodeAt(d, l, id).isDir <==> id == 0)
  }

  ghost predicate Apart(s: seq<nat>, t: seq<nat>)
  {
    forall x | x in s :: x !in t
  }

  ghost predicate Owned(d: seq<Block>, l: Layout, count: nat, x: nat)
  {
    exists id: nat :: id < count && x in ListOf(d, l, id)
  }

  /**
   A consistent volume with `count` inodes: no block is shared, leaked or free and in use, and
   free data blocks are all zero.
   */
  ghost predicate FsOk(d: seq<Block>, l: Layout, count: nat)
  {
    && l.Tiled() && |d| >= l.totalBlocks && 1 <= count <= l.Inodes()
    && (forall k: nat | k < l.Inodes() :: IsSet(d, 1, k) <==> k < count)
    && (forall id: nat | id < count :: InodeOk(d, l, id))
    && (forall i: nat, j: nat | i < count && j < count && i != j :: Apart(ListOf(d, l, i), ListOf(d, l, j)))
    && (forall k: nat | k < l.DataBits() :: IsSet(d, l.DataBitmapStart(), k) <==> Owned(d, l, count, l.DataStart() + k))
    && (forall k: nat | k < l.dataAreaBlocks && !IsSet(d, l.DataBitmapStart(), k) :: d[l.DataStart() + k] == ZeroBlock)
  }

  /** Inode `id` and all its blocks are the same on both disks. */
  ghost predicate SameInode(d: seq<Block>, d': seq<Block>, l: Layout, id: nat)
  {
    && |d'| == |d|
    && InodeAt(d', l, id) == InodeAt(d, l, id)
    && (forall x | x in ListOf(d, l, id) && x < |d| :: d'[x] == d[x])
  }

  lemma SameInodeFacts(d: seq<Block>, d': seq<Block>, l: Layout, id: nat)
    requires SameInode(d, d', l, id) && InodeOk(d, l, id) && |d| >= l.totalBlocks
    ensures ListOf(d', l, id) == ListOf(d, l, id) && InodeOk(d', l, id)
    ensures Contents(d', InodeAt(d', l, id)) == Contents(d, InodeAt(d, l, id))
  {
    hide Words, BlockList, IndexBlocks, BlockOf, Base, NoDup, Separate, Blocks, Count, DataBlocks, InodeAt;
    var ino := InodeAt(d, l, id);
    var n := DataBlocks(ino.size);
    NoDupBlockList(Words(d), ino, n);
    IndexInBlocks(Words(d), ino, n, LEVELS);
    BlocksInList(Words(d), ino, n);
    BlockOfFrame(d, d', ino, n);
    SameRaw(d, d', ino, n);
  }

  lemma BlocksInList(t: Table, ino: Ino, n: nat)
    requires |ino.direct| == INODE_DIRECT_COUNT
    ensures forall x | x in Blocks(t, ino, n, LEVELS) :: x in BlockList(t, ino, n)
  {
    hide Lists, Blocks;
    BlocksAreLists(t, ino, n, LEVELS);
  }

  lemma SameRaw(d: seq<Block>, d': seq<Block>, ino: Ino, n: nat)
    requires |ino.direct| == INODE_DIRECT_COUNT && n <= Base(LEVELS + 1) && |d'| == |d|
    requires forall i: nat | i < n :: BlockOf(d', ino, i) == BlockOf(d, ino, i)
    requires forall x | x in BlockList(Words(d), ino, n) && x < |d| :: d'[x] == d[x]
    ensures Raw(d', ino, n) == Raw(d, ino, n)
  {
    hide Words, BlockList, BlockOf, Base, Count;
    forall j | 0 <= j < BLOCK_SZ * n ensures ByteAt(d', ino, j) == ByteAt(d, ino, j) {
      BlockOfAt(d, ino, n, j / BLOCK_SZ);
      assert BlockOf(d, ino, j / BLOCK_SZ) in BlockList(Words(d), ino, n);
    }
  }

  /** An operation on inode `id` alone keeps the volume consistent and every other file's contents. */
  lemma UpdateInode(d: seq<Block>, d': seq<Block>, l: Layout, count: nat, id: nat)
    requires FsOk(d, l, count) && id < count && |d'| == |d|
    requires forall k: nat | k < l.Inodes() :: IsSet(d', 1, k) <==> IsSet(d, 1, k)
    requires forall j: nat | j < count && j != id :: SameInode(d, d', l, j)
    requires InodeOk(d', l, id)
    requires forall j: nat | j < count && j != id :: Apart(ListOf(d', l, id), ListOf(d, l, j))
    requires forall k: nat | k < l.DataBits() ::
               IsSet(d', l.DataBitmapStart(), k) <==>
               l.DataStart() + k in ListOf(d', l, id)
               || (IsSet(d, l.DataBitmapStart(), k) && l.DataStart() + k !in ListOf(d, l, id))
    requires forall k: nat | k < l.dataAreaBlocks && !IsSet(d', l.DataBitmapStart(), k) :: d'[l.DataStart() + k] == ZeroBlock
    ensures FsOk(d', l, count)
    ensures forall j: nat | j < count && j != id ::
              InodeAt(d', l, j) == InodeAt(d, l, j) && Contents(d', InodeAt(d', l, j)) == Contents(d, InodeAt(d, l, j))
  {
    hide ListOf, InodeOk, InodeAt, IsSet, Contents;
    forall j: nat | j < count && j != id
      ensures ListOf(d', l, j) == ListOf(d, l, j) && InodeOk(d', l, j)
      ensures InodeAt(d', l, j) == InodeAt(d, l, j) && Contents(d', InodeAt(d', l, j)) == Contents(d, InodeAt(d, l, j))
    {
      SameInodeFacts(d, d', l, j);
    }
    forall k: nat | k < l.DataBits()
      ensures IsSet(d', l.DataBitmapStart(), k) <==> Owned(d', l, count, l.DataStart() + k)
    {
      OwnedUpdate(d, d', l, count, id, l.DataStart() + k);
    }
  }

  lemma OwnedUpdate(d: seq<Block>, d': seq<Block>, l: Layout, count: nat, id: nat, x: nat)
    requires id < count
    requires forall j: nat | j < count && j != id :: ListOf(d', l, j) == ListOf(d, l, j)
    requires forall j: nat | j < count && j != id :: Apart(ListOf(d, l, id), ListOf(d, l, j))
    ensures Owned(d', l, count, x) <==> x in ListOf(d', l, id) || (Owned(d, l, count, x) && x !in ListOf(d, l, id))
  {
    hide ListOf;
    if Owned(d', l, count, x) {
      var j: nat :| j < count && x in ListOf(d', l, j);
      if j != id {
        assert x in ListOf(d, l, j);
      }
    }
    if Owned(d, l, count, x) && x !in ListOf(d, l, id) {
      var j: nat :| j < count && x in ListOf(d, l, j);
      assert x in ListOf(d', l, j);
    }
  }

  // One operation on one inode, from the disk it started with to the disk with its slot rewritten.

  lemma Areas(l: Layout, id: nat)
    requires l.Tiled() && id < l.Inodes()
    ensures l.InodeAreaStart() <= InodeBlock(l, id) < l.DataBitmapStart() <= l.DataStart() <= l.totalBlocks
  {
  }

  /** Slots of other inodes are not touched by rewriting slot `id`. */
  lemma OtherSlot(d: seq<Block>, l: Layout, id: nat, ino: Ino, j: nat)
    requires InodeBlock(l, id) < |d| && |ino.direct| == INODE_DIRECT_COUNT && j != id
    ensures var b := InodeBlock(l, id);
            InodeAt(d[b := PutIno(d[b], InodeOffset(id), ino)], l, j) == InodeAt(d, l, j)
  {
    hide GetIno;
    var b := InodeBlock(l, id);
    if InodeBlock(l, j) == b {
      SlotFrame(d[b], PutIno(d[b], InodeOffset(id), ino), InodeOffset(j));
    }
  }

  lemma OwnSlot(d: seq<Block>, l: Layout, id: nat, ino: Ino)
    requires InodeBlock(l, id) < |d| && InoWords(ino)
    ensures var b := InodeBlock(l, id);
            InodeAt(d[b := PutIno(d[b], InodeOffset(id), ino)], l, id) == ino
  {
    hide GetIno, PutIno;
    InoRoundTrip(d[InodeBlock(l, id)], InodeOffset(id), ino);
  }

  /** Two disks that agree on an inode's blocks agree on its lists and bytes. */
  lemma SameBlocks(d: seq<Block>, d': seq<Block>, ino: Ino, n: nat)
    requires |ino.direct| == INODE_DIRECT_COUNT && n <= Base(LEVELS + 1) && |d'| == |d|
    requires forall x | x in BlockList(Words(d), ino, n) && x < |d| :: d'[x] == d[x]
    ensures BlockList(Words(d'), ino, n) == BlockList(Words(d), ino, n)
    ensures Raw(d', ino, n) == Raw(d, ino, n)
  {
    hide Words, BlockList, IndexBlocks, BlockOf, Base, Blocks;
    IndexInBlocks(Words(d), ino, n, LEVELS);
    BlocksInList(Words(d), ino, n);
    BlockOfFrame(d, d', ino, n);
    SameRaw(d, d', ino, n);
  }

  /** What an operation on inode `id` may have done before it rewrites the slot. */
  ghost predicate FileStep(d0: seq<Block>, d: seq<Block>, l: Layout, id: nat, ino: Ino)
  {
    && |d| == |d0| && InoWords(ino) && (ino.isDir <==> id == 0)
    && DataBlocks(ino.size) <= Base(LEVELS + 1)
    && NoDup(NewList(d, ino))
    && (forall x | x in NewList(d, ino) :: l.DataStart() <= x < l.totalBlocks)
    && (forall x | x in NewList(d, ino) :: x in ListOf(d0, l, id) || !IsSet(d0, l.DataBitmapStart(), x - l.DataStart()))
    && (forall x: nat | x < |d0| && !(l.DataBitmapStart() <= x < l.DataStart()) && x !in NewList(d, ino) && x !in ListOf(d0, l, id) ::
          d[x] == d0[x])
    && (forall x | x in ListOf(d0, l, id) && x !in NewList(d, ino) && x < |d| :: d[x] == ZeroBlock)
    && (forall k: nat | k < l.DataBits() ::
          IsSet(d, l.DataBitmapStart(), k) <==>
          l.DataStart() + k in NewList(d, ino) || (IsSet(d0, l.DataBitmapStart(), k) && l.DataStart() + k !in ListOf(d0, l, id)))
    && ZeroFrom(Raw(d, ino, DataBlocks(ino.size)), ino.size)
  }

  ghost function NewList(d: seq<Block>, ino: Ino): seq<nat>
    requires |ino.direct| == INODE_DIRECT_COUNT
  {
    BlockList(Words(d), ino, DataBlocks(ino.size))
  }

  ghost function WithSlot(d: seq<Block>, l: Layout, id: nat, ino: Ino): seq<Block>
    requires InodeBlock(l, id) < |d| && |ino.direct| == INODE_DIRECT_COUNT
  {
    d[InodeBlock(l, id) := PutIno(d[InodeBlock(l, id)], InodeOffset(id), ino)]
  }

  lemma OwnNew(d0: seq<Block>, d: seq<Block>, l: Layout, count: nat, id: nat, ino: Ino)
    requires FsOk(d0, l, count) && id < count && FileStep(d0, d, l, id, ino)
    ensures InodeBlock(l, id) < |d|
    ensures var d' := WithSlot(d, l, id, ino);
            && InodeAt(d', l, id) == ino && ListOf(d', l, id) == NewList(d, ino) && InodeOk(d', l, id)
            && Contents(d', ino) == Contents(d, ino)
  {
    hide Words, BlockList, NoDup, Base, InodeAt, PutIno, IsSet, DataBlocks;
    Areas(l, id);
    var d' := WithSlot(d, l, id, ino);
    OwnSlot(d, l, id, ino);
    SameBlocks(d, d', ino, DataBlocks(ino.size));
  }

  lemma OtherSame(d0: seq<Block>, d: seq<Block>, l: Layout, count: nat, id: nat, ino: Ino, j: nat)
    requires FsOk(d0, l, count) && id < count && FileStep(d0, d, l, id, ino) && j < count && j != id
    ensures InodeBlock(l, id) < |d|
    ensures SameInode(d0, WithSlot(d, l, id, ino), l, j)
    ensures Apart(NewList(d, ino), ListOf(d0, l, j))
  {
    hide Words, BlockList, NoDup, Base, InodeAt, PutIno, IsSet, DataBlocks, ListOf, NewList, Raw, Contents;
    Areas(l, id);
    Areas(l, j);
    assert InodeOk(d0, l, id);
    OtherSlot(d, l, id, ino, j);
    SlotSame(d0, d, l, j);
    forall x | x in ListOf(d0, l, j)
      ensures x !in NewList(d, ino) && (x < |d| ==> WithSlot(d, l, id, ino)[x] == d0[x])
    {
      assert InodeOk(d0, l, j);
      OwnedBy(d0, l, count, j, x);
      assert x !in ListOf(d0, l, id);
    }
  }

  lemma SlotSame(d0: seq<Block>, d: seq<Block>, l: Layout, j: nat)
    requires |d| == |d0| && (InodeBlock(l, j) < |d| ==> d[InodeBlock(l, j)] == d0[InodeBlock(l, j)])
    ensures InodeAt(d, l, j) == InodeAt(d0, l, j)
  {
  }

  /** A block on some inode's list has its bit set. */
  lemma OwnedBy(d: seq<Block>, l: Layout, count: nat, j: nat, x: nat)
    requires FsOk(d, l, count) && j < count && x in ListOf(d, l, j)
    ensures l.DataStart() <= x < l.totalBlocks && IsSet(d, l.DataBitmapStart(), x - l.DataStart())
  {
    hide ListOf, IsSet, InodeAt, Raw, NoDup, Base, DataBlocks;
    assert InodeOk(d, l, j);
    assert Owned(d, l, count, l.DataStart() + (x - l.DataStart()));
  }

  lemma BitsSame(d: seq<Block>, d': seq<Block>, start: nat, blocks: nat, k: nat)
    requires |d'| == |d| && k < BLOCK_BITS * blocks && forall x: nat | start <= x < start + blocks && x < |d| :: d'[x] == d[x]
    ensures IsSet(d', start, k) == IsSet(d, start, k)
  {
    hide BlockBit;
  }

  /** Rewriting the slot completes the operation: the volume is consistent and no other file changed. */
  lemma FinishStep(d0: seq<Block>, d: seq<Block>, l: Layout, count: nat, id: nat, ino: Ino)
    requires FsOk(d0, l, count) && id < count && FileStep(d0, d, l, id, ino)
    ensures InodeBlock(l, id) < |d|
    ensures var d' := WithSlot(d, l, id, ino);
            && FsOk(d', l, count) && InodeAt(d', l, id) == ino && Contents(d', ino) == Contents(d, ino)
            && forall j: nat | j < count && j != id ::
                 InodeAt(d', l, j) == InodeAt(d0, l, j) && Contents(d', InodeAt(d', l, j)) == Contents(d0, InodeAt(d0, l, j))
  {
    hide Words, BlockList, NoDup, Base, InodeAt, PutIno, IsSet, DataBlocks, ListOf, NewList, Raw, Contents, InodeOk, Owned, ZeroFrom;
    Areas(l, id);
    var d' := WithSlot(d, l, id, ino);
    OwnNew(d0, d, l, count, id, ino);
    forall j: nat | j < count && j != id
      ensures SameInode(d0, d', l, j) && Apart(ListOf(d', l, id), ListOf(d0, l, j))
    {
      OtherSame(d0, d, l, count, id, ino, j);
    }
    FinishBits(d0, d, l, count, id, ino);
    UpdateInode(d0, d', l, count, id);
  }

  lemma FinishBits(d0: seq<Block>, d: seq<Block>, l: Layout, count: nat, id: nat, ino: Ino)
    requires FsOk(d0, l, count) && id < count && FileStep(d0, d, l, id, ino) && InodeBlock(l, id) < |d|
    ensures var d' := WithSlot(d, l, id, ino);
            && (forall k: nat | k < l.Inodes() :: IsSet(d', 1, k) <==> IsSet(d0, 1, k))
            && (forall k: nat | k < l.DataBits() :: IsSet(d', l.DataBitmapStart(), k) <==> IsSet(d, l.DataBitmapStart(), k))
            && (forall k: nat | k < l.dataAreaBlocks && !IsSet(d', l.DataBitmapStart(), k) :: d'[l.DataStart() + k] == ZeroBlock)
  {
    hide Words, BlockList, NoDup, Base, InodeAt, PutIno, IsSet, DataBlocks, ListOf, NewList, Raw, Contents, Owned, ZeroFrom;
    Areas(l, id);
    var d' := WithSlot(d, l, id, ino);
    assert InodeOk(d0, l, id);
    forall k: nat | k < l.Inodes() ensures IsSet(d', 1, k) <==> IsSet(d0, 1, k) {
      BitsSame(d0, d', 1, l.inodeBitmapBlocks, k);
    }
    forall k: nat | k < l.DataBits() ensures IsSet(d', l.DataBitmapStart(), k) <==> IsSet(d, l.DataBitmapStart(), k) {
      BitsSame(d, d', l.DataBitmapStart(), l.dataBitmapBlocks, k);
    }
    forall k: nat | k < l.dataAreaBlocks && !IsSet(d', l.DataBitmapStart(), k)
      ensures d'[l.DataStart() + k] == ZeroBlock
    {
      assert !IsSet(d, l.DataBitmapStart(), k);
    }
  }

  /** The super block is never touched. */
  lemma SuperKept(d0: seq<Block>, d: seq<Block>, l: Layout, count: nat, id: nat, ino: Ino)
    requires FsOk(d0, l, count) && id < count && FileStep(d0, d, l, id, ino) && InodeBlock(l, id) < |d|
    ensures WithSlot(d, l, id, ino)[0] == d0[0]
  {
    hide Words, BlockList, NoDup, Base, InodeAt, PutIno, IsSet, DataBlocks, ListOf, NewList, Raw, Owned, ZeroFrom;
    assert InodeOk(d0, l, id);
  }
}
