/**
 `EasyFileSystem` (easy-fs/src/efs.rs): the area layout, the two allocators, formatting and mounting.
 */
module Efs {
  import opened Options
  import opened Bytes
  import opened BlockCaches
  import opened TreeBuild
  import opened Bitmaps
  import opened Records
  import opened FsState
  import opened FsSteps
  import opened FsSpec

  /** The layout that `create` computes for a device of `totalBlocks` blocks. */
  function CreateLayout(totalBlocks: nat, inodeBitmapBlocks: nat): Layout
    requires CreateFits(totalBlocks, inodeBitmapBlocks)
  {
    var inodeAreaBlocks := (inodeBitmapBlocks * BLOCK_BITS * INODE_SIZE + BLOCK_SZ - 1) / BLOCK_SZ;
    var dataTotalBlocks := totalBlocks - 1 - (inodeBitmapBlocks + inodeAreaBlocks);
    var dataBitmapBlocks := (dataTotalBlocks + 4096) / 4097;
    Layout(totalBlocks, inodeBitmapBlocks, inodeAreaBlocks, dataBitmapBlocks, dataTotalBlocks - dataBitmapBlocks)
  }

  /** The super block and the inode areas fit on the device, and a block number is a `u32`. */
  predicate CreateFits(totalBlocks: nat, inodeBitmapBlocks: nat)
  {
    1 + inodeBitmapBlocks + (inodeBitmapBlocks * BLOCK_BITS * INODE_SIZE + BLOCK_SZ - 1) / BLOCK_SZ <= totalBlocks < U32
  }

  /**
   The five areas tile the device exactly, the inode area has one slot for every inode bit, and the
   data bitmap covers the data area with no block to spare.
   */
  lemma CreateLayoutTiles(totalBlocks: nat, inodeBitmapBlocks: nat)
    requires CreateFits(totalBlocks, inodeBitmapBlocks)
    ensures var l := CreateLayout(totalBlocks, inodeBitmapBlocks);
            && l.Tiled()
            && l.Inodes() * INODE_SIZE == l.inodeAreaBlocks * BLOCK_SZ
            && (l.dataBitmapBlocks > 0 ==> BLOCK_BITS * (l.dataBitmapBlocks - 1) < l.dataAreaBlocks + 1)
  {
    InodeArea(inodeBitmapBlocks);
    DataSplit(totalBlocks - 1 - inodeBitmapBlocks - 1024 * inodeBitmapBlocks);
  }

  /** Four inodes per block: the inode area is 1024 blocks per bitmap block. */
  lemma InodeArea(n: nat)
    ensures (n * BLOCK_BITS * INODE_SIZE + BLOCK_SZ - 1) / BLOCK_SZ == 1024 * n
  {
    assert n * BLOCK_BITS * INODE_SIZE == BLOCK_SZ * (1024 * n);
  }

  /** One bitmap block for every 4097 blocks leaves at most 4096 data blocks for each. */
  lemma DataSplit(t: nat)
    ensures var b := (t + 4096) / 4097;
            b <= t && t - b <= 4096 * b && (b > 0 ==> 4096 * (b - 1) < t - b + 1)
  {
  }

  /** The six words of the super block. */
  function SuperWords(l: Layout): seq<nat>
  {
    [EFS_MAGIC, l.totalBlocks, l.inodeBitmapBlocks, l.inodeAreaBlocks, l.dataBitmapBlocks, l.dataAreaBlocks]
  }

  /** The super block of the volume describes its layout. */
  ghost predicate SuperOk(d: seq<Block>, l: Layout)
  {
    |d| > 0 && forall k: nat | k < 6 :: Get(d[0], 4 * k, 4) == SuperWords(l)[k]
  }

  lemma SuperRoundTrip(d: seq<Block>, l: Layout)
    requires |d| > 0 && l.Tiled()
    ensures SuperOk(d[0 := Patch(d[0], 0, Le32s(SuperWords(l)))], l)
  {
    hide Le32s, Get;
    var ws := SuperWords(l);
    forall k: nat | k < 6 ensures Get(Patch(d[0], 0, Le32s(ws)), 4 * k, 4) == ws[k] {
      Le32sAt(ws, k);
      PatchWord(d[0], 0, Le32s(ws), 4 * k);
    }
  }

  class EasyFileSystem {
    const cache: BlockCacheManager
    const inodeBitmap: Bitmap
    const dataBitmap: Bitmap
    const inodeAreaStartBlock: nat
    const dataAreaStartBlock: nat
    ghost const layout: Layout
    ghost var model: Volume

    /** The fields hold the layout. */
    ghost predicate Wired()
    {
      && inodeBitmap.startBlockId == 1 && inodeBitmap.blocks == layout.inodeBitmapBlocks
      && dataBitmap.startBlockId == layout.DataBitmapStart() && dataBitmap.blocks == layout.dataBitmapBlocks
      && inodeAreaStartBlock == layout.InodeAreaStart() && dataAreaStartBlock == layout.DataStart()
    }

    /** A mounted volume between two operations: no block is locked and the disk holds the volume. */
    ghost predicate Valid()
      reads this, cache
    {
      && Wired() && cache.Valid() && cache.pins == {}
      && SuperOk(cache.disk, layout) && Represents(cache.disk, layout, model)
    }

    constructor (cache: BlockCacheManager, l: Layout, ghost v: Volume)
      ensures Wired() && this.cache == cache && layout == l && model == v
    {
      this.cache := cache;
      inodeBitmap := new Bitmap(1, l.inodeBitmapBlocks);
      dataBitmap := new Bitmap(1 + l.inodeBitmapBlocks + l.inodeAreaBlocks, l.dataBitmapBlocks);
      inodeAreaStartBlock := 1 + l.inodeBitmapBlocks;
      dataAreaStartBlock := 1 + l.inodeBitmapBlocks + l.inodeAreaBlocks + l.dataBitmapBlocks;
      layout := l;
      model := v;
    }

    /** `get_disk_inode_pos`. */
    method GetDiskInodePos(inodeId: nat) returns (blockId: nat, offset: nat)
      requires Wired()
      ensures blockId == InodeBlock(layout, inodeId) && offset == InodeOffset(inodeId)
    {
      var inodesPerBlock := BLOCK_SZ / INODE_SIZE;
      blockId := inodeAreaStartBlock + inodeId / inodesPerBlock;
      offset := (inodeId % inodesPerBlock) * INODE_SIZE;
    }

    /** `alloc_inode`: the next inode number, as inodes are never freed. */
    method AllocInode(ghost count: nat) returns (id: nat)
      requires Wired() && layout.Tiled() && cache.Valid() && cache.pins == {} && |cache.disk| >= layout.totalBlocks
      requires count < layout.Inodes() && forall k: nat | k < layout.Inodes() :: IsSet(cache.disk, 1, k) <==> k < count
      modifies cache
      ensures cache.Valid() && cache.pins == {} && id == count
      ensures BitChange(old(cache.disk), cache.disk, 1, count, true)
    {
      hide BlockCacheManager.Valid, BitChange, IsSet;
      var r := inodeBitmap.Alloc(cache);
      NextInode(old(cache.disk), layout, count, r);
      id := r.value;
    }

    static lemma NextInode(d: seq<Block>, l: Layout, count: nat, r: Option<nat>)
      requires count < l.Inodes() && forall k: nat | k < l.Inodes() :: IsSet(d, 1, k) <==> k < count
      requires r.None? ==> forall j: nat | j < l.Inodes() :: IsSet(d, 1, j)
      requires r.Some? ==> r.value < l.Inodes() && !IsSet(d, 1, r.value) && forall j: nat | j < r.value :: IsSet(d, 1, j)
      ensures r == Some(count)
    {
      hide IsSet;
      assert !IsSet(d, 1, count);
    }

    /**
     `alloc_data`: the least block whose bit is clear; `ok == false` is its failing `unwrap`. The block lies
     in the data area exactly when a block of the data area was free.
     */
    method AllocData() returns (ok: bool, b: nat)
      requires Wired() && layout.Tiled() && cache.Valid() && |cache.pins| < cache.budget && |cache.disk| >= layout.totalBlocks
      requires forall x | x in cache.pins :: x < layout.DataBitmapStart()
      modifies cache
      ensures cache.Valid() && cache.pins == old(cache.pins)
      ensures ok <==> exists k: nat :: k < layout.DataBits() && !IsSet(old(cache.disk), layout.DataBitmapStart(), k)
      ensures !ok ==> cache.disk == old(cache.disk)
      ensures ok ==> layout.DataStart() <= b && (b < layout.totalBlocks <==> FreeBlocks(old(cache.disk), layout) != {})
      ensures ok ==> var k := b - layout.DataStart();
              && !IsSet(old(cache.disk), layout.DataBitmapStart(), k)
              && (forall j: nat | j < k :: IsSet(old(cache.disk), layout.DataBitmapStart(), j))
              && BitChange(old(cache.disk), cache.disk, layout.DataBitmapStart(), k, true)
      ensures FreeBlocks(old(cache.disk), layout) != {} ==> ok
    {
      hide BlockCacheManager.Valid, BitChange, IsSet, FreeBlocks;
      ghost var d := cache.disk;
      var r := dataBitmap.Alloc(cache);
      ok, b := r.Some?, 0;
      if FreeBlocks(d, layout) != {} {
        SomeFree(d, layout);
      }
      if ok {
        LeastInRangeIff(d, layout, r.value);
        b := r.value + dataAreaStartBlock;
      }
    }

    static lemma LeastInRangeIff(d: seq<Block>, l: Layout, k: nat)
      requires l.Tiled() && !IsSet(d, l.DataBitmapStart(), k) && forall j: nat | j < k :: IsSet(d, l.DataBitmapStart(), j)
      ensures k < l.dataAreaBlocks <==> FreeBlocks(d, l) != {}
    {
      hide IsSet;
      if FreeBlocks(d, l) != {} {
        LeastIsInRange(d, l, k);
      }
      if k < l.dataAreaBlocks {
        assert IsFree(d, l, l.DataStart() + k) && l.DataStart() + k in FreeBlocks(d, l);
      }
    }

    static lemma SomeFree(d: seq<Block>, l: Layout)
      requires l.Tiled() && FreeBlocks(d, l) != {}
      ensures exists k: nat :: k < l.DataBits() && !IsSet(d, l.DataBitmapStart(), k)
    {
      hide IsSet;
      var x :| x in FreeBlocks(d, l);
      assert IsFree(d, l, x) && !IsSet(d, l.DataBitmapStart(), x - l.DataStart());
    }

    /** `dealloc_data`: zero the block and clear its bit, whose assertion cannot fail here. */
    method DeallocData(b: nat)
      requires Wired() && layout.Tiled() && cache.Valid() && |cache.pins| < cache.budget && |cache.disk| >= layout.totalBlocks
      requires forall x | x in cache.pins :: x < layout.DataBitmapStart()
      requires layout.DataStart() <= b < layout.totalBlocks && IsSet(cache.disk, layout.DataBitmapStart(), b - layout.DataStart())
      modifies cache
      ensures cache.Valid() && cache.pins == old(cache.pins)
      ensures BitChange(old(cache.disk)[b := ZeroBlock], cache.disk, layout.DataBitmapStart(), b - layout.DataStart(), false)
    {
      hide BlockCacheManager.Valid, BitChange, IsSet;
      cache.Lock(b);
      cache.Modify(b, ZeroBlock);
      cache.Unlock(b);
      BitsSame(old(cache.disk), cache.disk, layout.DataBitmapStart(), layout.dataBitmapBlocks, b - layout.DataStart());
      var ok := dataBitmap.Dealloc(cache, b - dataAreaStartBlock);
      assert ok;
    }
  }
}
