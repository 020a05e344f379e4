/**
 Formatting and mounting a volume (easy-fs/src/efs.rs:24-113), and running any sequence of
 operations on it.
 */
module Mount {
  import opened Seqs
  import opened Bytes
  import opened Bits
  import opened BlockCaches
  import opened TreeBuild
  import opened InodeTree
  import opened FileBytes
  import opened Bitmaps
  import opened Records
  import opened FsState
  import opened FsSteps
  import opened FsSpec
  import opened Efs
  import opened Vfs

  lemma ZeroWord(k: nat)
    requires k < BLOCK_BITS
    ensures !BlockBit(ZeroBlock, k)
  {
    hide Get, Bit;
    GetZeros(ZeroBlock, 8 * (k / 64), 8);
    BitOfZero(k % 64);
  }

  lemma ZeroBits(d: seq<Block>, start: nat, k: nat)
    requires start + k / BLOCK_BITS < |d| ==> d[start + k / BLOCK_BITS] == ZeroBlock
    ensures !IsSet(d, start, k)
  {
    hide BlockBit;
    ZeroWord(k % BLOCK_BITS);
  }

  /** All blocks of the volume but the super block are zero. */
  ghost predicate Blank(d: seq<Block>, l: Layout)
  {
    && l.Tiled() && l.inodeBitmapBlocks >= 1 && |d| >= l.totalBlocks && SuperOk(d, l)
    && forall x: nat | 0 < x < l.totalBlocks :: d[x] == ZeroBlock
  }

  /** A blank device with the root inode allocated and initialised is the empty volume. */
  lemma Formatted(d: seq<Block>, d1: seq<Block>, l: Layout)
    requires Blank(d, l) && BitChange(d, d1, 1, 0, true)
    ensures InodeBlock(l, 0) < |d1|
    ensures var d' := WithSlot(d1, l, 0, NewIno(true));
            SuperOk(d', l) && Represents(d', l, Empty)
  {
    hide Words, BlockList, Base, InodeAt, IsSet, Raw, Count, NoDup, NewIno, PutIno, BlockBit, Get, DataBlocks, InodeBlock;
    Areas(l, 0);
    NewInoWords(true);
    var d' := WithSlot(d1, l, 0, NewIno(true));
    AddedBlocks(d, d1, d', l, 0, NewIno(true));
    FormattedBits(d, d1, d', l);
    OwnSlot(d1, l, 0, NewIno(true));
    NewInodeOk(d', l, 0);
    forall x: nat ensures !Owned(d', l, 1, x) {
    }
    EmptyContents(d', true);
  }

  lemma BlankBits(d: seq<Block>, l: Layout)
    requires Blank(d, l)
    ensures forall k: nat | k < l.Inodes() :: !IsSet(d, 1, k)
  {
    hide IsSet, SuperOk;
    forall k: nat | k < l.Inodes() ensures !IsSet(d, 1, k) {
      ZeroBits(d, 1, k);
    }
  }

  lemma FormattedBits(d: seq<Block>, d1: seq<Block>, d': seq<Block>, l: Layout)
    requires Blank(d, l) && BitChange(d, d1, 1, 0, true)
    requires InodeBlock(l, 0) < |d1| && d' == WithSlot(d1, l, 0, NewIno(true))
    ensures forall k: nat | k < l.Inodes() :: IsSet(d', 1, k) <==> k < 1
    ensures forall k: nat | k < l.DataBits() :: !IsSet(d', l.DataBitmapStart(), k)
  {
    hide IsSet, WithSlot, InodeBlock, SuperOk, Layout.Tiled;
    AddedBlocks(d, d1, d', l, 0, NewIno(true));
    BlankBits(d, l);
    forall k: nat | k < l.Inodes() ensures IsSet(d', 1, k) <==> k < 1 {
      BitsSame(d1, d', 1, l.inodeBitmapBlocks, k);
    }
    forall k: nat | k < l.DataBits() ensures !IsSet(d', l.DataBitmapStart(), k) {
      BitsSame(d, d', l.DataBitmapStart(), l.dataBitmapBlocks, k);
      ZeroArea(d, l.DataBitmapStart(), l.dataBitmapBlocks, k);
    }
  }

  lemma ZeroArea(d: seq<Block>, start: nat, blocks: nat, k: nat)
    requires k < BLOCK_BITS * blocks && start + blocks <= |d| && forall x: nat | start <= x < start + blocks :: d[x] == ZeroBlock
    ensures !IsSet(d, start, k)
  {
    hide IsSet;
    ZeroBits(d, start, k);
  }

  lemma EmptyContents(d: seq<Block>, isDir: bool)
    ensures Contents(d, NewIno(isDir)) == []
  {
  }

  /** Overwrite every block of the volume with zeros. */
  method Wipe(cache: BlockCacheManager, totalBlocks: nat)
    requires cache.Valid() && cache.pins == {} && |cache.disk| >= totalBlocks
    modifies cache
    ensures cache.Valid() && cache.pins == {} && |cache.disk| == |old(cache.disk)|
    ensures forall x: nat | x < totalBlocks :: cache.disk[x] == ZeroBlock
  {
    hide BlockCacheManager.Valid;
    for i := 0 to totalBlocks
      invariant cache.Valid() && cache.pins == {} && |cache.disk| == |old(cache.disk)|
      invariant forall x: nat | x < i :: cache.disk[x] == ZeroBlock
    {
      cache.Lock(i);
      cache.Modify(i, ZeroBlock);
      cache.Unlock(i);
    }
  }

  /** `EasyFileSystem::create`: format a device as an empty volume. */
  method Format(cache: BlockCacheManager, totalBlocks: nat, inodeBitmapBlocks: nat) returns (fs: EasyFileSystem)
    requires cache.Valid() && cache.pins == {} && |cache.disk| >= totalBlocks
    requires CreateFits(totalBlocks, inodeBitmapBlocks) && inodeBitmapBlocks >= 1
    modifies cache
    ensures fresh(fs) && fs.cache == cache && fs.layout == CreateLayout(totalBlocks, inodeBitmapBlocks)
    ensures fs.Valid() && fs.model == Empty && cache.device == cache.disk
  {
    hide BlockCacheManager.Valid, SuperOk, Represents, PutIno, BitChange, IsSet, NewIno, CreateLayout, Le32s;
    CreateLayoutTiles(totalBlocks, inodeBitmapBlocks);
    LayoutFields(totalBlocks, inodeBitmapBlocks);
    var l := CreateLayout(totalBlocks, inodeBitmapBlocks);
    fs := new EasyFileSystem(cache, l, Empty);
    Wipe(cache, totalBlocks);
    SuperRoundTrip(cache.disk, l);
    cache.Lock(0);
    var bytes := cache.Read(0);
    cache.Modify(0, Patch(bytes, 0, Le32s(SuperWords(l))));
    cache.Unlock(0);
    ghost var d := cache.disk;
    BlankBits(d, l);
    var root := fs.AllocInode(0);
    assert root == 0;
    Formatted(d, cache.disk, l);
    NewInoWords(true);
    var b, o := fs.GetDiskInodePos(0);
    cache.Lock(b);
    bytes := cache.Read(b);
    cache.Modify(b, PutIno(bytes, o, NewIno(true)));
    cache.Unlock(b);
    cache.SyncAll();
  }

  lemma LayoutFields(totalBlocks: nat, inodeBitmapBlocks: nat)
    requires CreateFits(totalBlocks, inodeBitmapBlocks)
    ensures var l := CreateLayout(totalBlocks, inodeBitmapBlocks);
            l.totalBlocks == totalBlocks && l.inodeBitmapBlocks == inodeBitmapBlocks
  {
  }

  /** The layout that a super block describes. */
  function LayoutOf(bytes: Block): Layout
  {
    Layout(Get(bytes, 4, 4), Get(bytes, 8, 4), Get(bytes, 12, 4), Get(bytes, 16, 4), Get(bytes, 20, 4))
  }

  /** `EasyFileSystem::open`: mount a device. `null` is the failing check of the magic number. */
  method Open(cache: BlockCacheManager, ghost v: Volume) returns (fs: EasyFileSystem?)
    requires cache.Valid() && cache.pins == {} && |cache.disk| > 0
    modifies cache
    ensures cache.Valid() && cache.pins == {} && cache.disk == old(cache.disk)
    ensures fs != null <==> Get(cache.disk[0], 0, 4) == EFS_MAGIC
    ensures fs != null ==> fresh(fs) && fs.Wired() && fs.cache == cache && fs.layout == LayoutOf(cache.disk[0]) && fs.model == v
  {
    hide BlockCacheManager.Valid, Get;
    cache.Lock(0);
    var bytes := cache.Read(0);
    cache.Unlock(0);
    if Get(bytes, 0, 4) != EFS_MAGIC {
      return null;
    }
    fs := new EasyFileSystem(cache, LayoutOf(bytes), v);
  }

  /** Mounting finds the layout that formatting recorded. */
  lemma OpenFindsLayout(d: seq<Block>, l: Layout)
    requires SuperOk(d, l)
    ensures Get(d[0], 0, 4) == EFS_MAGIC && LayoutOf(d[0]) == l
  {
    hide Get;
    assert Get(d[0], 4 * 0, 4) == EFS_MAGIC;
    assert Get(d[0], 4 * 1, 4) == l.totalBlocks;
    assert Get(d[0], 4 * 2, 4) == l.inodeBitmapBlocks;
    assert Get(d[0], 4 * 3, 4) == l.inodeAreaBlocks;
    assert Get(d[0], 4 * 4, 4) == l.dataBitmapBlocks;
    assert Get(d[0], 4 * 5, 4) == l.dataAreaBlocks;
  }

  /** Mounting the device of a volume after any synchronised operation gives the same volume. */
  method Remount(fs: EasyFileSystem) returns (fs': EasyFileSystem)
    requires fs.Valid() && fs.cache.device == fs.cache.disk
    ensures fresh(fs') && fresh(fs'.cache) && fs'.Valid() && fs'.layout == fs.layout && fs'.model == fs.model
  {
    hide BlockCacheManager.Valid, SuperOk, Represents, LayoutOf, Get;
    ghost var d := fs.cache.disk;
    var cache := new BlockCacheManager(fs.cache.device, fs.cache.budget);
    OpenFindsLayout(d, fs.layout);
    NotEmpty(d, fs.layout);
    var mounted := Open(cache, fs.model);
    fs' := mounted;
  }

  lemma NotEmpty(d: seq<Block>, l: Layout)
    requires SuperOk(d, l)
    ensures |d| > 0
  {
  }

  /** `root_inode`. */
  method RootInode(fs: EasyFileSystem) returns (root: Inode)
    requires fs.Valid()
    ensures fresh(root) && root.fs == fs && root.id == 0 && root.Handle()
  {
    hide BlockCacheManager.Valid, SuperOk, FsOk, Contents;
    var b, o := fs.GetDiskInodePos(0);
    root := new Inode(b, o, fs, 0);
  }

  /** One operation, issued by name through the root directory. */
  method Perform(root: Inode, op: Op)
    requires root.fs.Valid() && root.Handle() && root.id == 0
    requires Allowed(root.fs.layout, root.fs.model, op)
    modifies root.fs, root.fs.cache
    ensures root.fs.Valid() && root.Handle() && root.fs.model == Apply(old(root.fs.model), op)
  {
    hide BlockCacheManager.Valid, SuperOk, FsOk, Contents, Represents, Fits, WriteSpec, DataBlocks;
    ModelWellFormed(root.fs.cache.disk, root.fs.layout, root.fs.model);
    match op {
      case Create(name) =>
        var r := root.Create(name);
      case Write(i, offset, buf) =>
        var names := root.Ls();
        var r := root.Find(names[i]);
        var n := r.value.WriteAt(offset, buf);
      case Clear(i) =>
        var names := root.Ls();
        var r := root.Find(names[i]);
        var ok := r.value.Clear();
    }
  }

  lemma ModelWellFormed(d: seq<Block>, l: Layout, v: Volume)
    requires Represents(d, l, v)
    ensures WellFormed(v)
  {
  }

  /** Any run of operations on a mounted volume is the same run on the abstract volume. */
  method Run(fs: EasyFileSystem, ops: seq<Op>)
    requires fs.Valid() && AllAllowed(fs.layout, fs.model, ops)
    modifies fs, fs.cache
    ensures fs.Valid() && fs.model == ApplyAll(old(fs.model), ops)
  {
    hide EasyFileSystem.Valid, Allowed;
    var root := RootInode(fs);
    ghost var v := fs.model;
    for i := 0 to |ops|
      invariant fs.Valid() && root.Handle() && fs.model == ApplyAll(v, ops[..i])
      invariant AllAllowed(fs.layout, v, ops)
    {
      AllowedAt(fs.layout, v, ops, i);
      Perform(root, ops[i]);
      assert ops[..i + 1][..i] == ops[..i];
    }
    assert ops[..|ops|] == ops;
  }

  /**
   The whole life of a volume: format a device, run any operations that are allowed, synchronise, and
   mount the device afresh. The new mount finds exactly what the operations amount to.
   */
  method FormatRunRemount(cache: BlockCacheManager, totalBlocks: nat, inodeBitmapBlocks: nat, ops: seq<Op>) returns (fs: EasyFileSystem)
    requires cache.Valid() && cache.pins == {} && |cache.disk| >= totalBlocks
    requires CreateFits(totalBlocks, inodeBitmapBlocks) && inodeBitmapBlocks >= 1
    requires AllAllowed(CreateLayout(totalBlocks, inodeBitmapBlocks), Empty, ops)
    modifies cache
    ensures fresh(fs.cache) && fs.Valid() && fs.model == ApplyAll(Empty, ops)
  {
    hide BlockCacheManager.Valid, SuperOk, Represents, CreateLayout, AllAllowed, ApplyAll;
    var first := Format(cache, totalBlocks, inodeBitmapBlocks);
    Run(first, ops);
    cache.SyncAll();
    fs := Remount(first);
  }

  lemma {:induction false} AllowedAt(l: Layout, v: Volume, ops: seq<Op>, i: nat)
    requires AllAllowed(l, v, ops) && i < |ops|
    ensures Allowed(l, ApplyAll(v, ops[..i]), ops[i])
  {
    hide Allowed, ApplyAll;
    if i < |ops| - 1 {
      var m := ops[..|ops| - 1];
      AllowedAt(l, v, m, i);
      assert m[..i] == ops[..i];
    }
  }
}
