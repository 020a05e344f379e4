/**
 `Inode` (easy-fs/src/vfs.rs): the operations of the file system, each proved to be the operation
 of the abstract volume.
 */
module Vfs {
  import opened Seqs
  import opened Options
  import opened Bytes
  import opened BlockCaches
  import opened TreeBuild
  import opened InodeTree
  import opened InodeGrow
  import opened FileBytes
  import opened DiskInodes
  import opened Bitmaps
  import opened Records
  import opened FsState
  import opened FsSteps
  import opened FsSpec
  import opened Efs

  class Inode {
    const blockId: nat
    const blockOffset: nat
    const fs: EasyFileSystem
    ghost const id: nat

    constructor (blockId: nat, blockOffset: nat, fs: EasyFileSystem, ghost id: nat)
      ensures this.blockId == blockId && this.blockOffset == blockOffset && this.fs == fs && this.id == id
    {
      this.blockId, this.blockOffset, this.fs, this.id := blockId, blockOffset, fs, id;
    }

    /** The handle refers to inode `id` of the volume: 0 is the root directory, `i + 1` is file `i`. */
    ghost predicate Handle()
      reads fs
    {
      && blockId == InodeBlock(fs.layout, id) && blockOffset == InodeOffset(id)
      && id <= |fs.model.names| == |fs.model.files|
    }

    /** The inode object of this handle, taken out of its slot while the slot's block is locked. */
    method TakeDiskInode() returns (ino: DiskInode)
      requires fs.cache.Valid() && fs.cache.pins == {} && blockId < |fs.cache.disk|
      requires blockId == InodeBlock(fs.layout, id) && blockOffset == InodeOffset(id)
      modifies fs.cache
      ensures fresh(ino) && fs.cache.Valid() && fs.cache.pins == {blockId} && fs.cache.disk == old(fs.cache.disk)
      ensures ino.Value() == InodeAt(fs.cache.disk, fs.layout, id)
    {
      hide BlockCacheManager.Valid, GetIno;
      fs.cache.Lock(blockId);
      var bytes := fs.cache.Read(blockId);
      ino := new DiskInode(GetIno(bytes, blockOffset));
    }

    static lemma Slot(d: seq<Block>, l: Layout, v: Volume, id: nat)
      requires Represents(d, l, v) && id <= |v.files|
      ensures InodeBlock(l, id) < |d| && InodeBlock(l, id) < l.DataBitmapStart() && l.Tiled() && |d| >= l.totalBlocks
      ensures InodeOk(d, l, id)
    {
      hide InodeOk, Contents, InodeAt, IsSet, ListOf;
      Areas(l, id);
    }

    /** `increase_size`: allocate what the new size needs and extend the inode. */
    method IncreaseSize(newSize: nat, ino: DiskInode, ghost count: nat) returns (ghost vec: seq<nat>)
      requires fs.Wired() && fs.cache.Valid() && FsOk(fs.cache.disk, fs.layout, count) && id < count
      requires fs.cache.pins == {blockId} && blockId < fs.layout.DataBitmapStart()
      requires ino.Value() == InodeAt(fs.cache.disk, fs.layout, id)
      requires DataBlocks(newSize) <= Base(LEVELS + 1)
      requires newSize >= ino.size ==> TotalBlocks(newSize) <= TotalBlocks(ino.size) + |FreeBlocks(fs.cache.disk, fs.layout)|
      modifies ino, fs.cache
      ensures fs.cache.Valid() && fs.cache.pins == {blockId}
      ensures ino.size == Max(old(ino.size), newSize)
      ensures Extended(old(fs.cache.disk), fs.cache.disk, fs.layout, id, ino.Value(), vec)
    {
      hide BlockCacheManager.Valid, FsOk, Extended, Growable, InoGrown, Allocated, TotalBlocks, InodeAt, BitChange, IsSet, FreeBlocks, DataBlocks, Count, Base;
      ghost var d0, l, n := fs.cache.disk, fs.layout, DataBlocks(newSize);
      if newSize < ino.size {
        ExtendedNone(d0, l, count, id);
        vec := [];
        return;
      }
      GrowthNumbers(d0, l, count, id, newSize);
      var blocksNeeded := TotalBlocks(newSize) - TotalBlocks(ino.size);
      var v: seq<nat> := [];
      AllocatedNone(d0, l);
      for i := 0 to blocksNeeded
        invariant fs.cache.Valid() && fs.cache.pins == {blockId} && |v| == i && unchanged(ino)
        invariant Allocated(d0, fs.cache.disk, l, v)
      {
        ghost var d := fs.cache.disk;
        AllocatedFacts(d0, d, l, count, v);
        var ok, b := fs.AllocData();
        AllocateOne(d0, d, fs.cache.disk, l, v, b - l.DataStart());
        v := v + [b];
      }
      ghost var d1 := fs.cache.disk;
      GrowReady(d0, d1, l, count, id, v, {blockId}, n);
      ino.IncreaseSize(newSize, v, fs.cache);
      GrowDone(d0, d1, fs.cache.disk, l, count, id, ino.Value(), v);
      vec := v;
    }

    static lemma GrowthNumbers(d: seq<Block>, l: Layout, count: nat, id: nat, newSize: nat)
      requires FsOk(d, l, count) && id < count && InodeAt(d, l, id).size <= newSize && DataBlocks(newSize) <= Base(LEVELS + 1)
      ensures newSize < U32
      ensures var e, n := DataBlocks(InodeAt(d, l, id).size), DataBlocks(newSize);
              && e <= n && Count(e, LEVELS) <= Count(n, LEVELS)
              && TotalBlocks(newSize) - TotalBlocks(InodeAt(d, l, id).size) == Count(n, LEVELS) - Count(e, LEVELS)
    {
      hide IsSet, ListOf, Owned, NoDup, Raw, ZeroFrom, InodeAt, Count, Base, TotalBlocks, Apart;
      assert InodeOk(d, l, id);
      TotalBlocksExact(newSize);
      TotalBlocksExact(InodeAt(d, l, id).size);
      CountMonotone(DataBlocks(InodeAt(d, l, id).size), DataBlocks(newSize), LEVELS);
      Bases();
    }

    static lemma AllocatedFacts(d0: seq<Block>, d: seq<Block>, l: Layout, count: nat, v: seq<nat>)
      requires FsOk(d0, l, count) && Allocated(d0, d, l, v)
      ensures l.Tiled() && |d| >= l.totalBlocks
      ensures |v| < |FreeBlocks(d0, l)| ==> FreeBlocks(d, l) != {}
    {
      hide IsSet, InodeOk, ListOf, Owned, NoDup, IsFree;
    }

    /** Put the inode object back into its slot, release the slot's block and write everything back. */
    method PutDiskInode(ino: DiskInode, ghost d0: seq<Block>, ghost count: nat, ghost v: Volume)
      requires fs.Wired() && fs.cache.Valid() && fs.cache.pins == {blockId} && blockId < |fs.cache.disk|
      requires blockId == InodeBlock(fs.layout, id) && blockOffset == InodeOffset(id)
      requires FsOk(d0, fs.layout, count) && id < count && SuperOk(d0, fs.layout)
      requires FileStep(d0, fs.cache.disk, fs.layout, id, ino.Value())
      requires |ino.direct| == INODE_DIRECT_COUNT && Represents(WithSlot(fs.cache.disk, fs.layout, id, ino.Value()), fs.layout, v)
      modifies fs, fs.cache
      ensures fs.Valid() && fs.model == v && fs.cache.device == fs.cache.disk
    {
      hide BlockCacheManager.Valid, FsOk, FileStep, Represents, PutIno;
      SuperKept(d0, fs.cache.disk, fs.layout, count, id, ino.Value());
      var bytes := fs.cache.Read(blockId);
      fs.cache.Modify(blockId, PutIno(bytes, blockOffset, ino.Value()));
      fs.cache.Unlock(blockId);
      fs.cache.SyncAll();
      fs.model := v;
    }

    static lemma WriteRoom(d: seq<Block>, l: Layout, v: Volume, i: nat, off: nat, buf: seq<byte>)
      requires Represents(d, l, v) && i < |v.files| && Allowed(l, v, Write(i, off, buf))
      ensures FsOk(d, l, |v.names| + 1) && InodeAt(d, l, i + 1).size == |v.files[i]|
      ensures Contents(d, InodeAt(d, l, i + 1)) == v.files[i]
      ensures DataBlocks(off + |buf|) <= Base(LEVELS + 1) && off / BLOCK_SZ < DataBlocks(Max(|v.files[i]|, off + |buf|))
      ensures off + |buf| >= |v.files[i]| ==> TotalBlocks(off + |buf|) <= TotalBlocks(|v.files[i]|) + |FreeBlocks(d, l)|
    {
      hide FsOk, InodeAt, TotalBlocks, FreeBlocks, Base, SumBlocks, DirBytes;
      var c := WriteSpec(v.files[i], off, buf);
      assert |c| == Max(|v.files[i]|, off + |buf|);
      assert Apply(v, Write(i, off, buf)).files[i] == c;
      assert Contents(d, InodeAt(d, l, i + 1)) == v.files[i];
      FreeSpace(d, l, v);
      SumUpdate(v.files, i, c);
    }

    static lemma BlockWithin(off: nat, size: nat)
      requires off < size
      ensures off / BLOCK_SZ < DataBlocks(size)
    {
    }

    static lemma ExtendedSound(d0: seq<Block>, d: seq<Block>, l: Layout, count: nat, id: nat, ino: Ino, vec: seq<nat>, pins: set<nat>)
      requires FsOk(d0, l, count) && id < count && Extended(d0, d, l, id, ino, vec) && forall x | x in pins :: x < l.DataStart()
      ensures Sound(d, pins, ino, DataBlocks(ino.size)) && |ino.direct| == INODE_DIRECT_COUNT
    {
      hide IsSet, Owned, NoDup, Raw, ZeroFrom, InodeAt, Count, Base, Apart, BlockList, DataBlocks, Words;
      assert InodeOk(d0, l, id);
      SoundList(d, l, pins, ino, DataBlocks(ino.size));
    }

    /** `write_at`: the file's contents become the abstract write; nothing else changes. */
    method WriteAt(offset: nat, buf: seq<byte>) returns (size: nat)
      requires fs.Valid() && Handle() && id > 0
      requires Allowed(fs.layout, fs.model, Write(id - 1, offset, buf))
      modifies fs, fs.cache
      ensures fs.Valid() && Handle() && size == |buf| && fs.cache.device == fs.cache.disk
      ensures fs.model == Apply(old(fs.model), Write(id - 1, offset, buf))
    {
      hide BlockCacheManager.Valid, FsOk, Extended, TotalBlocks, InodeAt, InodeOk, FreeBlocks, DataBlocks, Base, FileStep, Written, Contents, Represents, SuperOk, WriteSpec, PutIno, Sound, VolumeBlocks;
      ghost var d0, l, v := fs.cache.disk, fs.layout, fs.model;
      WriteRoom(d0, l, v, id - 1, offset, buf);
      Slot(d0, l, v, id);
      var ino := TakeDiskInode();
      ghost var vec := IncreaseSize(offset + |buf|, ino, |v.names| + 1);
      ghost var d2 := fs.cache.disk;
      ExtendedSound(d0, d2, l, |v.names| + 1, id, ino.Value(), vec, {blockId});
      size := ino.WriteAt(offset, buf, fs.cache);
      assert buf[..size] == buf;
      WriteDone(d0, d2, fs.cache.disk, l, |v.names| + 1, id, ino.Value(), vec, {blockId}, offset, buf);
      FileUpdated(d0, fs.cache.disk, l, v, id - 1, ino.Value(), WriteSpec(v.files[id - 1], offset, buf));
      PutDiskInode(ino, d0, |v.names| + 1, v.(files := v.files[id - 1 := WriteSpec(v.files[id - 1], offset, buf)]));
    }

    static lemma HandleSound(d: seq<Block>, l: Layout, v: Volume, id: nat, pins: set<nat>)
      requires Represents(d, l, v) && id <= |v.files| && forall x | x in pins :: x < l.DataStart()
      ensures Sound(d, pins, InodeAt(d, l, id), DataBlocks(InodeAt(d, l, id).size))
      ensures WellFormed(v) && Contents(d, InodeAt(d, l, id)) == if id == 0 then DirBytes(v.names) else v.files[id - 1]
    {
      hide IsSet, Owned, NoDup, Raw, ZeroFrom, InodeAt, Base, Apart, BlockList, DataBlocks, Words, Contents, DirBytes;
      assert InodeOk(d, l, id);
      SoundList(d, l, pins, InodeAt(d, l, id), DataBlocks(InodeAt(d, l, id).size));
      assert id > 0 ==> Contents(d, InodeAt(d, l, (id - 1) + 1)) == v.files[id - 1];
    }

    /** What inode `id` holds: the root its directory entries, any other its file. */
    static ghost function FileOf(v: Volume, id: nat): seq<byte>
      requires id <= |v.files|
    {
      if id == 0 then (if WellFormed(v) then DirBytes(v.names) else []) else v.files[id - 1]
    }

    /** `read_at`: exactly the bytes from `offset` on that the file has and the buffer holds. */
    method ReadAt(offset: nat, buf: array<byte>) returns (n: nat)
      requires fs.Valid() && Handle()
      modifies fs.cache, buf
      ensures fs.Valid() && Handle() && fs.model == old(fs.model)
      ensures var c := FileOf(fs.model, id);
              var end := Min(offset + buf.Length, |c|);
              if offset >= end then n == 0 && buf[..] == old(buf[..])
              else n == end - offset && buf[..] == c[offset..end] + old(buf[..])[n..]
    {
      hide BlockCacheManager.Valid, Represents, InodeAt, Sound, Contents, SuperOk, InodeOk;
      Slot(fs.cache.disk, fs.layout, fs.model, id);
      var ino := TakeDiskInode();
      HandleSound(fs.cache.disk, fs.layout, fs.model, id, {blockId});
      n := ino.ReadAt(offset, buf, fs.cache);
      fs.cache.Unlock(blockId);
    }

    /** `clear`: the file becomes empty. `ok == false` is the failing assertion of `clear_size`. */
    method Clear() returns (ok: bool)
      requires fs.Valid() && Handle() && id > 0
      modifies fs, fs.cache
      ensures ok <==> DataBlocks(|old(fs.model).files[id - 1]|) <= 27 + 128 + 128 * 128 * 128
      ensures ok ==> fs.Valid() && Handle() && fs.cache.device == fs.cache.disk
      ensures ok ==> fs.model == Apply(old(fs.model), FsSpec.Clear(id - 1))
    {
      hide BlockCacheManager.Valid, FsOk, InodeAt, InodeOk, DataBlocks, FileStep, Contents, Represents, SuperOk, PutIno, Sound, Freed, ListOf, BitChange, IsSet, BlockList, InoWords, Cleared, Words, TotalBlocks;
      ghost var d0, l, v := fs.cache.disk, fs.layout, fs.model;
      ClearFacts(d0, l, v, id);
      Slot(d0, l, v, id);
      var ino := TakeDiskInode();
      HandleSound(d0, l, v, id, {blockId});
      ghost var was := ino.Value();
      var blocks: seq<nat>;
      ok, blocks := ino.ClearSize(fs.cache);
      if !ok {
        return;
      }
      assert blocks == ListOf(d0, l, id);
      assert |blocks| == TotalBlocks(was.size) by { ListCounted(d0, l, v, id); }
      FreedNone(d0, l);
      assert blocks[..0] == [];
      for i := 0 to |blocks|
        invariant fs.cache.Valid() && fs.cache.pins == {blockId} && Freed(d0, fs.cache.disk, l, blocks[..i])
        invariant ino.Value() == Cleared(was, DataBlocks(was.size)) && fs.model == v
      {
        ghost var d := fs.cache.disk;
        FreeNext(d0, d, l, |v.names| + 1, id, i);
        fs.DeallocData(blocks[i]);
        FreeOne(d0, d, fs.cache.disk, l, blocks[..i], blocks[i]);
        assert blocks[..i] + [blocks[i]] == blocks[..i + 1];
      }
      assert blocks[..|blocks|] == blocks;
      ClearedWords(was, DataBlocks(was.size));
      ClearDone(d0, fs.cache.disk, l, |v.names| + 1, id, ino.Value());
      FileUpdated(d0, fs.cache.disk, l, v, id - 1, ino.Value(), []);
      PutDiskInode(ino, d0, |v.names| + 1, v.(files := v.files[id - 1 := []]));
    }

    /** The caller's assertion on the number of blocks that `clear_size` returns. */
    static lemma ListCounted(d: seq<Block>, l: Layout, v: Volume, id: nat)
      requires Represents(d, l, v) && id <= |v.files|
      ensures |ListOf(d, l, id)| == TotalBlocks(InodeAt(d, l, id).size)
    {
      hide InodeAt, ListOf, TotalBlocks, DataBlocks, Base, Represents, Raw, ZeroFrom;
      Slot(d, l, v, id);
      ListLength(d, l, id);
    }

    static lemma ClearFacts(d: seq<Block>, l: Layout, v: Volume, id: nat)
      requires Represents(d, l, v) && 0 < id <= |v.files|
      ensures FsOk(d, l, |v.names| + 1) && |v.names| == |v.files| && InodeAt(d, l, id).size == |v.files[id - 1]|
      ensures ListOf(d, l, id) == BlockList(Words(d), InodeAt(d, l, id), DataBlocks(InodeAt(d, l, id).size))
      ensures InoWords(InodeAt(d, l, id))
    {
      hide FsOk, InodeAt, DirBytes, BlockList, Words, DataBlocks, LegalName, InoWords, Raw;
      assert Contents(d, InodeAt(d, l, (id - 1) + 1)) == v.files[id - 1];
      SlotWords(d, l, v, id);
    }

    static lemma SlotWords(d: seq<Block>, l: Layout, v: Volume, id: nat)
      requires Represents(d, l, v) && id <= |v.files|
      ensures InoWords(InodeAt(d, l, id))
    {
      hide GetIno, Represents, InodeOk, InoWords;
      Slot(d, l, v, id);
      GetInoWords(d[InodeBlock(l, id)], InodeOffset(id));
    }

    static lemma ClearedWords(ino: Ino, n: nat)
      requires InoWords(ino)
      ensures InoWords(Cleared(ino, n)) && Cleared(ino, n).size == 0 && Cleared(ino, n).isDir == ino.isDir
    {
    }

    /** The next block to free is still allocated. */
    static lemma FreeNext(d0: seq<Block>, d: seq<Block>, l: Layout, count: nat, id: nat, i: nat)
      requires FsOk(d0, l, count) && id < count && i < |ListOf(d0, l, id)| && Freed(d0, d, l, ListOf(d0, l, id)[..i])
      ensures l.Tiled() && |d| >= l.totalBlocks
      ensures var b := ListOf(d0, l, id)[i];
              l.DataStart() <= b < l.totalBlocks && IsSet(d, l.DataBitmapStart(), b - l.DataStart())
      ensures forall x | x in ListOf(d0, l, id)[..i] :: x >= l.DataStart()
    {
      hide IsSet, Owned, Raw, ZeroFrom, InodeAt, Base, Apart, DataBlocks, ListOf;
      assert InodeOk(d0, l, id);
      var s := ListOf(d0, l, id);
      OwnedBy(d0, l, count, id, s[i]);
      assert s[i] !in s[..i];
      assert forall x | x in s[..i] :: x in s;
    }

    /** What the directory file of the root is to the code that reads it. */
    ghost predicate Directory(ino: DiskInode, names: seq<Name>)
      reads ino, fs, fs.cache
    {
      && fs.cache.Valid() && |fs.cache.pins| < fs.cache.budget
      && Sound(fs.cache.disk, fs.cache.pins, ino.Value(), DataBlocks(ino.size))
      && (forall i | 0 <= i < |names| :: LegalName(names[i])) && |names| + 1 < U32
      && Contents(fs.cache.disk, ino.Value()) == DirBytes(names)
    }

    /** Read entry `i` of the directory. */
    method ReadEntry(ino: DiskInode, i: nat, buf: array<byte>, ghost names: seq<Name>) returns (name: Name, inode: nat)
      requires Directory(ino, names) && i < |names| && buf.Length == DIRENT_SZ
      modifies fs.cache, buf
      ensures Directory(ino, names) && fs.cache.pins == old(fs.cache.pins) && fs.cache.disk == old(fs.cache.disk)
      ensures name == names[i] && inode == i + 1
    {
      hide BlockCacheManager.Valid, Sound, Contents, DirBytes, DirentBytes, NameOf, InodeOf;
      EntrySlice(names, i);
      DirentRoundTrip(names[i], i + 1);
      var n := ino.ReadAt(DIRENT_SZ * i, buf, fs.cache);
      assert n == DIRENT_SZ && buf[..] == DirentBytes(names[i], i + 1);
      name := NameOf(buf[..][..NAME_LENGTH_LIMIT + 1]);
      inode := InodeOf(buf[..]);
    }

    /** `find_inode_id`: the inode number of the entry with this name, if there is one. */
    method FindInodeId(name: Name, ino: DiskInode, ghost names: seq<Name>) returns (r: Option<nat>)
      requires Directory(ino, names) && ino.isDir
      modifies fs.cache
      ensures Directory(ino, names) && fs.cache.pins == old(fs.cache.pins) && fs.cache.disk == old(fs.cache.disk)
      ensures r == if name in names then Some(IndexOf(names, name) + 1) else None
    {
      hide Directory, IndexOf;
      DirCount(ino, names);
      var fileCount := ino.size / DIRENT_SZ;
      var buf := new byte[DIRENT_SZ];
      var i := 0;
      while i < fileCount
        invariant i <= fileCount && Directory(ino, names) && fs.cache.pins == old(fs.cache.pins) && fs.cache.disk == old(fs.cache.disk)
        invariant forall j | 0 <= j < i :: names[j] != name
      {
        var n, inode := ReadEntry(ino, i, buf, names);
        if n == name {
          return Some(inode);
        }
        i := i + 1;
      }
      return None;
    }

    lemma DirCount(ino: DiskInode, names: seq<Name>)
      requires Directory(ino, names)
      ensures ino.size / DIRENT_SZ == |names|
    {
      hide DirBytes, BlockCacheManager.Valid, Sound;
      assert |Contents(fs.cache.disk, ino.Value())| == DIRENT_SZ * |names|;
    }

    /** The root inode object is a directory holding the names of the volume. */
    lemma RootDirectory(ino: DiskInode)
      requires id == 0 && fs.Wired() && fs.cache.Valid() && fs.cache.pins == {blockId} && Represents(fs.cache.disk, fs.layout, fs.model)
      requires blockId == InodeBlock(fs.layout, 0) && ino.Value() == InodeAt(fs.cache.disk, fs.layout, 0)
      ensures Directory(ino, fs.model.names) && ino.isDir
    {
      hide InodeAt, Contents, DirBytes, BlockCacheManager.Valid, IsSet, ListOf, Owned, Raw, ZeroFrom, Apart, Base, NoDup, Sound, DataBlocks;
      var d, l, v := fs.cache.disk, fs.layout, fs.model;
      Slot(d, l, v, 0);
      HandleSound(d, l, v, 0, {blockId});
      FewNames(d, l, v);
    }

    /** The directory's own size keeps inode numbers far below 2^32. */
    static lemma FewNames(d: seq<Block>, l: Layout, v: Volume)
      requires Represents(d, l, v)
      ensures |v.names| + 2 < U32 && InodeAt(d, l, 0).size == DIRENT_SZ * |v.names|
      ensures InodeAt(d, l, 0).isDir
    {
      hide InodeAt, DirBytes, IsSet, ListOf, Owned, Raw, ZeroFrom, Apart, NoDup, Base;
      assert InodeOk(d, l, 0);
      assert |Contents(d, InodeAt(d, l, 0))| == DIRENT_SZ * |v.names|;
      Bases();
      SizeFits(InodeAt(d, l, 0).size);
    }

    /** `find`: a handle to the file with this name. */
    method Find(name: Name) returns (r: Option<Inode>)
      requires fs.Valid() && Handle() && id == 0
      modifies fs.cache
      ensures fs.Valid() && fs.model == old(fs.model)
      ensures r.Some? <==> name in fs.model.names
      ensures r.Some? ==> fresh(r.value) && r.value.fs == fs && r.value.Handle() && r.value.id > 0 && fs.model.names[r.value.id - 1] == name
    {
      hide BlockCacheManager.Valid, Represents, InodeAt, SuperOk, InodeOk, Directory;
      Slot(fs.cache.disk, fs.layout, fs.model, 0);
      var ino := TakeDiskInode();
      RootDirectory(ino);
      var f := FindInodeId(name, ino, fs.model.names);
      DirValid(ino);
      fs.cache.Unlock(blockId);
      if f.None? {
        return None;
      }
      var b, o := fs.GetDiskInodePos(f.value);
      var handle := new Inode(b, o, fs, f.value);
      return Some(handle);
    }

    lemma DirValid(ino: DiskInode)
      requires Directory(ino, fs.model.names)
      ensures fs.cache.Valid()
    {
    }

    /** `ls`: the names in order of creation. */
    method Ls() returns (v: seq<Name>)
      requires fs.Valid() && Handle() && id == 0
      modifies fs.cache
      ensures fs.Valid() && fs.model == old(fs.model)
      ensures v == fs.model.names
    {
      hide BlockCacheManager.Valid, Represents, InodeAt, SuperOk, InodeOk, Directory;
      Slot(fs.cache.disk, fs.layout, fs.model, 0);
      var ino := TakeDiskInode();
      RootDirectory(ino);
      ghost var names := fs.model.names;
      DirCount(ino, names);
      var fileCount := ino.size / DIRENT_SZ;
      v := [];
      var buf := new byte[DIRENT_SZ];
      for i := 0 to fileCount
        invariant Directory(ino, names) && fs.cache.pins == {blockId} && fs.cache.disk == old(fs.cache.disk)
        invariant v == names[..i] && fs.model == old(fs.model)
      {
        var n, inode := ReadEntry(ino, i, buf, names);
        v := v + [n];
      }
      DirValid(ino);
      fs.cache.Unlock(blockId);
    }

    /** Room for one more entry, in terms of the volume after the inode was added. */
    static lemma CreateRoom(d0: seq<Block>, d: seq<Block>, l: Layout, v: Volume, name: Name)
      requires Represents(d0, l, v) && Allowed(l, v, FsSpec.Create(name)) && name !in v.names
      requires FreeBlocks(d, l) == FreeBlocks(d0, l)
      ensures DataBlocks(DIRENT_SZ * |v.names| + DIRENT_SZ) <= Base(LEVELS + 1)
      ensures TotalBlocks(DIRENT_SZ * |v.names| + DIRENT_SZ) <= TotalBlocks(DIRENT_SZ * |v.names|) + |FreeBlocks(d, l)|
    {
      hide FsOk, InodeAt, TotalBlocks, FreeBlocks, Base, SumBlocks, DirBytes, DataBlocks;
      FreeSpace(d0, l, v);
      var v' := Apply(v, FsSpec.Create(name));
      assert v'.files[..|v.files|] == v.files && v'.files[|v.files|] == [];
      SumAppend(v.files, []);
      assert DIRENT_SZ * (|v.names| + 1) == DIRENT_SZ * |v.names| + DIRENT_SZ;
    }

    static lemma SumAppend(files: seq<seq<byte>>, c: seq<byte>)
      ensures SumBlocks(files + [c]) == SumBlocks(files) + TotalBlocks(|c|)
    {
      hide TotalBlocks;
      assert (files + [c])[..|files|] == files;
    }

    /** Allocate the next inode and make it an empty file. */
    method NewFile() returns (newId: nat)
      requires fs.Valid() && |fs.model.names| + 1 < fs.layout.Inodes()
      modifies fs.cache
      ensures fs.cache.Valid() && fs.cache.pins == {} && newId == |fs.model.names| + 1
      ensures |fs.cache.disk| == |old(fs.cache.disk)| > 0 && fs.cache.disk[0] == old(fs.cache.disk)[0]
      ensures FsOk(fs.cache.disk, fs.layout, newId + 1) && InodeAt(fs.cache.disk, fs.layout, newId) == NewIno(false)
      ensures forall j: nat | j < newId ::
                && InodeAt(fs.cache.disk, fs.layout, j) == InodeAt(old(fs.cache.disk), fs.layout, j)
                && Contents(fs.cache.disk, InodeAt(fs.cache.disk, fs.layout, j)) == Contents(old(fs.cache.disk), InodeAt(old(fs.cache.disk), fs.layout, j))
      ensures FreeBlocks(fs.cache.disk, fs.layout) == FreeBlocks(old(fs.cache.disk), fs.layout)
    {
      hide BlockCacheManager.Valid, InodeAt, Contents, InodeOk, Owned, IsSet, ListOf, FreeBlocks, PutIno, NewIno, DirBytes;
      ghost var d0, l := fs.cache.disk, fs.layout;
      newId := fs.AllocInode(|fs.model.names| + 1);
      AddInode(d0, fs.cache.disk, l, newId);
      Areas(l, newId);
      NewInoWords(false);
      var b, o := fs.GetDiskInodePos(newId);
      fs.cache.Lock(b);
      var bytes := fs.cache.Read(b);
      fs.cache.Modify(b, PutIno(bytes, o, NewIno(false)));
      fs.cache.Unlock(b);
    }

    static lemma SuperSame(d: seq<Block>, d': seq<Block>, l: Layout)
      requires SuperOk(d, l) && |d'| > 0 && d'[0] == d[0]
      ensures SuperOk(d', l)
    {
    }

    static lemma MoreInodes(l: Layout, v: Volume, name: Name)
      requires Allowed(l, v, FsSpec.Create(name)) && name !in v.names
      ensures |v.names| + 1 < l.Inodes() && LegalName(name)
    {
      hide VolumeBlocks;
    }

    /** The disk `d` is `d0` with one more inode, an empty file that has no name yet. */
    static ghost predicate Added(d0: seq<Block>, d: seq<Block>, l: Layout, v: Volume)
    {
      var newId := |v.names| + 1;
      && Represents(d0, l, v) && SuperOk(d, l)
      && FsOk(d, l, newId + 1) && InodeAt(d, l, newId) == NewIno(false)
      && (forall j: nat | j < newId ::
            InodeAt(d, l, j) == InodeAt(d0, l, j) && Contents(d, InodeAt(d, l, j)) == Contents(d0, InodeAt(d0, l, j)))
      && FreeBlocks(d, l) == FreeBlocks(d0, l)
    }

    static lemma AddedFacts(d0: seq<Block>, d: seq<Block>, l: Layout, v: Volume)
      requires Added(d0, d, l, v)
      ensures Contents(d, InodeAt(d, l, 0)) == DirBytes(v.names) && InodeAt(d, l, 0).size == DIRENT_SZ * |v.names| && InodeAt(d, l, 0).isDir
      ensures forall i: nat | i < |v.files| :: Contents(d, InodeAt(d, l, i + 1)) == v.files[i]
      ensures Contents(d, InodeAt(d, l, |v.names| + 1)) == []
      ensures |v.names| + 2 < U32 && WellFormed(v) && FsOk(d, l, |v.names| + 2)
      ensures InodeBlock(l, 0) < |d| && InodeBlock(l, 0) < l.DataBitmapStart()
    {
      hide FsOk, InodeAt, DirBytes, SuperOk, FreeBlocks;
      FewNames(d0, l, v);
      Slot(d0, l, v, 0);
      forall i: nat | i < |v.files| ensures Contents(d, InodeAt(d, l, i + 1)) == v.files[i] {
        assert Contents(d0, InodeAt(d0, l, i + 1)) == v.files[i];
      }
      LargeEnough(d0, d, l, v);
    }

    static lemma LargeEnough(d0: seq<Block>, d: seq<Block>, l: Layout, v: Volume)
      requires Added(d0, d, l, v)
      ensures |d| >= l.totalBlocks
    {
      hide InodeAt, DirBytes, SuperOk, FreeBlocks, InodeOk, IsSet, Contents, ListOf, Owned, Apart;
    }

    /** Append the entry of the new inode to the directory. */
    method AppendName(name: Name, newId: nat, ghost d0: seq<Block>, ghost v: Volume)
      requires fs.Wired() && fs.cache.Valid() && fs.cache.pins == {} && id == 0
      requires blockId == InodeBlock(fs.layout, 0) && blockOffset == InodeOffset(0)
      requires Added(d0, fs.cache.disk, fs.layout, v) && newId == |v.names| + 1
      requires Allowed(fs.layout, v, FsSpec.Create(name)) && name !in v.names
      modifies fs, fs.cache
      ensures fs.Valid() && fs.model == Volume(v.names + [name], v.files + [[]]) && fs.cache.device == fs.cache.disk
    {
      hide BlockCacheManager.Valid, FsOk, Extended, TotalBlocks, InodeAt, FreeBlocks, DataBlocks, Base, FileStep, Written, Contents, SuperOk, WriteSpec, PutIno, Sound, VolumeBlocks, DirBytes, DirentBytes, Allowed;
      ghost var d, l := fs.cache.disk, fs.layout;
      AddedFacts(d0, d, l, v);
      CreateRoom(d0, d, l, v, name);
      MoreInodes(l, v, name);
      var root := TakeDiskInode();
      var fileCount := root.size / DIRENT_SZ;
      var newSize := (fileCount + 1) * DIRENT_SZ;
      ghost var vec := IncreaseSize(newSize, root, newId + 1);
      ghost var d2 := fs.cache.disk;
      ExtendedSound(d, d2, l, newId + 1, 0, root.Value(), vec, {blockId});
      BlockWithin(fileCount * DIRENT_SZ, root.size);
      var entry := DirentBytes(name, newId);
      var size := root.WriteAt(fileCount * DIRENT_SZ, entry, fs.cache);
      assert entry[..size] == entry;
      WriteDone(d, d2, fs.cache.disk, l, newId + 1, 0, root.Value(), vec, {blockId}, fileCount * DIRENT_SZ, entry);
      AppendEntry(v.names, name);
      AppendWrite(DirBytes(v.names), entry);
      NameAdded(d, fs.cache.disk, l, v, root.Value(), name);
      PutDiskInode(root, d, newId + 1, Volume(v.names + [name], v.files + [[]]));
    }

    /** `create`: a new empty file at the end of the directory, or `None` when the name is taken. */
    method Create(name: Name) returns (r: Option<Inode>)
      requires fs.Valid() && Handle() && id == 0 && Allowed(fs.layout, fs.model, FsSpec.Create(name))
      modifies fs, fs.cache
      ensures fs.Valid() && Handle() && fs.model == Apply(old(fs.model), FsSpec.Create(name))
      ensures r.Some? <==> name !in old(fs.model).names
      ensures r.Some? ==> fresh(r.value) && r.value.fs == fs && r.value.Handle() && r.value.id == |fs.model.names|
                          && fs.cache.device == fs.cache.disk
    {
      hide BlockCacheManager.Valid, Represents, InodeAt, SuperOk, InodeOk, Directory;
      ghost var d0, l, v := fs.cache.disk, fs.layout, fs.model;
      Slot(d0, l, v, 0);
      var root := TakeDiskInode();
      RootDirectory(root);
      var f := FindInodeId(name, root, v.names);
      DirValid(root);
      fs.cache.Unlock(blockId);
      if f.Some? {
        return None;
      }
      MoreInodes(l, v, name);
      var newId := NewFile();
      SuperSame(d0, fs.cache.disk, l);
      AppendName(name, newId, d0, v);
      var b, o := fs.GetDiskInodePos(newId);
      var handle := new Inode(b, o, fs, newId);
      return Some(handle);
    }
  }
}
