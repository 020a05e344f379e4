/**
 `DiskInode` (easy-fs/src/layout.rs:93-568): the operations on an inode that has been taken from
 its slot in a cached block.
 */
module DiskInodes {
  import opened Bytes
  import opened BlockCaches
  import opened IndexTree
  import opened TreeBuild
  import opened TreeFill
  import opened InodeTree
  import opened InodeGrow
  import opened FileBytes

  class DiskInode {
    var size: nat
    var direct: seq<nat>
    var indirect1: nat
    var indirect2: nat
    var indirect3: nat
    var isDir: bool

    function Value(): Ino
      reads this
    {
      Ino(size, direct, indirect1, indirect2, indirect3, isDir)
    }

    constructor (ino: Ino)
      ensures Value() == ino
    {
      size, direct, isDir := ino.size, ino.direct, ino.isDir;
      indirect1, indirect2, indirect3 := ino.indirect1, ino.indirect2, ino.indirect3;
    }

    /** The direct entries (easy-fs/src/layout.rs:207-211). */
    method FillDirect(cache: BlockCacheManager, vec: seq<nat>, cur: nat, tot: nat) returns (pos: nat, e: nat)
      requires Growable(cache.disk, cache.pins, Value(), vec, 0, cur, tot)
      modifies this
      ensures size == old(size) && isDir == old(isDir)
      ensures e == Max(cur, Min(tot, INODE_DIRECT_COUNT))
      ensures InoGrown(cache.disk, cache.disk, old(Value()), Value(), vec, 0, pos, cur, e)
      ensures Growable(cache.disk, cache.pins, Value(), vec, pos, e, tot)
    {
      hide Growable, InoGrown;
      ghost var d, i0 := cache.disk, Value();
      GrowableFacts(d, cache.pins, i0, vec, 0, cur, tot);
      InoGrownNot(d, i0, vec, 0, cur);
      pos, e := 0, cur;
      while e < Min(tot, INODE_DIRECT_COUNT)
        invariant cur <= e <= Max(cur, Min(tot, INODE_DIRECT_COUNT))
        invariant size == old(size) && isDir == old(isDir)
        invariant InoGrown(d, d, i0, Value(), vec, 0, pos, cur, e)
        invariant Growable(d, cache.pins, Value(), vec, pos, e, tot)
      {
        ghost var ino := Value();
        GrowableFacts(d, cache.pins, ino, vec, pos, e, tot);
        direct := direct[e := vec[pos]];
        DirectStep(d, ino, Value(), vec, pos, e);
        InoGrownTrans(d, d, d, i0, ino, Value(), vec, 0, pos, pos + 1, cur, e, e + 1);
        GrowableNext(d, d, cache.pins, ino, Value(), vec, pos, pos + 1, e, e + 1, tot);
        pos, e := pos + 1, e + 1;
      }
    }

    /** Entering a level: its root is taken from the iterator when the level is first used. */
    method EnterLevel(h: nat, cache: BlockCacheManager, vec: seq<nat>, pos: nat, cur: nat, ghost n: nat) returns (p: nat)
      requires 1 <= h <= LEVELS && Base(h) < n && Base(h) + cur <= n
      requires Growable(cache.disk, cache.pins, Value(), vec, pos, Base(h) + cur, n)
      modifies this
      ensures size == old(size)
      ensures PhaseRoot(old(Value()), Value(), vec, pos, p, h, Base(h) + cur)
    {
      hide Growable, Base;
      GrowableFacts(cache.disk, cache.pins, Value(), vec, pos, Base(h) + cur, n);
      p := pos;
      if cur == 0 {
        if h == 1 {
          indirect1 := vec[pos];
        } else if h == 2 {
          indirect2 := vec[pos];
        } else {
          indirect3 := vec[pos];
        }
        p := pos + 1;
      }
    }

    /** `indirect1` and its entries (easy-fs/src/layout.rs:212-230). */
    method GrowLevel1(cache: BlockCacheManager, vec: seq<nat>, pos: nat, cur: nat, tot: nat) returns (pos': nat, next: nat)
      requires cache.Valid() && |cache.pins| + LEVELS <= cache.budget && tot > 0
      requires Growable(cache.disk, cache.pins, Value(), vec, pos, 27 + cur, 27 + tot)
      modifies this, cache
      ensures cache.Valid() && cache.pins == old(cache.pins) && size == old(size)
      ensures next == Max(cur, Min(tot, 128))
      ensures InoGrown(old(cache.disk), cache.disk, old(Value()), Value(), vec, pos, pos', 27 + cur, 27 + next)
      ensures Growable(cache.disk, cache.pins, Value(), vec, pos', 27 + next, 27 + tot)
    {
      hide Growable, InoGrown, Phase, PhaseRoot, Buildable, Grown, Share, Base, BlockCacheManager.Valid, SameButRoot;
      ghost var d, pins, ino, e, n := cache.disk, cache.pins, Value(), 27 + cur, 27 + tot;
      Bases();
      Caps();
      GrowableFacts(d, pins, ino, vec, pos, e, n);
      var p := EnterLevel(1, cache, vec, pos, cur, n);
      PhaseNumbers(1, e, n);
      ghost var e' := Max(e, Min(n, Base(2)));
      PhaseReady(d, pins, ino, Value(), vec, pos, p, 1, e, e', n);
      pos', next := FillIndirect1(cache, indirect1, vec, p, cur, tot);
      PhaseDone(d, cache.disk, pins, ino, Value(), vec, pos, p, pos', 1, e, e', n);
      GrowableNext(d, cache.disk, pins, ino, Value(), vec, pos, pos', e, e', n);
    }

    /** `indirect2` and the two levels under it (easy-fs/src/layout.rs:231-266). */
    method GrowLevel2(cache: BlockCacheManager, vec: seq<nat>, pos: nat, cur: nat, tot: nat) returns (pos': nat, next: nat)
      requires cache.Valid() && |cache.pins| + LEVELS <= cache.budget && tot > 0
      requires Growable(cache.disk, cache.pins, Value(), vec, pos, 155 + cur, 155 + tot)
      modifies this, cache
      ensures cache.Valid() && cache.pins == old(cache.pins) && size == old(size)
      ensures next == Max(cur, Min(tot, 16384))
      ensures InoGrown(old(cache.disk), cache.disk, old(Value()), Value(), vec, pos, pos', 155 + cur, 155 + next)
      ensures Growable(cache.disk, cache.pins, Value(), vec, pos', 155 + next, 155 + tot)
    {
      hide Growable, InoGrown, Phase, PhaseRoot, Buildable, Grown, Share, Base, BlockCacheManager.Valid, SameButRoot;
      ghost var d, pins, ino, e, n := cache.disk, cache.pins, Value(), 155 + cur, 155 + tot;
      Bases();
      Caps();
      GrowableFacts(d, pins, ino, vec, pos, e, n);
      var p := EnterLevel(2, cache, vec, pos, cur, n);
      PhaseNumbers(2, e, n);
      ghost var e' := Max(e, Min(n, Base(3)));
      PhaseReady(d, pins, ino, Value(), vec, pos, p, 2, e, e', n);
      pos', next := FillIndirect2(cache, indirect2, vec, p, cur, tot);
      PhaseDone(d, cache.disk, pins, ino, Value(), vec, pos, p, pos', 2, e, e', n);
      GrowableNext(d, cache.disk, pins, ino, Value(), vec, pos, pos', e, e', n);
    }

    /** `indirect3` and the three levels under it (easy-fs/src/layout.rs:267-287). */
    method GrowLevel3(cache: BlockCacheManager, vec: seq<nat>, pos: nat, cur: nat, tot: nat) returns (pos': nat, next: nat)
      requires cache.Valid() && |cache.pins| + LEVELS <= cache.budget && tot > 0
      requires Growable(cache.disk, cache.pins, Value(), vec, pos, 16539 + cur, 16539 + tot)
      modifies this, cache
      ensures cache.Valid() && cache.pins == old(cache.pins) && size == old(size)
      ensures next == Max(cur, Min(tot, 2097152))
      ensures InoGrown(old(cache.disk), cache.disk, old(Value()), Value(), vec, pos, pos', 16539 + cur, 16539 + next)
      ensures Growable(cache.disk, cache.pins, Value(), vec, pos', 16539 + next, 16539 + tot)
    {
      hide Growable, InoGrown, Phase, PhaseRoot, Buildable, Grown, Share, Base, BlockCacheManager.Valid, SameButRoot;
      ghost var d, pins, ino, e, n := cache.disk, cache.pins, Value(), 16539 + cur, 16539 + tot;
      Bases();
      Caps();
      GrowableFacts(d, pins, ino, vec, pos, e, n);
      var p := EnterLevel(3, cache, vec, pos, cur, n);
      PhaseNumbers(3, e, n);
      ghost var e' := Max(e, Min(n, Base(4)));
      PhaseReady(d, pins, ino, Value(), vec, pos, p, 3, e, e', n);
      ClampFromZero(cur, tot);
      pos', next := BuildTree(cache, vec, p, indirect3, 0, cur, tot, 0);
      PhaseDone(d, cache.disk, pins, ino, Value(), vec, pos, p, pos', 3, e, e', n);
      GrowableNext(d, cache.disk, pins, ino, Value(), vec, pos, pos', e, e', n);
    }

    static lemma ClampFromZero(cur: nat, tot: nat)
      ensures Clamp(cur, 0, 3) == Min(cur, Cap(3)) && Clamp(tot, 0, 3) == Min(tot, Cap(3))
    {
    }

    /** `increase_size`: extend the file, given exactly the blocks that this needs. */
    method IncreaseSize(newSize: nat, vec: seq<nat>, cache: BlockCacheManager)
      requires cache.Valid() && |cache.pins| + LEVELS <= cache.budget
      requires Growable(cache.disk, cache.pins, Value(), vec, 0, DataBlocks(size), DataBlocks(newSize))
      modifies this, cache
      ensures cache.Valid() && cache.pins == old(cache.pins)
      ensures size == newSize
      ensures InoGrown(old(cache.disk), cache.disk, old(Value()), Value(), vec, 0, |vec|, old(DataBlocks(size)), DataBlocks(newSize))
    {
      hide Growable, InoGrown, Base, BlockCacheManager.Valid, DataBlocks;
      ghost var d0, pins, i0 := cache.disk, cache.pins, Value();
      var cur := DataBlocks(size);
      size := newSize;
      var tot := DataBlocks(size);
      ghost var n0, n := cur, tot;
      ResizeOnly(d0, pins, i0, newSize, vec, n0, n);
      Bases();
      var pos;
      ghost var i1 := Value();
      pos, cur := FillDirect(cache, vec, cur, tot);
      InoGrownTrans(d0, d0, d0, i0, i1, Value(), vec, 0, 0, pos, n0, n0, cur);
      GrowableFacts(d0, pins, Value(), vec, pos, cur, n);
      if tot <= 27 {
        return;
      }
      cur, tot := cur - 27, tot - 27;
      ghost var d, ino, e, p := cache.disk, Value(), 27 + cur, pos;
      pos, cur := GrowLevel1(cache, vec, pos, cur, tot);
      InoGrownTrans(d0, d, cache.disk, i0, ino, Value(), vec, 0, p, pos, n0, e, 27 + cur);
      GrowableFacts(cache.disk, pins, Value(), vec, pos, 27 + cur, n);
      if tot <= 128 {
        return;
      }
      cur, tot := cur - 128, tot - 128;
      d, ino, e, p := cache.disk, Value(), 155 + cur, pos;
      pos, cur := GrowLevel2(cache, vec, pos, cur, tot);
      InoGrownTrans(d0, d, cache.disk, i0, ino, Value(), vec, 0, p, pos, n0, e, 155 + cur);
      GrowableFacts(cache.disk, pins, Value(), vec, pos, 155 + cur, n);
      if tot <= 16384 {
        return;
      }
      cur, tot := cur - 16384, tot - 16384;
      d, ino, e, p := cache.disk, Value(), 16539 + cur, pos;
      pos, cur := GrowLevel3(cache, vec, pos, cur, tot);
      InoGrownTrans(d0, d, cache.disk, i0, ino, Value(), vec, 0, p, pos, n0, e, 16539 + cur);
      GrowableFacts(cache.disk, pins, Value(), vec, pos, 16539 + cur, n);
    }

    /** The direct entries (easy-fs/src/layout.rs:378-383). */
    method ClearDirect(n: nat) returns (v: seq<nat>)
      requires |direct| == INODE_DIRECT_COUNT
      modifies this`direct
      ensures v == old(direct)[..Min(n, INODE_DIRECT_COUNT)]
      ensures direct == ZeroPrefix(old(direct), Min(n, INODE_DIRECT_COUNT))
    {
      hide ZeroPrefix;
      v := [];
      var cur := 0;
      ZeroNothing(direct);
      while cur < Min(n, INODE_DIRECT_COUNT)
        invariant cur <= Min(n, INODE_DIRECT_COUNT) && |direct| == INODE_DIRECT_COUNT
        invariant v == old(direct)[..cur] && direct == ZeroPrefix(old(direct), cur)
      {
        ZeroNext(old(direct), cur);
        v := v + [direct[cur]];
        direct := direct[cur := 0];
        cur := cur + 1;
      }
    }

    /**
     `clear_size`: forget all blocks and return them for deallocation. `ok == false` is the failing
     assertion that at most 128^3 blocks lie under `indirect2` and `indirect3`.
     */
    method ClearSize(cache: BlockCacheManager) returns (ok: bool, v: seq<nat>)
      requires cache.Valid() && |cache.pins| + LEVELS <= cache.budget
      requires Sound(cache.disk, cache.pins, Value(), DataBlocks(size))
      modifies this, cache
      ensures cache.Valid() && cache.pins == old(cache.pins) && cache.disk == old(cache.disk)
      ensures ok <==> old(DataBlocks(size)) <= 27 + 128 + 128 * 128 * 128
      ensures ok ==> v == BlockList(Words(cache.disk), old(Value()), old(DataBlocks(size)))
      ensures ok ==> Value() == Cleared(old(Value()), old(DataBlocks(size)))
    {
      hide Sound, Words, Subtree, BlockList, Share, Walkable, BlockCacheManager.Valid, DataBlocks, ZeroPrefix;
      ghost var d, pins, ino := cache.disk, cache.pins, Value();
      var n := DataBlocks(size);
      ghost var n0 := n;
      SoundDirect(d, pins, ino, n0);
      BlockListParts(Words(d), ino, n0);
      size := 0;
      v := ClearDirect(n);
      if n <= INODE_DIRECT_COUNT {
        return true, v;
      }
      v := v + [indirect1];
      n := n - INODE_DIRECT_COUNT;
      BranchWalk(d, pins, ino, n0, 1);
      v := CollectEntries(cache, indirect1, Min(n, FANOUT), v);
      indirect1 := 0;
      if n <= FANOUT {
        return true, v;
      }
      v := v + [indirect2];
      n := n - FANOUT;
      BranchWalk(d, pins, ino, n0, 2);
      v := CollectIndirect2(cache, indirect2, Min(n, INODE_INDIRECT2_COUNT), v);
      indirect2 := 0;
      if n > INODE_INDIRECT3_COUNT {
        return false, v;
      }
      if n <= INODE_INDIRECT2_COUNT {
        return true, v;
      }
      v := v + [indirect3];
      n := n - INODE_INDIRECT2_COUNT;
      BranchWalk(d, pins, ino, n0, 3);
      ClampFromZero(0, n);
      Caps();
      var last;
      v, last := CollectTree(cache, v, indirect3, 0, n, 0);
      indirect3 := 0;
      ok := true;
    }

    /** Read one entry of an index block. */
    static method ReadEntry(cache: BlockCacheManager, b: nat, i: nat) returns (v: nat)
      requires cache.Valid() && |cache.pins| < cache.budget && b < |cache.disk| && b !in cache.pins && i < FANOUT
      modifies cache
      ensures cache.Valid() && cache.pins == old(cache.pins) && cache.disk == old(cache.disk)
      ensures v == Words(cache.disk)(b, i)
    {
      hide BlockCacheManager.Valid, Entry;
      cache.Lock(b);
      var bytes := cache.Read(b);
      EntryAt(cache.disk, b, i);
      v := Entry(bytes, i);
      cache.Unlock(b);
    }

    /** `get_block_id`: the block that holds data block `innerId`. */
    method GetBlockId(innerId: nat, cache: BlockCacheManager, ghost n: nat) returns (id: nat)
      requires cache.Valid() && |cache.pins| < cache.budget
      requires Sound(cache.disk, cache.pins, Value(), n) && innerId < n
      modifies cache
      ensures cache.Valid() && cache.pins == old(cache.pins) && cache.disk == old(cache.disk)
      ensures id == BlockOf(cache.disk, Value(), innerId)
    {
      hide BlockCacheManager.Valid, Sound, Words, DataBlock, Base;
      ghost var d := cache.disk;
      SoundDirect(d, cache.pins, Value(), n);
      SoundBound(d, cache.pins, Value(), n);
      Bases();
      LookupCode(Words(d), Value(), innerId);
      LookupPath(d, cache.pins, Value(), n, innerId);
      if innerId < INODE_DIRECT_COUNT {
        id := direct[innerId];
      } else if innerId < INODE_DIRECT_COUNT + FANOUT {
        id := ReadEntry(cache, indirect1, innerId - INODE_DIRECT_COUNT);
      } else if innerId < INODE_DIRECT_COUNT + FANOUT + INODE_INDIRECT2_COUNT {
        var last := innerId - INODE_DIRECT_COUNT - FANOUT;
        id := ReadEntry(cache, indirect2, last / FANOUT);
        id := ReadEntry(cache, id, last % FANOUT);
      } else {
        var last := innerId - INODE_DIRECT_COUNT - FANOUT - INODE_INDIRECT2_COUNT;
        id := ReadEntry(cache, indirect3, last / INODE_INDIRECT2_COUNT);
        id := ReadEntry(cache, id, (last % INODE_INDIRECT2_COUNT) / FANOUT);
        id := ReadEntry(cache, id, (last % INODE_INDIRECT2_COUNT) % FANOUT);
      }
    }

    /** `dst.copy_from_slice(src)` for a part of a block. */
    static method CopyOut(buf: array<byte>, at: nat, bytes: Block, o: nat, len: nat)
      requires at + len <= buf.Length && o + len <= BLOCK_SZ
      modifies buf
      ensures buf[..] == Overlay(old(buf[..]), at, bytes[o..o + len])
    {
      forall k | 0 <= k < len {
        buf[at + k] := bytes[o + k];
      }
    }

    static method CopyBlock(cache: BlockCacheManager, id: nat, o: nat, len: nat, buf: array<byte>, at: nat)
      requires cache.Valid() && |cache.pins| < cache.budget && id < |cache.disk| && id !in cache.pins
      requires o + len <= BLOCK_SZ && at + len <= buf.Length
      modifies cache, buf
      ensures cache.Valid() && cache.pins == old(cache.pins) && cache.disk == old(cache.disk)
      ensures buf[..] == Overlay(old(buf[..]), at, cache.disk[id][o..o + len])
    {
      hide BlockCacheManager.Valid, Overlay;
      cache.Lock(id);
      var bytes := cache.Read(id);
      CopyOut(buf, at, bytes, o, len);
      cache.Unlock(id);
    }

    /** One iteration of `read_at`: the bytes `start..end`, which lie in one block. */
    method ReadPart(start: nat, end: nat, startBlock: nat, buf: array<byte>, at: nat, cache: BlockCacheManager, ghost n: nat)
      requires cache.Valid() && |cache.pins| < cache.budget && Sound(cache.disk, cache.pins, Value(), n)
      requires start < end <= BLOCK_SZ * n && startBlock == start / BLOCK_SZ && end <= (startBlock + 1) * BLOCK_SZ
      requires at + (end - start) <= buf.Length
      modifies cache, buf
      ensures cache.Valid() && cache.pins == old(cache.pins) && cache.disk == old(cache.disk)
      ensures buf[..] == Overlay(old(buf[..]), at, Raw(cache.disk, Value(), n)[start..end])
    {
      hide BlockCacheManager.Valid, Sound, BlockOf, ByteAt, Raw, Words, Value, Overlay;
      ReadStep(cache.disk, cache.pins, Value(), n, start, end);
      var id := GetBlockId(startBlock, cache, n);
      ghost var part := Raw(cache.disk, Value(), n)[start..end];
      var o, len := start % BLOCK_SZ, end - start;
      assert cache.disk[id][o..o + len] == part;
      CopyBlock(cache, id, o, len, buf, at);
    }

    /** `read_at`: copy the bytes from `offset` on, as far as the buffer and the file reach. */
    method ReadAt(offset: nat, buf: array<byte>, cache: BlockCacheManager) returns (readSize: nat)
      requires cache.Valid() && |cache.pins| < cache.budget
      requires Sound(cache.disk, cache.pins, Value(), DataBlocks(size))
      modifies cache, buf
      ensures cache.Valid() && cache.pins == old(cache.pins) && cache.disk == old(cache.disk)
      ensures var end := Min(offset + buf.Length, size);
              if offset >= end then readSize == 0 && buf[..] == old(buf[..])
              else readSize == end - offset
                   && buf[..] == Contents(cache.disk, Value())[offset..end] + old(buf[..])[readSize..]
    {
      hide BlockCacheManager.Valid, Sound, DataBlocks, ByteAt, BlockOf, Raw, Contents, Overlay;
      ghost var n, orig := DataBlocks(size), buf[..];
      ghost var raw := Raw(cache.disk, Value(), n);
      SizeFits(size);
      var start := offset;
      var end := Min(offset + buf.Length, size);
      readSize := 0;
      if start >= end {
        return;
      }
      OverlayAtStart(orig, []);
      assert raw[offset..offset] == [];
      var startBlock := start / BLOCK_SZ;
      while true
        invariant offset <= start < end && start == offset + readSize && startBlock == start / BLOCK_SZ
        invariant cache.Valid() && cache.pins == old(cache.pins) && cache.disk == old(cache.disk)
        invariant buf[..] == Overlay(orig, 0, raw[offset..start])
        decreases end - start
      {
        var endCurrentBlock := Min((start / BLOCK_SZ + 1) * BLOCK_SZ, end);
        NextBlock(start);
        var blockReadSize := endCurrentBlock - start;
        ReadPart(start, endCurrentBlock, startBlock, buf, readSize, cache, n);
        assert readSize == start - offset && Raw(cache.disk, Value(), n) == raw;
        OverlayMore(orig, raw, offset, start, endCurrentBlock);
        assert buf[..] == Overlay(orig, 0, raw[offset..endCurrentBlock]);
        readSize := readSize + blockReadSize;
        if endCurrentBlock == end {
          break;
        }
        startBlock := startBlock + 1;
        start := endCurrentBlock;
      }
      ghost var part := raw[offset..end];
      assert |part| == readSize && buf[..] == Overlay(orig, 0, part);
      OverlayAtStart(orig, part);
      ContentsSlice(cache.disk, Value(), offset, end);
    }

    static lemma NextBlock(start: nat)
      ensures var next := (start / BLOCK_SZ + 1) * BLOCK_SZ; start < next && next / BLOCK_SZ == start / BLOCK_SZ + 1
    {
    }

    static lemma OverlayMore(orig: seq<byte>, raw: seq<byte>, offset: nat, start: nat, end: nat)
      requires offset <= start <= end <= |raw| && end - offset <= |orig|
      ensures Overlay(Overlay(orig, 0, raw[offset..start]), start - offset, raw[start..end]) == Overlay(orig, 0, raw[offset..end])
    {
      assert raw[offset..end] == raw[offset..start] + raw[start..end];
    }

    static lemma OverlayAtStart(orig: seq<byte>, part: seq<byte>)
      requires |part| <= |orig|
      ensures Overlay(orig, 0, part) == part + orig[|part|..] && Overlay(orig, 0, []) == orig
    {
    }

    static lemma ContentsSlice(d: seq<Block>, ino: Ino, a: nat, b: nat)
      requires a <= b <= ino.size
      ensures ino.size <= BLOCK_SZ * DataBlocks(ino.size)
      ensures Contents(d, ino)[a..b] == Raw(d, ino, DataBlocks(ino.size))[a..b]
    {
      hide ByteAt, Raw;
      SizeFits(ino.size);
    }

    /** One iteration of `write_at`: overwrite bytes that lie in one block. */
    method WritePart(start: nat, src: seq<byte>, startBlock: nat, cache: BlockCacheManager, ghost n: nat)
      requires cache.Valid() && |cache.pins| < cache.budget && Sound(cache.disk, cache.pins, Value(), n)
      requires startBlock < n && start + |src| <= BLOCK_SZ * n && startBlock == start / BLOCK_SZ
      requires start + |src| <= (startBlock + 1) * BLOCK_SZ
      modifies cache
      ensures cache.Valid() && cache.pins == old(cache.pins)
      ensures Written(old(cache.disk), cache.disk, cache.pins, Value(), n, start, src)
    {
      hide BlockCacheManager.Valid, BlockOf, ByteAt, Raw, Splice, Words, BlockList, Sound, Written, Value;
      PartWritten(cache.disk, cache.pins, Value(), n, start, src);
      var id := GetBlockId(startBlock, cache, n);
      cache.Lock(id);
      var bytes := cache.Read(id);
      cache.Modify(id, Splice(bytes, start % BLOCK_SZ, src));
      cache.Unlock(id);
    }

    /**
     `write_at`: overwrite the bytes from `offset` on, as far as the file reaches. Its loop looks up the
     block of `offset` even when there is nothing to write, so that block must be one of the file.
     */
    method WriteAt(offset: nat, buf: seq<byte>, cache: BlockCacheManager) returns (writeSize: nat)
      requires cache.Valid() && |cache.pins| < cache.budget
      requires Sound(cache.disk, cache.pins, Value(), DataBlocks(size)) && offset <= size && offset / BLOCK_SZ < DataBlocks(size)
      modifies cache
      ensures cache.Valid() && cache.pins == old(cache.pins)
      ensures writeSize == Min(offset + |buf|, size) - offset
      ensures Written(old(cache.disk), cache.disk, cache.pins, Value(), DataBlocks(size), offset, buf[..writeSize])
    {
      hide BlockCacheManager.Valid, Sound, DataBlocks, Written;
      ghost var d0, n, ino := cache.disk, DataBlocks(size), Value();
      SizeFits(size);
      WrittenNothing(d0, cache.pins, ino, n, offset);
      var start := offset;
      var end := Min(offset + |buf|, size);
      writeSize := 0;
      var startBlock := start / BLOCK_SZ;
      while true
        invariant offset <= start <= end && start == offset + writeSize && startBlock == start / BLOCK_SZ < n
        invariant cache.Valid() && cache.pins == old(cache.pins)
        invariant Written(d0, cache.disk, cache.pins, ino, n, offset, buf[..writeSize])
        decreases end - start
      {
        var endCurrentBlock := Min((start / BLOCK_SZ + 1) * BLOCK_SZ, end);
        var blockWriteSize := endCurrentBlock - start;
        var src := buf[writeSize..writeSize + blockWriteSize];
        ghost var d := cache.disk;
        WrittenSound(d0, d, cache.pins, ino, n, offset, buf[..writeSize]);
        NextBlock(start);
        WritePart(start, src, startBlock, cache, n);
        WrittenTrans(d0, d, cache.disk, cache.pins, ino, n, offset, buf[..writeSize], src);
        assert buf[..writeSize] + src == buf[..writeSize + blockWriteSize];
        writeSize := writeSize + blockWriteSize;
        if endCurrentBlock == end {
          break;
        }
        startBlock := startBlock + 1;
        start := endCurrentBlock;
      }
    }
  }

  const INODE_INDIRECT3_COUNT: nat := FANOUT * FANOUT * FANOUT

  /** `part` copied over `s` at position `at`. */
  function Overlay(s: seq<byte>, at: nat, part: seq<byte>): (r: seq<byte>)
    requires at + |part| <= |s|
    ensures |r| == |s|
  {
    s[..at] + part + s[at + |part|..]
  }

  function ZeroPrefix(s: seq<nat>, k: nat): seq<nat>
    requires k <= |s|
  {
    seq(k, _ => 0) + s[k..]
  }

  lemma ZeroNothing(s: seq<nat>)
    ensures ZeroPrefix(s, 0) == s
  {
  }

  lemma ZeroNext(s: seq<nat>, k: nat)
    requires k < |s|
    ensures |ZeroPrefix(s, k)| == |s| && ZeroPrefix(s, k)[k] == s[k]
    ensures ZeroPrefix(s, k)[k := 0] == ZeroPrefix(s, k + 1) && s[..k] + [s[k]] == s[..k + 1]
  {
  }

  /** The inode after `clear_size`: no size, and every entry that was in use is zero. */
  function Cleared(ino: Ino, n: nat): Ino
    requires |ino.direct| == INODE_DIRECT_COUNT
  {
    Ino(0, ZeroPrefix(ino.direct, Min(n, INODE_DIRECT_COUNT)),
        if n <= 27 then ino.indirect1 else 0,
        if n <= 155 then ino.indirect2 else 0,
        if n <= 16539 then ino.indirect3 else 0, ino.isDir)
  }
}
