/**
 The write-back block cache of easy-fs (easy-fs/src/block_cache.rs).

 `BlockCacheManager` keeps at most sixteen blocks in a FIFO queue in front of one block device.
 Its clients see only two ghost values: `disk`, the contents every block appears to have, and
 `pins`, the blocks that currently have a live, locked handle.
 */
module BlockCaches {
  import opened Bytes

  const BLOCK_SZ: nat := 512
  const BLOCK_CACHE_SIZE: nat := 16
  /** The longest chain of locks the file system takes: an inode's block and three levels of index blocks. */
  const DEEPEST: nat := 4

  /** A bound on the blocks locked at once, between what the file system needs and what the cache can hold. */
  type Budget = n: nat | DEEPEST <= n <= BLOCK_CACHE_SIZE witness 4

  type Block = b: seq<byte> | |b| == BLOCK_SZ witness Zeros(BLOCK_SZ)

  const ZeroBlock: Block := Zeros(BLOCK_SZ)

  /** One cached block. `handles` is the strong count of its `Arc`, less the queue's own reference. */
  datatype BlockCache = BlockCache(blockId: nat, bytes: Block, modified: bool, handles: nat)

  /** The identifiers of the cached blocks. */
  ghost function Ids(q: seq<BlockCache>): set<nat>
  {
    set i | 0 <= i < |q| :: q[i].blockId
  }

  ghost function Pinned(q: seq<BlockCache>): set<nat>
  {
    set i | 0 <= i < |q| && q[i].handles > 0 :: q[i].blockId
  }

  ghost predicate UniqueIds(q: seq<BlockCache>)
  {
    forall i, j | 0 <= i < j < |q| :: q[i].blockId != q[j].blockId
  }

  /** `disk` is what a reader sees: the cached bytes of a block if it is cached, else the device's. */
  ghost predicate IsView(q: seq<BlockCache>, device: seq<Block>, disk: seq<Block>)
  {
    && |disk| == |device|
    && (forall i | 0 <= i < |q| :: q[i].blockId < |device| && disk[q[i].blockId] == q[i].bytes)
    && (forall b | 0 <= b < |device| && b !in Ids(q) :: disk[b] == device[b])
  }

  ghost predicate CleanMatchesDevice(q: seq<BlockCache>, device: seq<Block>)
  {
    forall i | 0 <= i < |q| && q[i].blockId < |device| && !q[i].modified :: q[i].bytes == device[q[i].blockId]
  }

  /** A queue in which every entry is pinned has as many pinned blocks as entries. */
  lemma {:induction false} AllPinned(q: seq<BlockCache>)
    requires UniqueIds(q)
    requires forall i | 0 <= i < |q| :: q[i].handles > 0
    ensures |Pinned(q)| == |q|
  {
    if q != [] {
      var p := q[..|q| - 1];
      var last := q[|q| - 1];
      AllPinned(p);
      assert Pinned(q) == Pinned(p) + {last.blockId} by {
        forall b | b in Pinned(q) ensures b in Pinned(p) + {last.blockId} {
          var i :| 0 <= i < |q| && q[i].handles > 0 && b == q[i].blockId;
          assert i < |p| ==> p[i].blockId == b;
        }
        assert q[|q| - 1].handles > 0;
        forall b | b in Pinned(p) ensures b in Pinned(q) {
          var i :| 0 <= i < |p| && p[i].handles > 0 && b == p[i].blockId;
          assert q[i] == p[i];
        }
      }
      assert last.blockId !in Pinned(p);
    }
  }

  ghost predicate Unpinned(q: seq<BlockCache>, b: nat)
  {
    forall e | e in q && e.blockId == b :: e.handles == 0
  }

  /** Block `b`, cached once, has one handle more than in `q`; every other entry is one of `q`. */
  ghost predicate OneMoreHandle(q: seq<BlockCache>, q': seq<BlockCache>, b: nat)
  {
    && b in Ids(q')
    && UniqueIds(q')
    && forall i | 0 <= i < |q'| :: HandleStep(q, q'[i], b)
  }

  ghost predicate HandleStep(q: seq<BlockCache>, e: BlockCache, b: nat)
  {
    if e.blockId != b then e in q
    else if b in Ids(q) then e.handles > 0 && e.(handles := e.handles - 1) in q
    else e.handles == 1
  }

  /** Position of the oldest entry without handles, or the length of the queue. */
  ghost function FirstFree(q: seq<BlockCache>): (k: nat)
    ensures k <= |q| && (k < |q| ==> q[k].handles == 0) && forall j | 0 <= j < k :: q[j].handles != 0
  {
    if q == [] || q[0].handles == 0 then 0 else 1 + FirstFree(q[1..])
  }

  /** The queue after making room for one entry: when it is full, the oldest entry without handles goes. */
  ghost function MadeRoom(q: seq<BlockCache>): seq<BlockCache>
  {
    var k := FirstFree(q);
    if |q| < BLOCK_CACHE_SIZE || k == |q| then q else q[..k] + q[k + 1..]
  }

  /** A cached block stays in its place; another one goes to the back of the queue. */
  ghost predicate FifoStep(q: seq<BlockCache>, q': seq<BlockCache>, b: nat)
  {
    if b in Ids(q) then |q'| == |q| && forall i | 0 <= i < |q| :: q'[i].blockId == q[i].blockId
    else |q'| == |MadeRoom(q)| + 1 && q'[..|q'| - 1] == MadeRoom(q) && q'[|q'| - 1].blockId == b
  }

  class BlockCacheManager {
    var queue: seq<BlockCache>
    var device: seq<Block>
    ghost var disk: seq<Block>
    ghost var pins: set<nat>
    /** How many blocks may be locked at once. */
    ghost const budget: Budget

    /** What every operation of the cache keeps, however many handles are alive. */
    ghost predicate Coherent()
      reads this
    {
      && |queue| <= BLOCK_CACHE_SIZE
      && UniqueIds(queue)
      && IsView(queue, device, disk)
      && CleanMatchesDevice(queue, device)
      && pins == Pinned(queue)
    }

    /** A coherent cache in which each block has at most one live handle, the one that locked it. */
    ghost predicate Valid()
      reads this
    {
      && Coherent() && (forall i | 0 <= i < |queue| :: queue[i].handles <= 1)
      && |pins| <= budget
    }

    /** An empty cache in front of a device. */
    constructor (device: seq<Block>, ghost budget: Budget)
      ensures Valid() && this.budget == budget
      ensures disk == this.device == device && pins == {}
    {
      this.budget := budget;
      queue := [];
      this.device := device;
      disk := device;
      pins := {};
    }

    /** `queue.iter().find(|pair| pair.0 == block_id)`. */
    method Find(blockId: nat) returns (i: nat)
      ensures i <= |queue|
      ensures i < |queue| ==> queue[i].blockId == blockId
      ensures i == |queue| <==> blockId !in Ids(queue)
    {
      i := 0;
      while i < |queue| && queue[i].blockId != blockId
        invariant i <= |queue|
        invariant forall j | 0 <= j < i :: queue[j].blockId != blockId
      {
        i := i + 1;
      }
    }

    /** A handle gives access to the one entry of its block. */
    method FindLocked(blockId: nat) returns (i: nat)
      requires blockId in Pinned(queue) && UniqueIds(queue)
      ensures i < |queue| && queue[i].blockId == blockId && queue[i].handles > 0
    {
      i := Find(blockId);
      assert exists j :: 0 <= j < |queue| && queue[j].handles > 0 && blockId == queue[j].blockId;
    }

    /** Write entry `i` back to the device if it is dirty. */
    method Sync(i: nat)
      requires Coherent() && i < |queue|
      modifies this`queue, this`device
      ensures Coherent()
      ensures queue == old(queue)[i := old(queue)[i].(modified := false)]
      ensures device == old(device)[old(queue)[i].blockId := old(queue)[i].bytes]
    {
      var e := queue[i];
      if e.modified {
        queue := queue[i := e.(modified := false)];
        device := device[e.blockId := e.bytes];
        ReplacedIds(old(queue), i, e.(modified := false));
      } else {
        assert queue[i := e.(modified := false)] == queue;
        assert device[e.blockId := e.bytes] == device;
      }
    }

    /** Drop entry `i` from the queue; dropping a cached block synchronises it first. */
    method Evict(i: nat)
      requires Coherent() && i < |queue| && queue[i].handles == 0
      modifies this`queue, this`device
      ensures Coherent()
      ensures queue == old(queue)[..i] + old(queue)[i + 1..]
      ensures |device| == |old(device)|
    {
      Sync(i);
      RemovedIds(queue, i);
      assert queue[..i] == old(queue)[..i] && queue[i + 1..] == old(queue)[i + 1..];
      queue := queue[..i] + queue[i + 1..];
    }

    /** Removing an unpinned entry removes its identifier and no pin. */
    static lemma RemovedIds(q: seq<BlockCache>, i: nat)
      requires i < |q| && UniqueIds(q) && q[i].handles == 0
      ensures var r := q[..i] + q[i + 1..];
              && UniqueIds(r) && Pinned(r) == Pinned(q) && Ids(r) == Ids(q) - {q[i].blockId}
              && forall j | 0 <= j < |r| :: r[j] == q[if j < i then j else j + 1]
    {
      hide Pinned, Ids;
      RemovedPins(q, i);
      RemovedId(q, i);
    }

    static lemma RemovedId(q: seq<BlockCache>, i: nat)
      requires i < |q| && UniqueIds(q)
      ensures Ids(q[..i] + q[i + 1..]) == Ids(q) - {q[i].blockId}
    {
      var r := q[..i] + q[i + 1..];
      forall b | b in Ids(q) && b != q[i].blockId ensures b in Ids(r) {
        var j :| 0 <= j < |q| && b == q[j].blockId;
        assert r[if j < i then j else j - 1].blockId == b;
      }
      forall b | b in Ids(r) ensures b in Ids(q) && b != q[i].blockId {
        var j :| 0 <= j < |r| && b == r[j].blockId;
        assert r[j] == q[if j < i then j else j + 1];
      }
    }

    static lemma RemovedPins(q: seq<BlockCache>, i: nat)
      requires i < |q| && q[i].handles == 0
      ensures Pinned(q[..i] + q[i + 1..]) == Pinned(q)
    {
      var r := q[..i] + q[i + 1..];
      forall b | b in Pinned(q) ensures b in Pinned(r) {
        var j :| 0 <= j < |q| && q[j].handles > 0 && b == q[j].blockId;
        assert r[if j < i then j else j - 1] == q[j];
      }
      forall b | b in Pinned(r) ensures b in Pinned(q) {
        var j :| 0 <= j < |r| && r[j].handles > 0 && b == r[j].blockId;
        assert q[if j < i then j else j + 1] == r[j];
      }
    }

    /**
     `get_block_cache`: a handle to the unique cached copy of a block, loading it if need be and
     evicting the oldest unpinned entry when the queue is full. `ok == false` is the panic
     "Run out of BlockCache!".
     */
    method GetBlockCache(blockId: nat) returns (ok: bool)
      requires Coherent() && blockId < |device|
      modifies this`queue, this`device, this`pins
      ensures ok <==> blockId in Ids(old(queue)) || |old(queue)| < BLOCK_CACHE_SIZE
                      || exists i :: 0 <= i < |old(queue)| && old(queue)[i].handles == 0
      ensures Coherent() && |device| == |old(device)|
      ensures ok ==> pins == old(pins) + {blockId}
      ensures ok ==> OneMoreHandle(old(queue), queue, blockId) && FifoStep(old(queue), queue, blockId)
      ensures !ok ==> pins == old(pins)
    {
      hide Coherent, OneMoreHandle, UniqueIds, Pinned, MadeRoom;
      var i := Find(blockId);
      if i < |queue| {
        CoherentParts();
        HandleAdded(queue, device, disk, i);
        queue := queue[i := queue[i].(handles := queue[i].handles + 1)];
        pins := pins + {blockId};
        CoherentJoin();
        return true;
      }
      ok := MakeRoom();
      if ok {
        ghost var q := queue;
        Load(blockId);
        HandleNew(old(queue), q, queue, blockId);
        pins := pins + {blockId};
        CoherentJoin();
      }
    }

    lemma CoherentParts()
      requires Coherent()
      ensures |queue| <= BLOCK_CACHE_SIZE && UniqueIds(queue) && IsView(queue, device, disk)
      ensures CleanMatchesDevice(queue, device) && pins == Pinned(queue)
    {
    }

    lemma CoherentJoin()
      requires |queue| <= BLOCK_CACHE_SIZE && UniqueIds(queue) && IsView(queue, device, disk)
      requires CleanMatchesDevice(queue, device) && pins == Pinned(queue)
      ensures Coherent()
    {
    }

    static lemma HandleAdded(q: seq<BlockCache>, device: seq<Block>, disk: seq<Block>, i: nat)
      requires i < |q| && UniqueIds(q) && IsView(q, device, disk) && CleanMatchesDevice(q, device)
      ensures var b, q' := q[i].blockId, q[i := q[i].(handles := q[i].handles + 1)];
              && UniqueIds(q') && IsView(q', device, disk) && CleanMatchesDevice(q', device)
              && Pinned(q') == Pinned(q) + {b} && OneMoreHandle(q, q', b)
    {
      hide Pinned;
      var e := q[i].(handles := q[i].handles + 1);
      ReplacedIds(q, i, e);
      assert e.(handles := e.handles - 1) == q[i];
    }

    static lemma HandleNew(q: seq<BlockCache>, q1: seq<BlockCache>, q2: seq<BlockCache>, b: nat)
      requires b !in Ids(q) && UniqueIds(q2) && forall e | e in q1 :: e in q
      requires |q2| == |q1| + 1 && q2[..|q1|] == q1 && q2[|q1|].blockId == b && q2[|q1|].handles == 1
      ensures OneMoreHandle(q, q2, b)
    {
      assert b in Ids(q2);
      forall i | 0 <= i < |q2| ensures HandleStep(q, q2[i], b) {
        assert i < |q1| ==> q1[i] in q && q1[i].blockId in Ids(q);
      }
    }

    /** When the queue is full, evict its oldest entry without handles. */
    method MakeRoom() returns (ok: bool)
      requires Coherent()
      modifies this`queue, this`device
      ensures ok <==> |old(queue)| < BLOCK_CACHE_SIZE || exists i :: 0 <= i < |old(queue)| && old(queue)[i].handles == 0
      ensures Coherent() && |device| == |old(device)|
      ensures ok ==> |queue| < BLOCK_CACHE_SIZE
      ensures queue == MadeRoom(old(queue))
      ensures Ids(queue) <= Ids(old(queue)) && forall e | e in queue :: e in old(queue)
    {
      hide FirstFree, Pinned, UniqueIds, IsView, CleanMatchesDevice, Ids;
      if |queue| < BLOCK_CACHE_SIZE {
        return true;
      }
      var k := FindFree();
      ok := k < |queue|;
      if ok {
        RemovedIds(queue, k);
        Evict(k);
      }
    }

    /** The search from the front for an entry without handles. */
    method FindFree() returns (k: nat)
      ensures k == FirstFree(queue)
    {
      hide FirstFree;
      k := 0;
      while k < |queue| && queue[k].handles != 0
        invariant k <= |queue|
        invariant forall j | 0 <= j < k :: queue[j].handles != 0
      {
        k := k + 1;
      }
    }

    /** Read a block from the device into a new entry at the back of the queue. */
    method Load(blockId: nat)
      requires Coherent() && blockId < |device| && |queue| < BLOCK_CACHE_SIZE
      requires blockId !in Ids(queue)
      modifies this`queue
      ensures queue == old(queue) + [BlockCache(blockId, device[blockId], false, 1)]
      ensures UniqueIds(queue) && IsView(queue, device, disk) && CleanMatchesDevice(queue, device)
      ensures Pinned(queue) == pins + {blockId}
    {
      hide Pinned;
      var e := BlockCache(blockId, device[blockId], false, 1);
      AppendedIds(queue, e);
      AppendedPins(queue, e);
      queue := queue + [e];
    }

    static lemma AppendedIds(q: seq<BlockCache>, e: BlockCache)
      requires UniqueIds(q) && e.blockId !in Ids(q)
      ensures UniqueIds(q + [e]) && Ids(q + [e]) == Ids(q) + {e.blockId}
    {
      var r := q + [e];
      assert forall i | 0 <= i < |q| :: q[i].blockId in Ids(q) && r[i] == q[i];
      assert r[|q|] == e;
      forall b | b in Ids(q) ensures b in Ids(r) {
        var j :| 0 <= j < |q| && b == q[j].blockId;
        assert r[j].blockId == b;
      }
    }

    static lemma AppendedPins(q: seq<BlockCache>, e: BlockCache)
      requires e.handles > 0
      ensures Pinned(q + [e]) == Pinned(q) + {e.blockId}
    {
      var r := q + [e];
      assert r[|q|] == e;
      forall b | b in Pinned(q) ensures b in Pinned(r) {
        var j :| 0 <= j < |q| && q[j].handles > 0 && b == q[j].blockId;
        assert r[j] == q[j];
      }
      forall b | b in Pinned(r) ensures b in Pinned(q) + {e.blockId} {
        var j :| 0 <= j < |r| && r[j].handles > 0 && b == r[j].blockId;
        assert j < |q| ==> r[j] == q[j];
      }
    }

    /** Replacing an entry by one for the same block changes no identifier. */
    static lemma ReplacedIds(q: seq<BlockCache>, i: nat, e: BlockCache)
      requires i < |q| && UniqueIds(q) && e.blockId == q[i].blockId
      ensures var q' := q[i := e];
              && Ids(q') == Ids(q) && UniqueIds(q')
              && Pinned(q') == if e.handles > 0 then Pinned(q) + {e.blockId} else Pinned(q) - {e.blockId}
    {
      hide Pinned;
      var q' := q[i := e];
      forall b | b in Ids(q) ensures b in Ids(q') {
        var j :| 0 <= j < |q| && b == q[j].blockId;
        assert q'[j].blockId == b;
      }
      forall b | b in Ids(q') ensures b in Ids(q) {
        var j :| 0 <= j < |q'| && b == q'[j].blockId;
        assert q[j].blockId == b;
      }
      ReplacedPins(q, i, e);
    }

    static lemma ReplacedPins(q: seq<BlockCache>, i: nat, e: BlockCache)
      requires i < |q| && UniqueIds(q) && e.blockId == q[i].blockId
      ensures Pinned(q[i := e]) == if e.handles > 0 then Pinned(q) + {e.blockId} else Pinned(q) - {e.blockId}
    {
      var q' := q[i := e];
      var p := if e.handles > 0 then Pinned(q) + {e.blockId} else Pinned(q) - {e.blockId};
      forall b | b in p ensures b in Pinned(q') {
        if b == e.blockId {
          assert q'[i].handles > 0;
        } else {
          var j :| 0 <= j < |q| && q[j].handles > 0 && b == q[j].blockId;
          assert q'[j] == q[j];
        }
      }
      forall b | b in Pinned(q') ensures b in p {
        var j :| 0 <= j < |q'| && q'[j].handles > 0 && b == q'[j].blockId;
        assert j != i ==> q[j] == q'[j];
      }
    }

    /**
     `get_block_cache(..).lock()`. The block must not be locked already, or the spin lock would
     never be acquired. The budget is at most the size of the cache, so the cache cannot run out.
     */
    method Lock(blockId: nat)
      requires Valid() && blockId < |disk|
      requires blockId !in pins && |pins| < budget
      modifies this`queue, this`device, this`pins
      ensures Valid() && pins == old(pins) + {blockId}
    {
      hide Coherent, OneMoreHandle, Pinned, Ids, UniqueIds, IsView, CleanMatchesDevice;
      SomeUnpinned(blockId);
      var ok := GetBlockCache(blockId);
      StillSingle(old(queue), queue, blockId);
    }

    lemma SomeUnpinned(b: nat)
      requires Coherent() && |pins| < BLOCK_CACHE_SIZE && b !in pins
      ensures |disk| == |device| && Unpinned(queue, b)
      ensures |queue| < BLOCK_CACHE_SIZE || exists i :: 0 <= i < |queue| && queue[i].handles == 0
    {
      if forall i | 0 <= i < |queue| :: queue[i].handles > 0 {
        AllPinned(queue);
      }
    }

    /** A block that was not locked has exactly one handle after it is locked. */
    static lemma StillSingle(q: seq<BlockCache>, q': seq<BlockCache>, b: nat)
      requires Unpinned(q, b) && OneMoreHandle(q, q', b) && forall i | 0 <= i < |q| :: q[i].handles <= 1
      ensures forall i | 0 <= i < |q'| :: q'[i].handles <= 1
    {
      hide Ids, UniqueIds;
      forall i | 0 <= i < |q'| ensures q'[i].handles <= 1 {
        assert HandleStep(q, q'[i], b);
      }
    }

    /** Drop the guard and the handle of a locked block. */
    method Unlock(blockId: nat)
      requires Valid() && blockId in pins
      modifies this`queue, this`pins
      ensures Valid() && pins == old(pins) - {blockId}
    {
      var i := FindLocked(blockId);
      var q := queue;
      queue := queue[i := queue[i].(handles := queue[i].handles - 1)];
      ReplacedIds(q, i, q[i].(handles := q[i].handles - 1));
      pins := pins - {blockId};
    }

    /** `read`: the bytes of a locked block. */
    method Read(blockId: nat) returns (bytes: Block)
      requires Valid() && blockId in pins
      ensures blockId < |disk| && bytes == disk[blockId]
    {
      var i := FindLocked(blockId);
      bytes := queue[i].bytes;
    }

    /** `modify`: replace the bytes of a locked block and mark it dirty. */
    method Modify(blockId: nat, bytes: Block)
      requires Valid() && blockId in pins
      modifies this`queue, this`disk
      ensures Valid() && blockId < |old(disk)| && disk == old(disk)[blockId := bytes]
    {
      var i := FindLocked(blockId);
      var q := queue;
      queue := queue[i := queue[i].(bytes := bytes, modified := true)];
      disk := disk[blockId := bytes];
      ReplacedIds(q, i, q[i].(bytes := bytes, modified := true));
    }

    /** `block_cache_sync_all`: afterwards the device itself holds what every reader sees. */
    method SyncAll()
      requires Valid() && pins == {}
      modifies this`queue, this`device
      ensures Valid() && device == disk
    {
      var i := 0;
      while i < |queue|
        invariant i <= |queue| && Valid()
        invariant forall j | 0 <= j < i :: !queue[j].modified
      {
        Sync(i);
        i := i + 1;
      }
      forall b | 0 <= b < |device| ensures device[b] == disk[b] {
        if b in Ids(queue) {
          var j :| 0 <= j < |queue| && b == queue[j].blockId;
        }
      }
    }
  }
}
