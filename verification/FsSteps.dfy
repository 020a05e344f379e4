/**
 What allocating, growing, writing and clearing do to a consistent volume.
 */
module FsSteps {
  import opened Seqs
  import opened Bytes
  import opened BlockCaches
  import opened IndexTree
  import opened TreeBuild
  import opened InodeTree
  import opened InodeGrow
  import opened FileBytes
  import opened Bitmaps
  import opened Records
  import opened FsState

  ghost predicate IsFree(d: seq<Block>, l: Layout, x: nat)
  {
    l.DataStart() <= x < l.totalBlocks && !IsSet(d, l.DataBitmapStart(), x - l.DataStart())
  }

  /** The blocks of the data area whose bit is clear. */
  ghost function FreeBlocks(d: seq<Block>, l: Layout): set<nat>
  {
    set x: nat | x < l.totalBlocks && IsFree(d, l, x)
  }

  /** From `d0` to `d`, the blocks `vec` were allocated: they were free and now have their bits set. */
  ghost predicate Allocated(d0: seq<Block>, d: seq<Block>, l: Layout, vec: seq<nat>)
  {
    && |d| == |d0| && NoDup(vec)
    && (forall x: nat | x < |d| && !(l.DataBitmapStart() <= x < l.DataStart()) :: d[x] == d0[x])
    && (forall x | x in vec :: l.DataStart() <= x < l.totalBlocks && !IsSet(d0, l.DataBitmapStart(), x - l.DataStart()))
    && BitsOf(d0, d, l, vec)
    && |FreeBlocks(d, l)| + |vec| == |FreeBlocks(d0, l)|
  }

  lemma AllocatedNone(d: seq<Block>, l: Layout)
    ensures Allocated(d, d, l, [])
  {
  }

  lemma AllocateOne(d0: seq<Block>, d: seq<Block>, d': seq<Block>, l: Layout, vec: seq<nat>, k: nat)
    requires l.Tiled() && |d| >= l.totalBlocks && Allocated(d0, d, l, vec)
    requires k < l.dataAreaBlocks && !IsSet(d, l.DataBitmapStart(), k) && BitChange(d, d', l.DataBitmapStart(), k, true)
    ensures Allocated(d0, d', l, vec + [l.DataStart() + k])
  {
    hide IsSet, NoDup, FreeBlocks, BitsOf;
    var x := l.DataStart() + k;
    FewerFree(d, d', l, k);
    NotYetAllocated(d0, d, l, vec, k);
    NoDupAppend(vec, x);
    BitBlock(l, k);
    BitsAllocated(d0, d, d', l, vec, k);
  }

  lemma NotYetAllocated(d0: seq<Block>, d: seq<Block>, l: Layout, vec: seq<nat>, k: nat)
    requires BitsOf(d0, d, l, vec) && l.Tiled() && k < l.dataAreaBlocks && !IsSet(d, l.DataBitmapStart(), k)
    ensures l.DataStart() + k !in vec && !IsSet(d0, l.DataBitmapStart(), k)
  {
    hide IsSet;
    assert k < l.DataBits();
  }

  /** From `d0` to `d`, exactly the bits of the blocks `vec` were set. */
  ghost predicate BitsOf(d0: seq<Block>, d: seq<Block>, l: Layout, vec: seq<nat>)
  {
    forall k: nat | k < l.DataBits() ::
      IsSet(d, l.DataBitmapStart(), k) <==> IsSet(d0, l.DataBitmapStart(), k) || l.DataStart() + k in vec
  }

  lemma BitsAllocated(d0: seq<Block>, d: seq<Block>, d': seq<Block>, l: Layout, vec: seq<nat>, k: nat)
    requires BitsOf(d0, d, l, vec) && BitChange(d, d', l.DataBitmapStart(), k, true)
    ensures BitsOf(d0, d', l, vec + [l.DataStart() + k])
  {
    hide IsSet;
    var x := l.DataStart() + k;
    forall j: nat | j < l.DataBits()
      ensures IsSet(d', l.DataBitmapStart(), j) <==> IsSet(d0, l.DataBitmapStart(), j) || l.DataStart() + j in vec + [x] {
      assert l.DataStart() + j in vec + [x] <==> l.DataStart() + j in vec || j == k;
    }
  }

  lemma FewerFree(d: seq<Block>, d': seq<Block>, l: Layout, k: nat)
    requires l.Tiled() && k < l.dataAreaBlocks && !IsSet(d, l.DataBitmapStart(), k) && BitChange(d, d', l.DataBitmapStart(), k, true)
    ensures |FreeBlocks(d', l)| + 1 == |FreeBlocks(d, l)|
  {
    hide IsSet;
    var x := l.DataStart() + k;
    assert IsFree(d, l, x) && !IsFree(d', l, x);
    assert FreeBlocks(d, l) == FreeBlocks(d', l) + {x};
  }

  /** With a free block left, the least clear bit stands for a block of the data area. */
  lemma LeastIsInRange(d: seq<Block>, l: Layout, k: nat)
    requires l.Tiled() && FreeBlocks(d, l) != {} && forall j: nat | j < k :: IsSet(d, l.DataBitmapStart(), j)
    ensures k < l.dataAreaBlocks
  {
    hide IsSet;
    var x :| x in FreeBlocks(d, l);
    assert IsFree(d, l, x) && !IsSet(d, l.DataBitmapStart(), x - l.DataStart());
  }

  /** The blocks of an inode, after other blocks were allocated. */
  lemma ListAfterAlloc(d0: seq<Block>, d: seq<Block>, l: Layout, count: nat, id: nat, vec: seq<nat>)
    requires FsOk(d0, l, count) && id < count && Allocated(d0, d, l, vec)
    ensures var ino := InodeAt(d0, l, id);
            && BlockList(Words(d), ino, DataBlocks(ino.size)) == ListOf(d0, l, id)
            && Raw(d, ino, DataBlocks(ino.size)) == Raw(d0, ino, DataBlocks(ino.size))
            && NoDup(ListOf(d0, l, id) + vec)
  {
    hide Words, BlockList, NoDup, Base, InodeAt, IsSet, DataBlocks, Raw, Owned, Apart, ZeroFrom, FreeBlocks;
    assert InodeOk(d0, l, id);
    var ino := InodeAt(d0, l, id);
    SameBlocks(d0, d, ino, DataBlocks(ino.size));
    forall x | x in ListOf(d0, l, id) ensures x !in vec {
      OwnedBy(d0, l, count, id, x);
    }
    NoDupJoin(ListOf(d0, l, id), vec);
  }

  /** The allocated blocks are what `increase_size` asks for. */
  lemma GrowReady(d0: seq<Block>, d: seq<Block>, l: Layout, count: nat, id: nat, vec: seq<nat>, pins: set<nat>, n: nat)
    requires FsOk(d0, l, count) && id < count && Allocated(d0, d, l, vec)
    requires var e := DataBlocks(InodeAt(d0, l, id).size); e <= n <= Base(LEVELS + 1) && |vec| == Count(n, LEVELS) - Count(e, LEVELS)
    requires forall x | x in pins :: x < l.DataStart()
    ensures Growable(d, pins, InodeAt(d0, l, id), vec, 0, DataBlocks(InodeAt(d0, l, id).size), n)
  {
    hide Words, BlockList, NoDup, Base, InodeAt, IsSet, DataBlocks, Raw, Owned, Apart, ZeroFrom, FreeBlocks, Count;
    assert InodeOk(d0, l, id);
    ListAfterAlloc(d0, d, l, count, id, vec);
    assert vec[0..] == vec;
  }

  /** Growth as it shows on the volume: new blocks at the end of the list, zero bytes at the end of the file. */
  ghost predicate Extended(d0: seq<Block>, d: seq<Block>, l: Layout, id: nat, ino: Ino, vec: seq<nat>)
  {
    var was := InodeAt(d0, l, id);
    var e, n := DataBlocks(was.size), DataBlocks(ino.size);
    && |d| == |d0| && e <= n <= Base(LEVELS + 1) && InoWords(ino) && ino.isDir == was.isDir
    && NewList(d, ino) == ListOf(d0, l, id) + vec && NoDup(NewList(d, ino))
    && (forall x | x in vec :: l.DataStart() <= x < l.totalBlocks && !IsSet(d0, l.DataBitmapStart(), x - l.DataStart()))
    && (forall x: nat | x < |d| && !(l.DataBitmapStart() <= x < l.DataStart()) && x !in NewList(d, ino) :: d[x] == d0[x])
    && BitsOf(d0, d, l, vec)
    && Raw(d, ino, n) == Raw(d0, was, e) + Zeros(BLOCK_SZ * (n - e))
  }

  /** Blocks of the file as it was keep their place and their bytes. */
  lemma OldBytes(d1: seq<Block>, d2: seq<Block>, pins: set<nat>, ino: Ino, ino': Ino, vec: seq<nat>, e: nat, n: nat, i: nat)
    requires InoGrown(d1, d2, ino, ino', vec, 0, |vec|, e, n) && i < e && n <= Base(LEVELS + 1) && Sound(d2, pins, ino', n)
    ensures BlockOf(d2, ino', i) == BlockOf(d1, ino, i) < |d1| && d2[BlockOf(d2, ino', i)] == d1[BlockOf(d1, ino, i)]
  {
    hide Words, BlockList, NoDup, Base, IndexBlocks, Count, BlockOf, Sound, Fields;
    BlockOfAt(d1, ino, e, i);
    BlockOfAt(d2, ino', n, i);
    BlockOfSound(d2, pins, ino', n, i);
  }

  /** Blocks that the growth added hold what they held when they were free. */
  lemma NewBytes(d1: seq<Block>, d2: seq<Block>, pins: set<nat>, ino: Ino, ino': Ino, vec: seq<nat>, e: nat, n: nat, i: nat)
    requires InoGrown(d1, d2, ino, ino', vec, 0, |vec|, e, n) && e <= i < n <= Base(LEVELS + 1) && Sound(d2, pins, ino', n)
    ensures BlockOf(d2, ino', i) in vec && BlockOf(d2, ino', i) < |d1| && d2[BlockOf(d2, ino', i)] == d1[BlockOf(d2, ino', i)]
  {
    hide Words, BlockList, NoDup, Base, IndexBlocks, Count, BlockOf, Sound, Fields, Lists;
    BlockOfAt(d2, ino', n, i);
    BlockOfSound(d2, pins, ino', n, i);
    CountMonotone(e, i, LEVELS);
    BlockListLength(Words(d1), ino, e);
    var p := Count(i + 1, LEVELS) - 1;
    assert BlockList(Words(d2), ino', n)[p] == vec[0..|vec|][p - Count(e, LEVELS)];
  }

  /** The bytes of the file after growth: the old ones, then zeros. */
  lemma GrownBytes(d1: seq<Block>, d2: seq<Block>, pins: set<nat>, ino: Ino, ino': Ino, vec: seq<nat>, e: nat, n: nat)
    requires InoGrown(d1, d2, ino, ino', vec, 0, |vec|, e, n) && n <= Base(LEVELS + 1) && Sound(d2, pins, ino', n)
    requires forall x | x in vec && x < |d1| :: d1[x] == ZeroBlock
    ensures Raw(d2, ino', n) == Raw(d1, ino, e) + Zeros(BLOCK_SZ * (n - e))
  {
    hide Words, BlockList, NoDup, Base, IndexBlocks, Count, BlockOf, Sound, Fields;
    var s := Raw(d1, ino, e) + Zeros(BLOCK_SZ * (n - e));
    forall j | 0 <= j < BLOCK_SZ * n ensures ByteAt(d2, ino', j) == s[j] {
      if j / BLOCK_SZ < e {
        OldBytes(d1, d2, pins, ino, ino', vec, e, n, j / BLOCK_SZ);
      } else {
        NewBytes(d1, d2, pins, ino, ino', vec, e, n, j / BLOCK_SZ);
      }
    }
  }

  /** A list in the data area can be walked while only blocks before it are locked. */
  lemma SoundList(d: seq<Block>, l: Layout, pins: set<nat>, ino: Ino, n: nat)
    requires |ino.direct| == INODE_DIRECT_COUNT && n <= Base(LEVELS + 1) && NoDup(BlockList(Words(d), ino, n)) && |d| >= l.totalBlocks
    requires forall x | x in BlockList(Words(d), ino, n) :: l.DataStart() <= x < l.totalBlocks
    requires forall x | x in pins :: x < l.DataStart()
    ensures Sound(d, pins, ino, n)
  {
    hide Words, BlockList, NoDup, Base;
  }

  lemma IndexInList(t: Table, ino: Ino, n: nat)
    requires |ino.direct| == INODE_DIRECT_COUNT
    ensures forall x | x in IndexBlocks(t, ino, n, LEVELS) :: x in BlockList(t, ino, n)
  {
    hide BlockList, IndexBlocks, Blocks;
    IndexInBlocks(t, ino, n, LEVELS);
    BlocksInList(t, ino, n);
  }

  /** `increase_size` on a volume. */
  lemma GrowDone(d0: seq<Block>, d1: seq<Block>, d2: seq<Block>, l: Layout, count: nat, id: nat, ino: Ino, vec: seq<nat>)
    requires FsOk(d0, l, count) && id < count && Allocated(d0, d1, l, vec)
    requires var was := InodeAt(d0, l, id);
             var e, n := DataBlocks(was.size), DataBlocks(ino.size);
             n <= Base(LEVELS + 1) && InoGrown(d1, d2, was, ino, vec, 0, |vec|, e, n)
    requires ino.size < U32
    ensures Extended(d0, d2, l, id, ino, vec)
  {
    hide Words, BlockList, NoDup, Base, InodeAt, IsSet, DataBlocks, Raw, Owned, Apart, ZeroFrom, FreeBlocks, Count, IndexBlocks, Fields, Sound, FsOk, BitsOf;
    var was := InodeAt(d0, l, id);
    var e, n := DataBlocks(was.size), DataBlocks(ino.size);
    InodeIsOk(d0, l, count, id);
    ListAfterAlloc(d0, d1, l, count, id, vec);
    GrownList(d1, d2, l, was, ino, vec, e, n);
    FieldsOf(d0, l, id, ino, vec);
    FreshZero(d0, l, count, vec);
    assert forall x | x in vec && x < |d1| :: d1[x] == ZeroBlock;
    GrownBytes(d1, d2, {}, was, ino, vec, e, n);
    GrowBits(d0, d1, d2, l, vec, NewList(d2, ino));
  }

  /** The list of a grown inode is sound, and nothing outside it has changed. */
  lemma GrownList(d1: seq<Block>, d2: seq<Block>, l: Layout, was: Ino, ino: Ino, vec: seq<nat>, e: nat, n: nat)
    requires n <= Base(LEVELS + 1) && InoGrown(d1, d2, was, ino, vec, 0, |vec|, e, n) && |d2| >= l.totalBlocks
    requires NoDup(BlockList(Words(d1), was, e) + vec)
    requires forall x | x in BlockList(Words(d1), was, e) :: l.DataStart() <= x < l.totalBlocks
    requires forall x | x in vec :: l.DataStart() <= x < l.totalBlocks
    ensures BlockList(Words(d2), ino, n) == BlockList(Words(d1), was, e) + vec && Sound(d2, {}, ino, n)
    ensures forall x | x in BlockList(Words(d2), ino, n) :: l.DataStart() <= x < l.totalBlocks
    ensures forall x: nat | x < |d1| && x !in BlockList(Words(d2), ino, n) :: d2[x] == d1[x]
  {
    hide Words, BlockList, NoDup, Base, Count, IndexBlocks, Fields, Sound;
    assert vec[0..|vec|] == vec;
    SoundList(d2, l, {}, ino, n);
    IndexInList(Words(d2), ino, n);
  }

  lemma FreshZero(d: seq<Block>, l: Layout, count: nat, vec: seq<nat>)
    requires FsOk(d, l, count)
    requires forall x | x in vec :: l.DataStart() <= x < l.totalBlocks && !IsSet(d, l.DataBitmapStart(), x - l.DataStart())
    ensures forall x | x in vec :: d[x] == ZeroBlock
  {
    hide IsSet, InodeOk, ListOf, Owned, Apart;
    forall x | x in vec ensures d[x] == ZeroBlock {
      assert d[l.DataStart() + (x - l.DataStart())] == ZeroBlock;
    }
  }

  lemma FieldsOf(d: seq<Block>, l: Layout, id: nat, ino: Ino, vec: seq<nat>)
    requires InodeBlock(l, id) < |d| && |ino.direct| == INODE_DIRECT_COUNT && ino.size < U32
    requires forall x | x in vec :: x < U32
    requires Fields(InodeAt(d, l, id)) && (forall x | x in vec :: x < U32) ==> Fields(ino)
    ensures InoWords(ino)
  {
    hide GetIno;
    GetInoWords(d[InodeBlock(l, id)], InodeOffset(id));
  }

  lemma GrowBits(d0: seq<Block>, d1: seq<Block>, d2: seq<Block>, l: Layout, vec: seq<nat>, list: seq<nat>)
    requires |d0| == |d1| == |d2|
    requires forall x | x in list :: x >= l.DataStart()
    requires forall x: nat | x < |d1| && x !in list :: d2[x] == d1[x]
    requires BitsOf(d0, d1, l, vec)
    ensures BitsOf(d0, d2, l, vec)
  {
    hide IsSet;
    forall k: nat | k < l.DataBits() ensures IsSet(d2, l.DataBitmapStart(), k) == IsSet(d1, l.DataBitmapStart(), k) {
      BitsSame(d1, d2, l.DataBitmapStart(), l.dataBitmapBlocks, k);
    }
  }

  lemma ExtendedNone(d: seq<Block>, l: Layout, count: nat, id: nat)
    requires FsOk(d, l, count) && id < count
    ensures Extended(d, d, l, id, InodeAt(d, l, id), [])
  {
    hide Words, BlockList, NoDup, Base, IsSet, DataBlocks, Raw, Owned, Apart, ZeroFrom, GetIno;
    Areas(l, id);
    assert InodeOk(d, l, id);
    GetInoWords(d[InodeBlock(l, id)], InodeOffset(id));
    assert Zeros(0) == [];
  }

  /** The contents after writing `buf` at `off`: a gap reads as zeros. */
  function WriteSpec(c: seq<byte>, off: nat, buf: seq<byte>): seq<byte>
  {
    (if |c| < off then c + Zeros(off - |c|) else c[..off]) + buf + (if off + |buf| < |c| then c[off + |buf|..] else [])
  }

  /** The splice on raw bytes is the write on contents, because bytes past the size are zero. */
  lemma SpliceIsWrite(raw: seq<byte>, size: nat, size': nat, grown: seq<byte>, off: nat, buf: seq<byte>)
    requires size <= |raw| && ZeroFrom(raw, size) && raw <= grown && (forall j | |raw| <= j < |grown| :: grown[j] == 0)
    requires size' == Max(size, off + |buf|) && size' <= |grown|
    ensures var r := grown[..off] + buf + grown[off + |buf|..];
            r[..size'] == WriteSpec(raw[..size], off, buf) && ZeroFrom(r, size')
  {
    var r := grown[..off] + buf + grown[off + |buf|..];
    var w := WriteSpec(raw[..size], off, buf);
    assert |w| == size';
    forall j | 0 <= j < size' ensures r[j] == w[j] {
      assert off <= j < off + |buf| || r[j] == grown[j];
    }
  }

  lemma WriteDone(d0: seq<Block>, d2: seq<Block>, d3: seq<Block>, l: Layout, count: nat, id: nat, ino: Ino, vec: seq<nat>, pins: set<nat>,
                  off: nat, buf: seq<byte>)
    requires FsOk(d0, l, count) && id < count && Extended(d0, d2, l, id, ino, vec)
    requires Written(d2, d3, pins, ino, DataBlocks(ino.size), off, buf)
    requires ino.size == Max(InodeAt(d0, l, id).size, off + |buf|)
    ensures FileStep(d0, d3, l, id, ino)
    ensures Contents(d3, ino) == WriteSpec(Contents(d0, InodeAt(d0, l, id)), off, buf)
  {
    hide Words, BlockList, NoDup, Base, InodeAt, IsSet, DataBlocks, Raw, Owned, Apart, Count, Sound, WriteSpec, ZeroFrom, InoWords;
    var was := InodeAt(d0, l, id);
    assert InodeOk(d0, l, id);
    SizeFits(was.size);
    SizeFits(ino.size);
    SpliceIsWrite(Raw(d0, was, DataBlocks(was.size)), was.size, ino.size, Raw(d2, ino, DataBlocks(ino.size)), off, buf);
    GrowBits(d0, d2, d3, l, vec, NewList(d2, ino));
    WriteFileStep(d0, d2, d3, l, count, id, ino, vec);
  }

  lemma WriteFileStep(d0: seq<Block>, d2: seq<Block>, d3: seq<Block>, l: Layout, count: nat, id: nat, ino: Ino, vec: seq<nat>)
    requires FsOk(d0, l, count) && id < count && Extended(d0, d2, l, id, ino, vec)
    requires |d3| == |d2| && NewList(d3, ino) == NewList(d2, ino)
    requires forall x: nat | x < |d2| && x !in NewList(d2, ino) :: d3[x] == d2[x]
    requires forall k: nat | k < l.DataBits() :: IsSet(d3, l.DataBitmapStart(), k) <==> IsSet(d0, l.DataBitmapStart(), k) || l.DataStart() + k in vec
    requires ZeroFrom(Raw(d3, ino, DataBlocks(ino.size)), ino.size)
    ensures FileStep(d0, d3, l, id, ino)
  {
    hide Words, BlockList, NoDup, Base, InodeAt, IsSet, DataBlocks, Raw, Owned, Apart, Count, ZeroFrom, InoWords, NewList, ListOf;
    assert InodeOk(d0, l, id);
    forall x | x in ListOf(d0, l, id) ensures IsSet(d0, l.DataBitmapStart(), x - l.DataStart()) && x >= l.DataStart() {
      OwnedBy(d0, l, count, id, x);
    }
    forall k: nat | k < l.DataBits()
      ensures l.DataStart() + k in ListOf(d0, l, id) ==> IsSet(d0, l.DataBitmapStart(), k)
    {
      if l.DataStart() + k in ListOf(d0, l, id) {
        OwnedBy(d0, l, count, id, l.DataStart() + k);
      }
    }
  }

  /** From `d0` to `d`, the blocks `v` were freed: they are zero and their bits are clear. */
  ghost predicate Freed(d0: seq<Block>, d: seq<Block>, l: Layout, v: seq<nat>)
  {
    && |d| == |d0|
    && (forall x: nat | x < |d| && !(l.DataBitmapStart() <= x < l.DataStart()) && x !in v :: d[x] == d0[x])
    && (forall x | x in v && x < |d| :: d[x] == ZeroBlock)
    && (forall k: nat | k < l.DataBits() ::
          IsSet(d, l.DataBitmapStart(), k) <==> IsSet(d0, l.DataBitmapStart(), k) && l.DataStart() + k !in v)
  }

  lemma FreedNone(d: seq<Block>, l: Layout)
    ensures Freed(d, d, l, [])
  {
  }

  lemma FreeOne(d0: seq<Block>, d: seq<Block>, d': seq<Block>, l: Layout, v: seq<nat>, b: nat)
    requires l.Tiled() && |d| >= l.totalBlocks && Freed(d0, d, l, v) && l.DataStart() <= b < l.totalBlocks
    requires BitChange(d[b := ZeroBlock], d', l.DataBitmapStart(), b - l.DataStart(), false)
    requires forall x | x in v :: x >= l.DataStart()
    ensures Freed(d0, d', l, v + [b])
  {
    hide IsSet;
    assert forall y | y in v + [b] :: y in v || y == b;
    assert b in v + [b] && forall y | y in v :: y in v + [b];
    forall k: nat | k < l.DataBits() ensures IsSet(d[b := ZeroBlock], l.DataBitmapStart(), k) == IsSet(d, l.DataBitmapStart(), k) {
      BitsSame(d, d[b := ZeroBlock], l.DataBitmapStart(), l.dataBitmapBlocks, k);
    }
    BitBlock(l, b - l.DataStart());
    forall k: nat | k < l.DataBits()
      ensures IsSet(d', l.DataBitmapStart(), k) <==> IsSet(d0, l.DataBitmapStart(), k) && l.DataStart() + k !in v + [b] {
      assert l.DataStart() + k == b <==> k == b - l.DataStart();
    }
  }

  lemma BitBlock(l: Layout, k: nat)
    requires l.Tiled() && k < l.dataAreaBlocks
    ensures l.DataBitmapStart() <= l.DataBitmapStart() + k / BLOCK_BITS < l.DataStart()
  {
  }

  lemma EmptyList(t: Table, ino: Ino)
    requires |ino.direct| == INODE_DIRECT_COUNT
    ensures BlockList(t, ino, 0) == []
  {
    BlockListParts(t, ino, 0);
  }

  /** `clear` on a volume: an empty file, its blocks free and zero. */
  lemma ClearDone(d0: seq<Block>, d: seq<Block>, l: Layout, count: nat, id: nat, ino: Ino)
    requires FsOk(d0, l, count) && id < count && Freed(d0, d, l, ListOf(d0, l, id))
    requires InoWords(ino) && ino.size == 0 && ino.isDir == InodeAt(d0, l, id).isDir
    ensures FileStep(d0, d, l, id, ino) && Contents(d, ino) == []
  {
    hide Words, BlockList, Base, InodeAt, IsSet, Raw, Owned, Apart, Count, ListOf;
    assert InodeOk(d0, l, id);
    EmptyList(Words(d), ino);
    assert DataBlocks(0) == 0;
  }

  /** `alloc_inode` and `initialize`: one more inode, an empty file. */
  lemma AddInode(d0: seq<Block>, d1: seq<Block>, l: Layout, count: nat)
    requires FsOk(d0, l, count) && count < l.Inodes() && BitChange(d0, d1, 1, count, true)
    ensures InodeBlock(l, count) < |d1|
    ensures var d := WithSlot(d1, l, count, NewIno(false));
            && FsOk(d, l, count + 1) && InodeAt(d, l, count) == NewIno(false)
            && (forall j: nat | j < count ::
                  InodeAt(d, l, j) == InodeAt(d0, l, j) && Contents(d, InodeAt(d, l, j)) == Contents(d0, InodeAt(d0, l, j)))
            && FreeBlocks(d, l) == FreeBlocks(d0, l)
  {
    hide Words, BlockList, Base, InodeAt, IsSet, Raw, Count, ListOf, Contents, NoDup, DataBlocks, NewIno, InodeOk;
    Areas(l, count);
    NewInoWords(false);
    var d := WithSlot(d1, l, count, NewIno(false));
    OwnSlot(d1, l, count, NewIno(false));
    InodeBits(d0, d1, d, l, count);
    forall j: nat | j < count
      ensures SameInode(d0, d, l, j) && ListOf(d, l, j) == ListOf(d0, l, j) && InodeOk(d, l, j)
      ensures Contents(d, InodeAt(d, l, j)) == Contents(d0, InodeAt(d0, l, j))
    {
      SameAfterAdd(d0, d1, l, count, j);
      SameInodeFacts(d0, d, l, j);
    }
    NewInodeOk(d, l, count);
    forall k: nat | k < l.DataBits()
      ensures IsSet(d, l.DataBitmapStart(), k) <==> Owned(d, l, count + 1, l.DataStart() + k)
    {
      OwnedAdd(d0, d, l, count, l.DataStart() + k);
    }
    FreeSame(d0, d, l);
  }

  lemma FreeSame(d0: seq<Block>, d: seq<Block>, l: Layout)
    requires l.Tiled() && forall k: nat | k < l.DataBits() :: IsSet(d, l.DataBitmapStart(), k) == IsSet(d0, l.DataBitmapStart(), k)
    ensures FreeBlocks(d, l) == FreeBlocks(d0, l)
  {
    hide IsSet;
    forall x: nat ensures IsFree(d, l, x) == IsFree(d0, l, x) {
    }
  }

  lemma NewInoWords(isDir: bool)
    ensures InoWords(NewIno(isDir))
  {
  }

  lemma NewInodeOk(d: seq<Block>, l: Layout, id: nat)
    requires InodeAt(d, l, id) == NewIno(id == 0)
    ensures ListOf(d, l, id) == [] && InodeOk(d, l, id)
  {
    hide Words, BlockList, InodeAt, Base;
    EmptyList(Words(d), NewIno(id == 0));
    assert DataBlocks(0) == 0;
  }

  lemma InodeIsOk(d: seq<Block>, l: Layout, count: nat, j: nat)
    requires FsOk(d, l, count) && j < count
    ensures l.Tiled() && |d| >= l.totalBlocks && count <= l.Inodes() && InodeOk(d, l, j)
  {
    hide InodeOk, IsSet, Apart, Owned, ListOf;
  }

  lemma SameAfterAdd(d0: seq<Block>, d1: seq<Block>, l: Layout, count: nat, j: nat)
    requires FsOk(d0, l, count) && count < l.Inodes() && BitChange(d0, d1, 1, count, true) && j < count
    requires InodeBlock(l, count) < |d1|
    ensures SameInode(d0, WithSlot(d1, l, count, NewIno(false)), l, j)
    ensures InodeOk(d0, l, j)
  {
    hide FsOk, Words, BlockList, Base, InodeAt, IsSet, Raw, Count, ListOf, NoDup, DataBlocks, NewIno, PutIno;
    InodeIsOk(d0, l, count, j);
    NewInoWords(false);
    Areas(l, count);
    Areas(l, j);
    OtherSlot(d1, l, count, NewIno(false), j);
    SlotSame(d0, d1, l, j);
  }

  lemma BitsBelowCount(d: seq<Block>, l: Layout, count: nat)
    requires FsOk(d, l, count)
    ensures l.Tiled() && |d| >= l.totalBlocks && forall k: nat | k < l.Inodes() :: IsSet(d, 1, k) <==> k < count
  {
    hide InodeOk, IsSet, Apart, Owned, ListOf;
  }

  /** Adding an inode leaves its bitmap as allocated and writes nothing after the inode area. */
  lemma AddedBlocks(d0: seq<Block>, d1: seq<Block>, d: seq<Block>, l: Layout, count: nat, ino: Ino)
    requires l.Tiled() && |d0| >= l.totalBlocks && count < l.Inodes() && BitChange(d0, d1, 1, count, true)
    requires InodeBlock(l, count) < |d1| && |ino.direct| == INODE_DIRECT_COUNT && d == WithSlot(d1, l, count, ino)
    ensures |d| == |d1| == |d0| && (|d| > 0 ==> d[0] == d0[0])
    ensures forall x: nat | 1 <= x < 1 + l.inodeBitmapBlocks && x < |d| :: d[x] == d1[x]
    ensures forall x: nat | l.DataBitmapStart() <= x < |d| :: d[x] == d0[x]
    ensures l.DataStart() <= l.totalBlocks
  {
    hide IsSet, PutIno, InodeBlock, Layout.Tiled;
    Areas(l, count);
    assert count / BLOCK_BITS < l.inodeBitmapBlocks;
  }

  lemma InodeBits(d0: seq<Block>, d1: seq<Block>, d: seq<Block>, l: Layout, count: nat)
    requires FsOk(d0, l, count) && count < l.Inodes() && BitChange(d0, d1, 1, count, true)
    requires InodeBlock(l, count) < |d1| && d == WithSlot(d1, l, count, NewIno(false))
    ensures forall k: nat | k < l.Inodes() :: IsSet(d, 1, k) <==> k < count + 1
    ensures forall k: nat | k < l.DataBits() :: IsSet(d, l.DataBitmapStart(), k) == IsSet(d0, l.DataBitmapStart(), k)
    ensures forall x: nat | l.DataStart() <= x < l.totalBlocks :: d[x] == d0[x]
  {
    hide FsOk, IsSet, WithSlot, InodeBlock, Layout.Tiled;
    BitsBelowCount(d0, l, count);
    AddedBlocks(d0, d1, d, l, count, NewIno(false));
    forall k: nat | k < l.Inodes() ensures IsSet(d, 1, k) <==> k < count + 1 {
      BitsSame(d1, d, 1, l.inodeBitmapBlocks, k);
    }
    forall k: nat | k < l.DataBits() ensures IsSet(d, l.DataBitmapStart(), k) == IsSet(d0, l.DataBitmapStart(), k) {
      BitsSame(d0, d, l.DataBitmapStart(), l.dataBitmapBlocks, k);
    }
  }

  lemma OwnedAdd(d0: seq<Block>, d: seq<Block>, l: Layout, count: nat, x: nat)
    requires forall j: nat | j < count :: ListOf(d, l, j) == ListOf(d0, l, j)
    requires ListOf(d, l, count) == []
    ensures Owned(d, l, count + 1, x) <==> Owned(d0, l, count, x)
  {
    hide ListOf;
    if Owned(d, l, count + 1, x) {
      var j: nat :| j < count + 1 && x in ListOf(d, l, j);
      assert x in ListOf(d0, l, j);
    }
    if Owned(d0, l, count, x) {
      var j: nat :| j < count && x in ListOf(d0, l, j);
      assert x in ListOf(d, l, j);
    }
  }
}
