/**
 The on-disk allocation bitmap (easy-fs/src/bitmap.rs): 64 words of 64 bits in every block.
 */
module Bitmaps {
  import opened Options
  import opened Bytes
  import opened Bits
  import opened BlockCaches

  const BLOCK_BITS: nat := BLOCK_SZ * 8
  const WORDS_PER_BLOCK: nat := 64
  const U64_MAX: nat := 0xffff_ffff_ffff_ffff

  /** Word `w` of a bitmap block. */
  function WordAt(bytes: Block, w: nat): nat
    requires w < WORDS_PER_BLOCK
  {
    Get(bytes, 8 * w, 8)
  }

  function SetWordAt(bytes: Block, w: nat, v: nat): Block
    requires w < WORDS_PER_BLOCK
  {
    Put(bytes, 8 * w, 8, v)
  }

  lemma MaxWord()
    ensures Pow256(8) == Pow2(64) == U64_MAX + 1
  {
    Pow2Of8n(8);
    assert Pow256(4) == 0x1_0000_0000;
    assert Pow256(8) == 256 * (256 * (256 * (256 * Pow256(4))));
  }

  lemma WordBound(bytes: Block, w: nat)
    requires w < WORDS_PER_BLOCK
    ensures WordAt(bytes, w) <= U64_MAX
  {
    MaxWord();
    FromLeBound(bytes[8 * w..8 * w + 8]);
  }

  lemma WordSetWord(bytes: Block, w: nat, v: nat, u: nat)
    requires w < WORDS_PER_BLOCK && u < WORDS_PER_BLOCK && v <= U64_MAX
    ensures WordAt(SetWordAt(bytes, w, v), u) == if u == w then v else WordAt(bytes, u)
  {
    MaxWord();
    if u == w {
      GetPut(bytes, 8 * w, 8, v);
    } else {
      GetPutOther(bytes, 8 * w, 8, v, 8 * u, 8);
    }
  }

  /** Bit `k` of one bitmap block. */
  predicate BlockBit(bytes: Block, k: nat)
    requires k < BLOCK_BITS
  {
    Bit(WordAt(bytes, k / 64), k % 64)
  }

  /** Bit `k` of the bitmap that starts at block `start`. */
  predicate IsSet(d: seq<Block>, start: nat, k: nat)
  {
    start + k / BLOCK_BITS < |d| && BlockBit(d[start + k / BLOCK_BITS], k % BLOCK_BITS)
  }

  /** Only bit `k` of the bitmap may differ between the two disks, and it is `v` afterwards. */
  ghost predicate BitChange(d: seq<Block>, d': seq<Block>, start: nat, k: nat, v: bool)
  {
    && |d'| == |d|
    && (forall x: nat | x < |d| && x != start + k / BLOCK_BITS :: d'[x] == d[x])
    && (forall j: nat :: IsSet(d', start, j) <==> if j == k then v else IsSet(d, start, j))
  }

  /** Changing one bit of one word. */
  lemma ChangeBit(d: seq<Block>, start: nat, k: nat, v: nat, bit: bool)
    requires start + k / BLOCK_BITS < |d| && v <= U64_MAX
    requires var w := WordAt(d[start + k / BLOCK_BITS], (k % BLOCK_BITS) / 64);
             forall i | 0 <= i < 64 :: Bit(v, i) == if i == k % 64 then bit else Bit(w, i)
    ensures var b := start + k / BLOCK_BITS;
            BitChange(d, d[b := SetWordAt(d[b], (k % BLOCK_BITS) / 64, v)], start, k, bit)
  {
    hide Bit, WordAt, SetWordAt;
    var b, u := start + k / BLOCK_BITS, (k % BLOCK_BITS) / 64;
    var bytes := SetWordAt(d[b], u, v);
    var d' := d[b := bytes];
    assert k % 64 == (k % BLOCK_BITS) % 64;
    forall j: nat ensures IsSet(d', start, j) <==> if j == k then bit else IsSet(d, start, j) {
      if j / BLOCK_BITS == k / BLOCK_BITS {
        WordSetWord(d[b], u, v, (j % BLOCK_BITS) / 64);
        SameBit(j, k);
      }
    }
  }

  lemma SameBit(j: nat, k: nat)
    ensures j / BLOCK_BITS == k / BLOCK_BITS && (j % BLOCK_BITS) / 64 == (k % BLOCK_BITS) / 64 && (j % BLOCK_BITS) % 64 == (k % BLOCK_BITS) % 64 <==> j == k
  {
  }

  class Bitmap {
    const startBlockId: nat
    const blocks: nat

    constructor (startBlockId: nat, blocks: nat)
      ensures this.startBlockId == startBlockId && this.blocks == blocks
    {
      this.startBlockId, this.blocks := startBlockId, blocks;
    }

    /** `maximum`: the number of bits. */
    function Maximum(): nat
    {
      blocks * BLOCK_BITS
    }

    /** The first word of a block that is not all ones. */
    static method FindWord(bytes: Block) returns (w: nat)
      ensures w <= WORDS_PER_BLOCK
      ensures w < WORDS_PER_BLOCK ==> WordAt(bytes, w) != U64_MAX
      ensures forall u | 0 <= u < w :: WordAt(bytes, u) == U64_MAX
    {
      w := 0;
      while w < WORDS_PER_BLOCK && WordAt(bytes, w) == U64_MAX
        invariant w <= WORDS_PER_BLOCK
        invariant forall u | 0 <= u < w :: WordAt(bytes, u) == U64_MAX
      {
        w := w + 1;
      }
    }

    /** Blocks whose first `w` words are all ones have their first `64 * w` bits set. */
    static lemma OnesSet(bytes: Block, w: nat)
      requires w <= WORDS_PER_BLOCK && forall u | 0 <= u < w :: WordAt(bytes, u) == U64_MAX
      ensures forall j: nat | j < 64 * w :: BlockBit(bytes, j)
    {
      hide Bit, WordAt;
      MaxWord();
      forall j: nat | j < 64 * w ensures BlockBit(bytes, j) {
        BitOfOnes(64, j % 64);
      }
    }

    /** The least clear bit of the first word with one is the least clear bit of the block. */
    static lemma FirstClear(bytes: Block, w: nat)
      requires w < WORDS_PER_BLOCK && WordAt(bytes, w) != U64_MAX
      requires forall u | 0 <= u < w :: WordAt(bytes, u) == U64_MAX
      ensures var i := TrailingOnes(WordAt(bytes, w));
              && i < 64 && !BlockBit(bytes, 64 * w + i)
              && (forall j: nat | j < 64 * w + i :: BlockBit(bytes, j))
              && WordAt(bytes, w) + Pow2(i) <= U64_MAX
    {
      hide Bit, WordAt, TrailingOnes;
      WordBound(bytes, w);
      MaxWord();
      var v := WordAt(bytes, w);
      TrailingOnesBound(v, 64);
      TrailingOnesLeast(v);
      var i := TrailingOnes(v);
      BitBound(v, i, 64);
      OnesSet(bytes, w);
      forall j: nat | 64 * w <= j < 64 * w + i ensures BlockBit(bytes, j) {
        assert j / 64 == w && j % 64 == j - 64 * w;
      }
      assert (64 * w + i) / 64 == w && (64 * w + i) % 64 == i;
    }

    /** `alloc`: set and return the least clear bit, or `None` when every bit is set. */
    method Alloc(cache: BlockCacheManager) returns (r: Option<nat>)
      requires cache.Valid() && |cache.pins| < cache.budget && startBlockId + blocks <= |cache.disk|
      requires forall x | startBlockId <= x < startBlockId + blocks :: x !in cache.pins
      modifies cache
      ensures cache.Valid() && cache.pins == old(cache.pins)
      ensures r.None? ==> cache.disk == old(cache.disk)
                          && forall j: nat | j < Maximum() :: IsSet(cache.disk, startBlockId, j)
      ensures r.Some? ==> r.value < Maximum() && !IsSet(old(cache.disk), startBlockId, r.value)
                          && (forall j: nat | j < r.value :: IsSet(old(cache.disk), startBlockId, j))
                          && BitChange(old(cache.disk), cache.disk, startBlockId, r.value, true)
    {
      hide Bit, WordAt, SetWordAt, BlockBit, BlockCacheManager.Valid, BitChange, TrailingOnes, Pow2, IsSet;
      ghost var d := cache.disk;
      var blockId := 0;
      while blockId < blocks
        invariant blockId <= blocks && cache.Valid() && cache.pins == old(cache.pins) && cache.disk == d
        invariant forall j: nat | j < blockId * BLOCK_BITS :: IsSet(d, startBlockId, j)
      {
        var b := blockId + startBlockId;
        cache.Lock(b);
        var bytes := cache.Read(b);
        var w := FindWord(bytes);
        if w < WORDS_PER_BLOCK {
          var i := TrailingOnes(WordAt(bytes, w));
          FirstClear(bytes, w);
          AllocAt(d, startBlockId, blockId, bytes, w, i);
          cache.Modify(b, SetWordAt(bytes, w, WordAt(bytes, w) + Pow2(i)));
          cache.Unlock(b);
          return Some(blockId * BLOCK_BITS + w * 64 + i);
        }
        cache.Unlock(b);
        OnesSet(bytes, WORDS_PER_BLOCK);
        BlockFull(d, startBlockId, blockId, bytes);
        blockId := blockId + 1;
      }
      return None;
    }

    static lemma BlockFull(d: seq<Block>, start: nat, blockId: nat, bytes: Block)
      requires start + blockId < |d| && bytes == d[start + blockId] && forall j: nat | j < BLOCK_BITS :: BlockBit(bytes, j)
      requires forall j: nat | j < blockId * BLOCK_BITS :: IsSet(d, start, j)
      ensures forall j: nat | j < (blockId + 1) * BLOCK_BITS :: IsSet(d, start, j)
    {
      hide BlockBit;
      forall j: nat | blockId * BLOCK_BITS <= j < (blockId + 1) * BLOCK_BITS ensures IsSet(d, start, j) {
        assert j / BLOCK_BITS == blockId;
      }
    }

    static lemma AllocAt(d: seq<Block>, start: nat, blockId: nat, bytes: Block, w: nat, i: nat)
      requires start + blockId < |d| && bytes == d[start + blockId] && w < WORDS_PER_BLOCK && i < 64
      requires forall j: nat | j < blockId * BLOCK_BITS :: IsSet(d, start, j)
      requires !BlockBit(bytes, 64 * w + i)
      requires forall j: nat | j < 64 * w + i :: BlockBit(bytes, j)
      requires WordAt(bytes, w) + Pow2(i) <= U64_MAX
      ensures var k, b := blockId * BLOCK_BITS + w * 64 + i, blockId + start;
              && !IsSet(d, start, k) && (forall j: nat | j < k :: IsSet(d, start, j))
              && BitChange(d, d[b := SetWordAt(bytes, w, WordAt(bytes, w) + Pow2(i))], start, k, true)
    {
      hide Bit, WordAt, SetWordAt, Pow2, BitChange;
      var k := blockId * BLOCK_BITS + w * 64 + i;
      assert k / BLOCK_BITS == blockId && k % BLOCK_BITS == 64 * w + i && (64 * w + i) / 64 == w && k % 64 == i;
      forall j: nat | j < k ensures IsSet(d, start, j) {
        if j >= blockId * BLOCK_BITS {
          assert j / BLOCK_BITS == blockId && j % BLOCK_BITS < 64 * w + i;
        }
      }
      var v := WordAt(bytes, w);
      forall n | 0 <= n < 64 ensures Bit(v + Pow2(i), n) == if n == i then true else Bit(v, n) {
        BitSet(v, i, n);
      }
      ChangeBit(d, start, k, v + Pow2(i), true);
    }

    /** `dealloc`: clear a set bit. `ok == false` is the failing assertion that the bit is set. */
    method Dealloc(cache: BlockCacheManager, bit: nat) returns (ok: bool)
      requires cache.Valid() && |cache.pins| < cache.budget && bit < Maximum()
      requires startBlockId + blocks <= |cache.disk|
      requires forall x | startBlockId <= x < startBlockId + blocks :: x !in cache.pins
      modifies cache
      ensures cache.Valid() && cache.pins == old(cache.pins)
      ensures ok == IsSet(old(cache.disk), startBlockId, bit)
      ensures if ok then BitChange(old(cache.disk), cache.disk, startBlockId, bit, false) else cache.disk == old(cache.disk)
    {
      hide Bit, WordAt, SetWordAt, BlockCacheManager.Valid, BitChange, Pow2, IsSet;
      var blockPos, word, inner := bit / BLOCK_BITS, (bit % BLOCK_BITS) / 64, (bit % BLOCK_BITS) % 64;
      var b := blockPos + startBlockId;
      BitPosition(cache.disk, startBlockId, blocks, bit);
      cache.Lock(b);
      var bytes := cache.Read(b);
      var v := WordAt(bytes, word);
      ok := Bit(v, inner);
      if ok {
        DeallocAt(cache.disk, startBlockId, bit);
        cache.Modify(b, SetWordAt(bytes, word, v - Pow2(inner)));
      }
      cache.Unlock(b);
    }

    static lemma BitPosition(d: seq<Block>, start: nat, blocks: nat, k: nat)
      requires k < blocks * BLOCK_BITS && start + blocks <= |d|
      ensures k / BLOCK_BITS < blocks
      ensures IsSet(d, start, k) == Bit(WordAt(d[k / BLOCK_BITS + start], (k % BLOCK_BITS) / 64), (k % BLOCK_BITS) % 64)
    {
      hide Bit, WordAt;
    }

    static lemma DeallocAt(d: seq<Block>, start: nat, k: nat)
      requires IsSet(d, start, k)
      ensures var b, w, i := start + k / BLOCK_BITS, (k % BLOCK_BITS) / 64, (k % BLOCK_BITS) % 64;
              && Pow2(i) <= WordAt(d[b], w)
              && BitChange(d, d[b := SetWordAt(d[b], w, WordAt(d[b], w) - Pow2(i))], start, k, false)
    {
      hide Bit, WordAt, SetWordAt, Pow2, BitChange;
      var b, w, i := start + k / BLOCK_BITS, (k % BLOCK_BITS) / 64, (k % BLOCK_BITS) % 64;
      var v := WordAt(d[b], w);
      assert i == k % 64;
      BitClear(v, i, i);
      WordBound(d[b], w);
      forall n | 0 <= n < 64 ensures Bit(v - Pow2(i), n) == if n == i then false else Bit(v, n) {
        BitClear(v, i, n);
      }
      ChangeBit(d, start, k, v - Pow2(i), false);
    }
  }
}
