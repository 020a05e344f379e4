/**
 The bytes on the device (easy-fs/src/layout.rs:25-92, 570-611, easy-fs/src/bitmap.rs): what the records, index
 blocks and bitmaps of the model are, byte by byte. Words are little-endian.
 */
module DiskFormat {
  import opened Bytes
  import opened Bits
  import opened BlockCaches
  import opened InodeTree
  import opened Bitmaps
  import opened Records
  import opened FsState
  import opened Efs

  /** The four bytes from `o` on are the word `v`, the least significant one first. */
  predicate Word32(s: seq<byte>, o: nat, v: nat)
  {
    o + 4 <= |s| && v == s[o] as int + 256 * s[o + 1] as int + 65536 * s[o + 2] as int + 16777216 * s[o + 3] as int
  }

  lemma GetIsWord(s: seq<byte>, o: nat)
    requires o + 4 <= |s|
    ensures Word32(s, o, Get(s, o, 4))
  {
    hide Get;
    GetBytes4(s, o);
  }

  // The super block.

  /** Block 0 is the magic number and the sizes of the volume and its areas, in this order. */
  lemma SuperBlockBytes(d: seq<Block>, l: Layout)
    requires SuperOk(d, l)
    ensures |d| > 0 && d[0][0] == 0x01 && d[0][1] == 0 && d[0][2] == 0x80 && d[0][3] == 0x3b
    ensures Word32(d[0], 4, l.totalBlocks) && Word32(d[0], 8, l.inodeBitmapBlocks) && Word32(d[0], 12, l.inodeAreaBlocks)
    ensures Word32(d[0], 16, l.dataBitmapBlocks) && Word32(d[0], 20, l.dataAreaBlocks)
  {
    hide Get;
    forall k: nat | k < 6 ensures Word32(d[0], 4 * k, SuperWords(l)[k]) {
      GetIsWord(d[0], 4 * k);
    }
    assert Word32(d[0], 4 * 0, SuperWords(l)[0]) && Word32(d[0], 4 * 1, SuperWords(l)[1]) && Word32(d[0], 4 * 2, SuperWords(l)[2]);
    assert Word32(d[0], 4 * 3, SuperWords(l)[3]) && Word32(d[0], 4 * 4, SuperWords(l)[4]) && Word32(d[0], 4 * 5, SuperWords(l)[5]);
  }

  // Inodes.

  /** Inode `id` is the `id`-th of the 128-byte slots after the inode bitmap. */
  lemma InodePosition(l: Layout, id: nat)
    ensures 512 * InodeBlock(l, id) + InodeOffset(id) == 512 * (1 + l.inodeBitmapBlocks) + 128 * id
  {
  }

  /** The slot holds the size, the direct entries, the three indirect ones and the kind, in this order. */
  lemma InodeFields(bytes: Block, o: nat)
    requires o + 128 <= 512
    ensures var ino := GetIno(bytes, o);
            && Word32(bytes, o, ino.size)
            && (forall i | 0 <= i < 27 :: Word32(bytes, o + 4 + 4 * i, ino.direct[i]))
            && Word32(bytes, o + 112, ino.indirect1) && Word32(bytes, o + 116, ino.indirect2) && Word32(bytes, o + 120, ino.indirect3)
            && (ino.isDir <==> bytes[o + 124] == 1)
  {
    hide Get;
    var ino := GetIno(bytes, o);
    GetIsWord(bytes, o);
    GetIsWord(bytes, o + 112);
    GetIsWord(bytes, o + 116);
    GetIsWord(bytes, o + 120);
    forall i | 0 <= i < 27 ensures Word32(bytes, o + 4 + 4 * i, ino.direct[i]) {
      GetIsWord(bytes, o + 4 + 4 * i);
    }
  }

  /** Storing an inode writes these fields, and no byte outside the first 125 of its slot. */
  lemma StoredInode(bytes: Block, o: nat, ino: Ino)
    requires o + 128 <= 512 && InoWords(ino)
    ensures var r := PutIno(bytes, o, ino);
            && Word32(r, o, ino.size)
            && (forall i | 0 <= i < 27 :: Word32(r, o + 4 + 4 * i, ino.direct[i]))
            && Word32(r, o + 112, ino.indirect1) && Word32(r, o + 116, ino.indirect2) && Word32(r, o + 120, ino.indirect3)
            && r[o + 124] == (if ino.isDir then 1 else 0)
            && (forall j | 0 <= j < 512 && !(o <= j < o + 125) :: r[j] == bytes[j])
  {
    hide GetIno, Word32;
    InoRoundTrip(bytes, o, ino);
    InodeFields(PutIno(bytes, o, ino), o);
    InoKind(bytes, o, ino);
  }

  /** `initialize` clears the inode. */
  lemma NewInodeIsClear(isDir: bool)
    ensures var ino := NewIno(isDir);
            ino.size == ino.indirect1 == ino.indirect2 == ino.indirect3 == 0 && ino.isDir == isDir && |ino.direct| == 27
            && forall i | 0 <= i < 27 :: ino.direct[i] == 0
  {
  }

  /** As many blocks as the size needs, and no more. */
  lemma DataBlocksExact(size: nat)
    ensures 512 * DataBlocks(size) >= size && (DataBlocks(size) > 0 ==> 512 * (DataBlocks(size) - 1) < size)
  {
  }

  // Index blocks.

  /** Entry `i` of an index block is its `i`-th word. */
  lemma IndexEntryBytes(bytes: Block, i: nat)
    requires i < 128
    ensures Word32(bytes, 4 * i, TreeBuild.Entry(bytes, i))
  {
    hide Get;
    GetIsWord(bytes, 4 * i);
  }

  // Bitmaps.

  /** The value of bit `i` of a byte. */
  function Weight(i: nat): nat
    requires i < 8
  {
    [1, 2, 4, 8, 16, 32, 64, 128][i]
  }

  /** Bit `k` of a bitmap is bit `k % 8` of its byte `k / 8`. */
  lemma BitmapByte(d: seq<Block>, start: nat, k: nat)
    requires start + k / 4096 < |d|
    ensures IsSet(d, start, k) <==> (d[start + k / 4096][k % 4096 / 8] as int / Weight(k % 8)) % 2 == 1
  {
    hide BlockBit, Weight;
    BlockByte(d[start + k / 4096], k % 4096);
    assert k % 4096 % 8 == k % 8;
  }

  lemma BlockByte(block: Block, k: nat)
    requires k < 4096
    ensures BlockBit(block, k) <==> (block[k / 8] as int / Weight(k % 8)) % 2 == 1
  {
    hide Bit, Weight, FromLe;
    var w, i := k / 64, k % 64;
    var s := block[8 * w..8 * w + 8];
    WordBit(s, i);
    assert 8 * w + i / 8 == k / 8 && i % 8 == k % 8;
    assert s[i / 8] == block[k / 8];
    ByteBit(s[i / 8], i % 8);
  }

  lemma {:induction false} WordBit(s: seq<byte>, i: nat)
    requires i < 8 * |s|
    ensures Bit(FromLe(s), i) == Bit(s[i / 8], i % 8)
  {
    hide Bit;
    var rest := FromLe(s[1..]);
    if i < 8 {
      LowBit(s[0], rest, i);
    } else {
      WordBit(s[1..], i - 8);
      assert s[1..][(i - 8) / 8] == s[i / 8] && (i - 8) % 8 == i % 8;
      HighBit(s[0], rest, i);
    }
  }

  lemma {:induction false} LowBit(a: nat, r: nat, i: nat)
    requires i < 8
    ensures Bit(a + 256 * r, i) == Bit(a, i)
  {
    LowBits(a, r, 8, i);
  }

  lemma {:induction false} LowBits(a: nat, r: nat, n: nat, i: nat)
    requires i < n
    ensures Bit(a + Pow2(n) * r, i) == Bit(a, i)
  {
    var p := Pow2(n - 1) * r;
    assert Pow2(n) * r == 2 * p;
    if i > 0 {
      LowBits(a / 2, r, n - 1, i - 1);
      assert (a + 2 * p) / 2 == a / 2 + p;
    }
  }

  lemma HighBit(a: nat, r: nat, i: nat)
    requires a < 256 && i >= 8
    ensures Bit(a + 256 * r, i) == Bit(r, i - 8)
  {
    hide Bit;
    var w := a + 256 * r;
    BitStep(w, i);
    BitStep(w / 2, i - 1);
    BitStep(w / 2 / 2, i - 2);
    BitStep(w / 2 / 2 / 2, i - 3);
    BitStep(w / 16, i - 4);
    BitStep(w / 16 / 2, i - 5);
    BitStep(w / 16 / 2 / 2, i - 6);
    BitStep(w / 16 / 2 / 2 / 2, i - 7);
    assert w / 2 / 2 / 2 / 2 == w / 16 && w / 16 / 2 / 2 / 2 / 2 == w / 256 == r;
  }

  lemma ByteBit(b: nat, i: nat)
    requires b < 256 && i < 8
    ensures Bit(b, i) <==> (b / Weight(i)) % 2 == 1
  {
  }
}
