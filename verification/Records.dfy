/**
 The fixed-size records that easy-fs keeps inside blocks (easy-fs/src/layout.rs): the super block,
 the 128-byte inode slots and the 32-byte directory entries.
 */
module Records {
  import opened Bytes
  import opened BlockCaches
  import opened TreeBuild
  import opened InodeTree

  const EFS_MAGIC: nat := 0x3b800001
  const INODE_SIZE: nat := 128
  const DIRENT_SZ: nat := 32
  const NAME_LENGTH_LIMIT: nat := 27

  /** Consecutive little-endian `u32` words. */
  function Le32s(ws: seq<nat>): (s: seq<byte>)
    ensures |s| == 4 * |ws|
  {
    if ws == [] then [] else ToLe(ws[0], 4) + Le32s(ws[1..])
  }

  lemma {:induction false} Le32sAt(ws: seq<nat>, k: nat)
    requires k < |ws| && ws[k] < U32
    ensures Get(Le32s(ws), 4 * k, 4) == ws[k]
  {
    var s := Le32s(ws);
    if k == 0 {
      assert s[0..4] == ToLe(ws[0], 4);
      assert Pow256(4) == U32;
      FromToLe(ws[0], 4);
    } else {
      Le32sAt(ws[1..], k - 1);
      var r := Le32s(ws[1..]);
      assert s[4..] == r;
      assert s[4 * k..4 * k + 4] == r[4 * (k - 1)..4 * (k - 1) + 4];
    }
  }

  /** Overwrite part of a block. */
  function Patch(bytes: Block, o: nat, src: seq<byte>): (r: Block)
    requires o + |src| <= BLOCK_SZ
    ensures r[o..o + |src|] == src
    ensures forall i | 0 <= i < BLOCK_SZ && !(o <= i < o + |src|) :: r[i] == bytes[i]
  {
    bytes[..o] + src + bytes[o + |src|..]
  }

  lemma PatchWord(bytes: Block, o: nat, src: seq<byte>, k: nat)
    requires o + |src| <= BLOCK_SZ && k + 4 <= |src|
    ensures Get(Patch(bytes, o, src), o + k, 4) == Get(src, k, 4)
  {
    var r := Patch(bytes, o, src);
    assert r[o + k..o + k + 4] == r[o..o + |src|][k..k + 4];
  }

  // Inode slots.

  ghost predicate InoWords(ino: Ino)
  {
    && |ino.direct| == INODE_DIRECT_COUNT && ino.size < U32
    && (forall i | 0 <= i < INODE_DIRECT_COUNT :: ino.direct[i] < U32)
    && ino.indirect1 < U32 && ino.indirect2 < U32 && ino.indirect3 < U32
  }

  function InoBytes(ino: Ino): (s: seq<byte>)
    requires |ino.direct| == INODE_DIRECT_COUNT
    ensures |s| == 125
  {
    Le32s([ino.size] + ino.direct + [ino.indirect1, ino.indirect2, ino.indirect3]) + [if ino.isDir then 1 else 0]
  }

  /** The first `k` direct entries of the inode stored at byte offset `o`. */
  function DirectWords(bytes: Block, o: nat, k: nat): (s: seq<nat>)
    requires k <= INODE_DIRECT_COUNT && o + INODE_SIZE <= BLOCK_SZ
    ensures |s| == k
    ensures forall i | 0 <= i < k :: s[i] == Get(bytes, o + 4 * (i + 1), 4)
  {
    if k == 0 then [] else DirectWords(bytes, o, k - 1) + [Get(bytes, o + 4 * k, 4)]
  }

  /** The inode stored at byte offset `o`. */
  function GetIno(bytes: Block, o: nat): (ino: Ino)
    requires o + INODE_SIZE <= BLOCK_SZ
  {
    Ino(Get(bytes, o, 4), DirectWords(bytes, o, INODE_DIRECT_COUNT),
        Get(bytes, o + 112, 4), Get(bytes, o + 116, 4), Get(bytes, o + 120, 4), bytes[o + 124] == 1)
  }

  function PutIno(bytes: Block, o: nat, ino: Ino): Block
    requires o + INODE_SIZE <= BLOCK_SZ && |ino.direct| == INODE_DIRECT_COUNT
  {
    Patch(bytes, o, InoBytes(ino))
  }

  lemma GetInoWords(bytes: Block, o: nat)
    requires o + INODE_SIZE <= BLOCK_SZ
    ensures InoWords(GetIno(bytes, o))
  {
    hide Get;
    forall k: nat | k < 31 ensures Get(bytes, o + 4 * k, 4) < U32 {
      WordBound(bytes, o + 4 * k);
    }
    assert Get(bytes, o + 4 * 0, 4) < U32 && Get(bytes, o + 4 * 28, 4) < U32 && Get(bytes, o + 4 * 29, 4) < U32 && Get(bytes, o + 4 * 30, 4) < U32;
    var ino := GetIno(bytes, o);
    forall i | 0 <= i < INODE_DIRECT_COUNT ensures ino.direct[i] < U32 {
      assert ino.direct[i] == Get(bytes, o + 4 * (i + 1), 4);
    }
  }

  lemma WordBound(bytes: seq<byte>, o: nat)
    requires o + 4 <= |bytes|
    ensures Get(bytes, o, 4) < U32
  {
    assert Pow256(4) == U32;
    FromLeBound(bytes[o..o + 4]);
  }

  lemma InoWordAt(bytes: Block, o: nat, ino: Ino, k: nat)
    requires o + INODE_SIZE <= BLOCK_SZ && InoWords(ino) && k < 31
    ensures Get(PutIno(bytes, o, ino), o + 4 * k, 4) == ([ino.size] + ino.direct + [ino.indirect1, ino.indirect2, ino.indirect3])[k]
  {
    hide Get, Le32s;
    var ws := [ino.size] + ino.direct + [ino.indirect1, ino.indirect2, ino.indirect3];
    var s, all := Le32s(ws), InoBytes(ino);
    PatchWord(bytes, o, all, 4 * k);
    GetAppend(s, [if ino.isDir then 1 else 0], 4 * k, 4);
    Le32sAt(ws, k);
  }

  lemma GetAppend(s: seq<byte>, t: seq<byte>, o: nat, n: nat)
    requires o + n <= |s|
    ensures Get(s + t, o, n) == Get(s, o, n)
  {
    assert (s + t)[o..o + n] == s[o..o + n];
  }

  /** Reading a slot just written gives the inode back. */
  lemma InoRoundTrip(bytes: Block, o: nat, ino: Ino)
    requires o + INODE_SIZE <= BLOCK_SZ && InoWords(ino)
    ensures GetIno(PutIno(bytes, o, ino), o) == ino
  {
    hide Get, Le32s, PutIno;
    var r := PutIno(bytes, o, ino);
    var got := GetIno(r, o);
    InoWordAt(bytes, o, ino, 0);
    InoWordAt(bytes, o, ino, 28);
    InoWordAt(bytes, o, ino, 29);
    InoWordAt(bytes, o, ino, 30);
    forall i | 0 <= i < INODE_DIRECT_COUNT ensures got.direct[i] == ino.direct[i] {
      InoWordAt(bytes, o, ino, i + 1);
    }
    assert got.direct == ino.direct;
    InoKind(bytes, o, ino);
  }

  lemma InoKind(bytes: Block, o: nat, ino: Ino)
    requires o + INODE_SIZE <= BLOCK_SZ && |ino.direct| == INODE_DIRECT_COUNT
    ensures PutIno(bytes, o, ino)[o + 124] == if ino.isDir then 1 else 0
  {
    var r := PutIno(bytes, o, ino);
    assert r[o + 124] == r[o..o + 125][124] == InoBytes(ino)[124];
  }

  /** A slot depends only on its own bytes. */
  lemma SlotFrame(bytes: Block, bytes': Block, o: nat)
    requires o + INODE_SIZE <= BLOCK_SZ
    requires forall i | o <= i < o + INODE_SIZE :: bytes'[i] == bytes[i]
    ensures GetIno(bytes', o) == GetIno(bytes, o)
  {
    hide Get;
    forall k: nat | k < 31 ensures Get(bytes', o + 4 * k, 4) == Get(bytes, o + 4 * k, 4) {
      GetSame(bytes', bytes, o + 4 * k, 4);
    }
    var a, b := GetIno(bytes, o), GetIno(bytes', o);
    assert Get(bytes', o + 4 * 0, 4) == Get(bytes, o + 4 * 0, 4);
    assert Get(bytes', o + 4 * 28, 4) == Get(bytes, o + 4 * 28, 4);
    assert Get(bytes', o + 4 * 29, 4) == Get(bytes, o + 4 * 29, 4);
    assert Get(bytes', o + 4 * 30, 4) == Get(bytes, o + 4 * 30, 4);
    forall i | 0 <= i < INODE_DIRECT_COUNT ensures a.direct[i] == b.direct[i] {
      assert Get(bytes', o + 4 * (i + 1), 4) == Get(bytes, o + 4 * (i + 1), 4);
    }
    assert a.direct == b.direct;
  }

  // Directory entries.

  /** A name that fits an entry: at most 27 bytes, none of them NUL. */
  predicate LegalName(name: seq<byte>)
  {
    |name| <= NAME_LENGTH_LIMIT && forall i | 0 <= i < |name| :: name[i] != 0
  }

  /** `DirEntry::new(name, inode_number).as_bytes()`. */
  function DirentBytes(name: seq<byte>, inode: nat): (s: seq<byte>)
    requires |name| <= NAME_LENGTH_LIMIT
    ensures |s| == DIRENT_SZ
  {
    name + Zeros(NAME_LENGTH_LIMIT + 1 - |name|) + ToLe(inode, 4)
  }

  /** `DirEntry::name`: the bytes before the first NUL. */
  function NameOf(s: seq<byte>): (name: seq<byte>)
    ensures |name| <= |s| && name == s[..|name|]
    ensures forall i | 0 <= i < |name| :: name[i] != 0
    ensures |name| < |s| ==> s[|name|] == 0
  {
    if s == [] || s[0] == 0 then [] else [s[0]] + NameOf(s[1..])
  }

  /** `DirEntry::inode_number`. */
  function InodeOf(s: seq<byte>): nat
    requires |s| == DIRENT_SZ
  {
    Get(s, NAME_LENGTH_LIMIT + 1, 4)
  }

  lemma {:induction false} NameUpTo(s: seq<byte>, name: seq<byte>)
    requires |name| < |s| && s[..|name|] == name && s[|name|] == 0 && forall i | 0 <= i < |name| :: name[i] != 0
    ensures NameOf(s) == name
  {
    if name != [] {
      assert s[0] == name[0];
      assert s[1..][..|name| - 1] == name[1..];
      NameUpTo(s[1..], name[1..]);
    }
  }

  lemma DirentName(name: seq<byte>, inode: nat)
    requires LegalName(name)
    ensures NameOf(DirentBytes(name, inode)[..NAME_LENGTH_LIMIT + 1]) == name
  {
    var f := DirentBytes(name, inode)[..NAME_LENGTH_LIMIT + 1];
    assert f[..|name|] == name && f[|name|] == 0;
    NameUpTo(f, name);
  }

  /** Of the names that fit an entry the legal ones are exactly those that it gives back. */
  lemma LegalNames(name: seq<byte>, inode: nat)
    requires |name| <= 27
    ensures LegalName(name) <==> NameOf(DirentBytes(name, inode)[..28]) == name
  {
    hide NameOf;
    if LegalName(name) {
      DirentName(name, inode);
    }
  }

  /** A directory entry read back gives the name and the inode number it was made from. */
  lemma DirentRoundTrip(name: seq<byte>, inode: nat)
    requires LegalName(name) && inode < U32
    ensures NameOf(DirentBytes(name, inode)[..NAME_LENGTH_LIMIT + 1]) == name
    ensures InodeOf(DirentBytes(name, inode)) == inode
  {
    hide NameOf, FromLe, ToLe, Pow256;
    DirentName(name, inode);
    DirentInode(name, inode);
  }

  lemma DirentInode(name: seq<byte>, inode: nat)
    requires |name| <= NAME_LENGTH_LIMIT && inode < U32
    ensures InodeOf(DirentBytes(name, inode)) == inode
  {
    hide ToLe, FromLe;
    assert DirentBytes(name, inode)[28..32] == ToLe(inode, 4);
    assert Pow256(4) == U32;
    FromToLe(inode, 4);
  }

  /** Byte `j` of an entry: the name, zeros up to 28 bytes, and the number of the inode, lowest byte first. */
  lemma EntryByte(name: seq<byte>, inode: nat, j: nat)
    requires |name| <= 27 && inode < 0x1_0000_0000 && j < 32
    ensures DirentBytes(name, inode)[j] == if j < |name| then name[j]
                                           else if j < 28 then 0
                                           else if j == 28 then inode % 256
                                           else if j == 29 then inode / 256 % 256
                                           else if j == 30 then inode / 65536 % 256
                                           else inode / 16777216
  {
    hide ToLe, Get;
    var s := DirentBytes(name, inode);
    if j >= 28 {
      DirentInode(name, inode);
      GetBytes4(s, 28);
      Digits(inode, s[28], s[29], s[30], s[31]);
    }
  }

  lemma Digits(v: nat, a: nat, b: nat, c: nat, d: nat)
    requires a < 256 && b < 256 && c < 256 && d < 256 && v == a + 256 * b + 65536 * c + 16777216 * d
    ensures a == v % 256 && b == v / 256 % 256 && c == v / 65536 % 256 && d == v / 16777216
  {
    assert v / 256 == b + 256 * c + 65536 * d;
    assert v / 65536 == c + 256 * d;
  }
}
