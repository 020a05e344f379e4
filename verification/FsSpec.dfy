/**
 The abstract file system: an ordered directory of names, each with a sequence of bytes.
 */
module FsSpec {
  import opened Seqs
  import opened Bytes
  import opened BlockCaches
  import opened TreeBuild
  import opened InodeTree
  import opened InodeGrow
  import opened Records
  import opened FsState
  import opened FsSteps
  import opened FileBytes
  import opened Bitmaps

  type Name = seq<byte>

  /** `files[i]` are the contents of the file called `names[i]`, in order of creation. */
  datatype Volume = Volume(names: seq<Name>, files: seq<seq<byte>>)

  datatype Op =
    | Create(name: Name)
    | Write(file: nat, offset: nat, buf: seq<byte>)
    | Clear(file: nat)

  function Apply(v: Volume, op: Op): Volume
  {
    match op
    case Create(name) => if name in v.names then v else Volume(v.names + [name], v.files + [[]])
    case Write(i, off, buf) => if i < |v.files| then v.(files := v.files[i := WriteSpec(v.files[i], off, buf)]) else v
    case Clear(i) => if i < |v.files| then v.(files := v.files[i := []]) else v
  }

  function ApplyAll(v: Volume, ops: seq<Op>): Volume
  {
    if ops == [] then v else Apply(ApplyAll(v, ops[..|ops| - 1]), ops[|ops| - 1])
  }

  const Empty: Volume := Volume([], [])

  function SumBlocks(files: seq<seq<byte>>): nat
  {
    if files == [] then 0 else SumBlocks(files[..|files| - 1]) + TotalBlocks(|files[|files| - 1]|)
  }

  /** Every block that the volume's files and its directory occupy. */
  function VolumeBlocks(v: Volume): nat
  {
    TotalBlocks(DIRENT_SZ * |v.names|) + SumBlocks(v.files)
  }

  /** The abstract volume fits on a device with this layout. */
  ghost predicate Fits(l: Layout, v: Volume)
  {
    && VolumeBlocks(v) <= l.dataAreaBlocks && |v.names| + 1 <= l.Inodes()
    && DataBlocks(DIRENT_SZ * |v.names|) <= Base(LEVELS + 1)
    && (forall i | 0 <= i < |v.files| :: DataBlocks(|v.files[i]|) <= Base(LEVELS + 1))
  }

  /**
   What callers must respect: names fit an entry, the result fits the device, and the block of the offset
   is one of the file after the write, which it always is unless nothing is written at a block boundary.
   */
  ghost predicate Allowed(l: Layout, v: Volume, op: Op)
  {
    && Fits(l, Apply(v, op))
    && match op
       case Create(name) => LegalName(name)
       case Write(i, off, buf) => i < |v.files| && off / BLOCK_SZ < DataBlocks(|WriteSpec(v.files[i], off, buf)|)
       case Clear(i) => i < |v.files| && DataBlocks(|v.files[i]|) <= 27 + 128 + 128 * 128 * 128
  }

  ghost predicate AllAllowed(l: Layout, v: Volume, ops: seq<Op>)
  {
    ops == [] || (AllAllowed(l, v, ops[..|ops| - 1]) && Allowed(l, ApplyAll(v, ops[..|ops| - 1]), ops[|ops| - 1]))
  }

  /** Names are distinct and each has a file. */
  predicate WellFormed(v: Volume)
  {
    && |v.names| == |v.files|
    && (forall i, j | 0 <= i < j < |v.names| :: v.names[i] != v.names[j])
    && (forall i | 0 <= i < |v.names| :: LegalName(v.names[i]))
  }

  /** Position of a name, or the number of names when it is not there. */
  function IndexOf(names: seq<Name>, name: Name): (i: nat)
    ensures i <= |names|
    ensures i < |names| ==> names[i] == name
    ensures i == |names| <==> name !in names
    ensures forall j | 0 <= j < i :: names[j] != name
  {
    if names == [] then 0 else if names[0] == name then 0 else 1 + IndexOf(names[1..], name)
  }

  // The directory file.

  /** The bytes of the root directory. */
  function DirBytes(names: seq<Name>): (s: seq<byte>)
    requires forall i | 0 <= i < |names| :: LegalName(names[i])
    ensures |s| == DIRENT_SZ * |names|
  {
    if names == [] then []
    else
      assert LegalName(names[|names| - 1]);
      DirBytes(names[..|names| - 1]) + DirentBytes(names[|names| - 1], |names|)
  }

  lemma {:induction false} EntrySlice(names: seq<Name>, i: nat)
    requires (forall j | 0 <= j < |names| :: LegalName(names[j])) && i < |names|
    ensures DIRENT_SZ * i + DIRENT_SZ <= |DirBytes(names)|
    ensures DirBytes(names)[DIRENT_SZ * i..DIRENT_SZ * i + DIRENT_SZ] == DirentBytes(names[i], i + 1)
  {
    hide DirentBytes;
    var m := names[..|names| - 1];
    if i < |m| {
      EntrySlice(m, i);
      assert DirBytes(names)[DIRENT_SZ * i..DIRENT_SZ * i + DIRENT_SZ] == DirBytes(m)[DIRENT_SZ * i..DIRENT_SZ * i + DIRENT_SZ];
    }
  }

  /** Byte `j` of entry `i`: the name padded with zeros to 28 bytes, then the number of the inode, lowest byte first. */
  lemma DirEntryAt(names: seq<Name>, i: nat, j: nat)
    requires (forall k | 0 <= k < |names| :: LegalName(names[k])) && i < |names| && i + 1 < 0x1_0000_0000 && j < 32
    ensures DirBytes(names)[32 * i..32 * i + 32] == DirentBytes(names[i], i + 1)
    ensures DirBytes(names)[32 * i + j] == if j < |names[i]| then names[i][j]
                                           else if j < 28 then 0
                                           else if j == 28 then (i + 1) % 256
                                           else if j == 29 then (i + 1) / 256 % 256
                                           else if j == 30 then (i + 1) / 65536 % 256
                                           else (i + 1) / 16777216
  {
    hide DirBytes;
    EntrySlice(names, i);
    EntryByte(names[i], i + 1, j);
    assert DirBytes(names)[32 * i..32 * i + 32][j] == DirBytes(names)[32 * i + j];
  }

  lemma AppendEntry(names: seq<Name>, name: Name)
    requires (forall j | 0 <= j < |names| :: LegalName(names[j])) && LegalName(name)
    ensures DirBytes(names + [name]) == DirBytes(names) + DirentBytes(name, |names| + 1)
  {
    hide DirentBytes;
    assert (names + [name])[..|names|] == names;
  }

  /** Writing at the end of a file appends. */
  lemma AppendWrite(c: seq<byte>, buf: seq<byte>)
    ensures WriteSpec(c, |c|, buf) == c + buf
  {
  }

  // Accounting: free blocks and the blocks of all inodes are the whole data area.

  ghost function ListSum(d: seq<Block>, l: Layout, count: nat): nat
  {
    if count == 0 then 0 else ListSum(d, l, count - 1) + |ListOf(d, l, count - 1)|
  }

  ghost function UsedBlocks(d: seq<Block>, l: Layout, count: nat): set<nat>
  {
    if count == 0 then {} else UsedBlocks(d, l, count - 1) + Elements(ListOf(d, l, count - 1))
  }

  lemma {:induction false} InUsed(d: seq<Block>, l: Layout, count: nat, x: nat)
    ensures x in UsedBlocks(d, l, count) <==> Owned(d, l, count, x)
  {
    hide ListOf;
    if count > 0 {
      InUsed(d, l, count - 1, x);
      if Owned(d, l, count, x) {
        var j: nat :| j < count && x in ListOf(d, l, j);
        assert j < count - 1 ==> Owned(d, l, count - 1, x);
      }
    }
  }

  lemma {:induction false} UsedCount(d: seq<Block>, l: Layout, count: nat, all: nat)
    requires FsOk(d, l, all) && count <= all
    ensures |UsedBlocks(d, l, count)| == ListSum(d, l, count)
  {
    hide ListOf, IsSet, InodeAt, Raw, NoDup, Base, DataBlocks, Elements, Owned, ZeroFrom;
    if count > 0 {
      UsedCount(d, l, count - 1, all);
      assert InodeOk(d, l, count - 1);
      ElementsCount(ListOf(d, l, count - 1));
      LastApart(d, l, count, all);
    }
  }

  lemma LastApart(d: seq<Block>, l: Layout, count: nat, all: nat)
    requires FsOk(d, l, all) && 0 < count <= all
    ensures UsedBlocks(d, l, count - 1) !! Elements(ListOf(d, l, count - 1))
  {
    hide ListOf, IsSet, InodeOk, UsedBlocks;
    var used, last := UsedBlocks(d, l, count - 1), Elements(ListOf(d, l, count - 1));
    forall x | x in used ensures x !in last {
      InUsed(d, l, count - 1, x);
      var j: nat :| j < count - 1 && x in ListOf(d, l, j);
      assert Apart(ListOf(d, l, j), ListOf(d, l, count - 1));
    }
  }

  /** Conservation: every block of the data area is free or on exactly one inode's list. */
  lemma Conservation(d: seq<Block>, l: Layout, count: nat)
    requires FsOk(d, l, count)
    ensures |FreeBlocks(d, l)| + ListSum(d, l, count) == l.dataAreaBlocks
  {
    hide ListOf, IsSet, InodeOk, Apart, Owned, ListSum, UsedBlocks, FreeBlocks, Range;
    UsedCount(d, l, count, count);
    DataAreaShared(d, l, count);
    RangeCount(l.DataStart(), l.DataStart() + l.dataAreaBlocks);
  }

  lemma DataAreaShared(d: seq<Block>, l: Layout, count: nat)
    requires FsOk(d, l, count)
    ensures FreeBlocks(d, l) + UsedBlocks(d, l, count) == Range(l.DataStart(), l.DataStart() + l.dataAreaBlocks) && FreeBlocks(d, l) !! UsedBlocks(d, l, count)
  {
    hide ListOf, IsSet, InodeOk, Apart, Owned, UsedBlocks, IsFree;
    var a, b, r := FreeBlocks(d, l), UsedBlocks(d, l, count), Range(l.DataStart(), l.DataStart() + l.dataAreaBlocks);
    forall x: nat ensures (x in r <==> x in a || x in b) && !(x in a && x in b) {
      InUsed(d, l, count, x);
      FreeOrOwned(d, l, count, x);
    }
  }

  lemma FreeOrOwned(d: seq<Block>, l: Layout, count: nat, x: nat)
    requires FsOk(d, l, count)
    ensures if l.DataStart() <= x < l.totalBlocks then IsFree(d, l, x) <==> !Owned(d, l, count, x)
            else !IsFree(d, l, x) && !Owned(d, l, count, x)
  {
    hide ListOf, IsSet, Apart, Raw, ZeroFrom, InodeAt, DataBlocks, Base, NoDup;
    if l.DataStart() <= x < l.totalBlocks {
      assert IsSet(d, l.DataBitmapStart(), x - l.DataStart()) <==> Owned(d, l, count, l.DataStart() + (x - l.DataStart()));
    }
    if Owned(d, l, count, x) {
      OwnedRange(d, l, count, x);
    }
  }

  lemma OwnedRange(d: seq<Block>, l: Layout, count: nat, x: nat)
    requires FsOk(d, l, count) && Owned(d, l, count, x)
    ensures l.DataStart() <= x < l.totalBlocks
  {
    hide ListOf, IsSet, Apart, Raw, ZeroFrom, InodeAt, DataBlocks, Base, NoDup;
    var j: nat :| j < count && x in ListOf(d, l, j);
    assert InodeOk(d, l, j);
  }

  // The disk represents an abstract volume.

  /** The consistent disk `d` holds exactly the files and names of `v`. */
  ghost predicate Represents(d: seq<Block>, l: Layout, v: Volume)
  {
    && WellFormed(v) && FsOk(d, l, |v.names| + 1)
    && Contents(d, InodeAt(d, l, 0)) == DirBytes(v.names)
    && (forall i: nat | i < |v.files| :: Contents(d, InodeAt(d, l, i + 1)) == v.files[i])
  }

  lemma SameNames(a: seq<Name>, b: seq<Name>)
    requires (forall i | 0 <= i < |a| :: LegalName(a[i])) && (forall i | 0 <= i < |b| :: LegalName(b[i])) && DirBytes(a) == DirBytes(b)
    ensures a == b
  {
    hide LegalName, DirBytes, NameAt;
    assert |a| == |b|;
    forall i | 0 <= i < |a| ensures a[i] == b[i] {
      assert NameAt(DirBytes(a), i) == a[i] by { NameIs(a, i); }
      assert NameAt(DirBytes(b), i) == b[i] by { NameIs(b, i); }
    }
  }

  /** The name in slot `i` of a directory's bytes. */
  function NameAt(dir: seq<byte>, i: nat): Name
  {
    if DIRENT_SZ * i + DIRENT_SZ <= |dir| then NameOf(dir[DIRENT_SZ * i..DIRENT_SZ * i + DIRENT_SZ][..NAME_LENGTH_LIMIT + 1]) else []
  }

  lemma NameIs(names: seq<Name>, i: nat)
    requires (forall j | 0 <= j < |names| :: LegalName(names[j])) && i < |names|
    ensures NameAt(DirBytes(names), i) == names[i]
  {
    hide LegalName, DirBytes, DirentBytes, NameOf;
    EntrySlice(names, i);
    DirentName(names[i], i + 1);
  }

  /** The bytes on the disk leave no choice: a disk represents at most one volume. */
  lemma VolumeIsDetermined(d: seq<Block>, l: Layout, v: Volume, w: Volume)
    requires Represents(d, l, v) && Represents(d, l, w)
    ensures v == w
  {
    hide FsOk, Contents, InodeAt, DirBytes, LegalName;
    SameNames(v.names, w.names);
    forall i | 0 <= i < |v.files| ensures v.files[i] == w.files[i] {
      assert Contents(d, InodeAt(d, l, i + 1)) == v.files[i];
      assert Contents(d, InodeAt(d, l, i + 1)) == w.files[i];
    }
  }

  lemma ListLength(d: seq<Block>, l: Layout, id: nat)
    requires DataBlocks(InodeAt(d, l, id).size) <= Base(LEVELS + 1)
    ensures |ListOf(d, l, id)| == TotalBlocks(InodeAt(d, l, id).size)
  {
    hide BlockList, InodeAt, Count, Base, TotalBlocks, Words;
    BlockListLength(Words(d), InodeAt(d, l, id), DataBlocks(InodeAt(d, l, id).size));
    TotalBlocksExact(InodeAt(d, l, id).size);
  }

  lemma {:induction false} ListSumIs(d: seq<Block>, l: Layout, v: Volume, k: nat)
    requires Represents(d, l, v) && k <= |v.files|
    ensures ListSum(d, l, k + 1) == TotalBlocks(DIRENT_SZ * |v.names|) + SumBlocks(v.files[..k])
  {
    hide ListOf, IsSet, Apart, Raw, ZeroFrom, InodeAt, Base, NoDup, TotalBlocks, Owned, Contents, DirBytes;
    if k == 0 {
      assert InodeOk(d, l, 0);
      ListLength(d, l, 0);
      assert ListSum(d, l, 1) == ListSum(d, l, 0) + |ListOf(d, l, 0)|;
    } else {
      ListSumIs(d, l, v, k - 1);
      assert InodeOk(d, l, k);
      ListLength(d, l, k);
      assert v.files[..k][..k - 1] == v.files[..k - 1];
      assert Contents(d, InodeAt(d, l, k - 1 + 1)) == v.files[k - 1];
    }
  }

  /** The number of free blocks is what the volume leaves of the data area. */
  lemma FreeSpace(d: seq<Block>, l: Layout, v: Volume)
    requires Represents(d, l, v)
    ensures |FreeBlocks(d, l)| + VolumeBlocks(v) == l.dataAreaBlocks
  {
    hide FsOk, IsFree, TotalBlocks, Contents, InodeAt, ListSum, DirBytes, SumBlocks, FreeBlocks;
    ListSumIs(d, l, v, |v.files|);
    assert v.files[..|v.files|] == v.files;
    Conservation(d, l, |v.names| + 1);
  }

  lemma {:induction false} SumUpdate(files: seq<seq<byte>>, i: nat, c: seq<byte>)
    requires i < |files|
    ensures SumBlocks(files[i := c]) + TotalBlocks(|files[i]|) == SumBlocks(files) + TotalBlocks(|c|)
  {
    hide TotalBlocks;
    var n := |files| - 1;
    if i < n {
      SumUpdate(files[..n], i, c);
      assert files[i := c][..n] == files[..n][i := c];
    } else {
      assert files[i := c][..n] == files[..n];
    }
  }

  /** A step on the inode of file `i` that gives it contents `c` is an update of the abstract volume. */
  lemma FileUpdated(d0: seq<Block>, d: seq<Block>, l: Layout, v: Volume, i: nat, ino: Ino, c: seq<byte>)
    requires Represents(d0, l, v) && i < |v.files| && FileStep(d0, d, l, i + 1, ino) && Contents(d, ino) == c
    ensures InodeBlock(l, i + 1) < |d|
    ensures Represents(WithSlot(d, l, i + 1, ino), l, v.(files := v.files[i := c]))
  {
    hide FsOk, FileStep, Contents, InodeAt, DirBytes;
    FinishStep(d0, d, l, |v.names| + 1, i + 1, ino);
  }

  /** A step on the root inode that appends an entry, after its inode was added, is a creation. */
  lemma NameAdded(d0: seq<Block>, d: seq<Block>, l: Layout, v: Volume, ino: Ino, name: Name)
    requires WellFormed(v) && LegalName(name) && name !in v.names && FsOk(d0, l, |v.names| + 2)
    requires Contents(d0, InodeAt(d0, l, 0)) == DirBytes(v.names)
    requires forall i: nat | i < |v.files| :: Contents(d0, InodeAt(d0, l, i + 1)) == v.files[i]
    requires Contents(d0, InodeAt(d0, l, |v.names| + 1)) == []
    requires FileStep(d0, d, l, 0, ino) && Contents(d, ino) == DirBytes(v.names + [name])
    ensures InodeBlock(l, 0) < |d|
    ensures Represents(WithSlot(d, l, 0, ino), l, Volume(v.names + [name], v.files + [[]]))
  {
    hide FsOk, FileStep, Contents, InodeAt, DirBytes;
    FinishStep(d0, d, l, |v.names| + 2, 0, ino);
  }
}
