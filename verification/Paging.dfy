/**
 Pages, page table entries and page numbers of Sv39 (os/src/mm/address.rs, os/src/mm/page_table.rs):
 section 4.4 of the RISC-V Privileged Architecture specification, version 20211203.
 */
module Paging {
  import opened Bytes

  const PAGE_SIZE: nat := 4096
  /** Physical page numbers have 44 bits, virtual page numbers 27. */
  const PPN_LIMIT: nat := 0x1000_0000_0000
  const VPN_LIMIT: nat := 0x800_0000

  type Frame = f: seq<byte> | |f| == PAGE_SIZE witness Zeros(PAGE_SIZE)

  function ZeroFrame(): Frame
  {
    Zeros(PAGE_SIZE)
  }

  /** Entry `i` of a frame seen as an array of 512 entries (`get_pte_array`). */
  function Pte(f: Frame, i: nat): nat
    requires i < 512
  {
    Get(f, 8 * i, 8)
  }

  function SetPte(f: Frame, i: nat, e: nat): Frame
    requires i < 512
  {
    Put(f, 8 * i, 8, e)
  }

  lemma Pow256Of8()
    ensures Pow256(8) == 0x1_0000_0000_0000_0000
  {
    assert Pow256(4) == 0x1_0000_0000;
    assert Pow256(8) == 256 * (256 * (256 * (256 * Pow256(4))));
  }

  lemma PteSet(f: Frame, i: nat, e: nat, j: nat)
    requires i < 512 && j < 512 && e < 0x1_0000_0000_0000_0000
    ensures Pte(SetPte(f, i, e), j) == if i == j then e else Pte(f, j)
  {
    hide Get, Put;
    Pow256Of8();
    if i == j {
      GetPut(f, 8 * i, 8, e);
    } else {
      GetPutOther(f, 8 * i, 8, e, 8 * j, 8);
    }
  }

  lemma PteZero(i: nat)
    requires i < 512
    ensures Pte(ZeroFrame(), i) == 0
  {
    hide Get;
    GetZeros(ZeroFrame(), 8 * i, 8);
  }

  // Entries.

  const V: nat := 1

  /** `PageTableEntry::new`: `ppn << 10 | flags`. */
  function Entry(ppn: nat, flags: nat): (e: nat)
    requires ppn < PPN_LIMIT && flags < 256
    ensures e < 0x1_0000_0000_0000_0000
  {
    ppn * 1024 + flags
  }

  function EntryPpn(e: nat): nat
  {
    (e / 1024) % PPN_LIMIT
  }

  function EntryFlags(e: nat): nat
  {
    e % 256
  }

  predicate IsValid(e: nat)
  {
    e % 2 == 1
  }

  predicate Readable(e: nat)
  {
    (e / 2) % 2 == 1
  }

  predicate Writable(e: nat)
  {
    (e / 4) % 2 == 1
  }

  predicate Executable(e: nat)
  {
    (e / 8) % 2 == 1
  }

  /** `flags | V`. */
  function WithV(flags: nat): (r: nat)
    ensures flags < 256 ==> r < 256
  {
    if flags % 2 == 1 then flags else flags + 1
  }

  /** An entry gives back the page number and the flags it was made from. */
  lemma EntryRoundTrip(ppn: nat, flags: nat)
    requires ppn < PPN_LIMIT && flags < 256
    ensures EntryPpn(Entry(ppn, flags)) == ppn && EntryFlags(Entry(ppn, flags)) == flags
    ensures IsValid(Entry(ppn, flags)) <==> flags % 2 == 1
    ensures Readable(Entry(ppn, flags)) == Readable(flags) && Writable(Entry(ppn, flags)) == Writable(flags)
    ensures Executable(Entry(ppn, flags)) == Executable(flags)
  {
    hide EntryPpn, EntryFlags, IsValid, Readable, Writable, Executable;
    var e := Entry(ppn, flags);
    assert EntryPpn(e) == ppn by { PpnOf(ppn, flags); }
    assert EntryFlags(e) == flags by { FlagsOf(ppn, flags); }
    FlagBits(ppn, flags);
  }

  lemma PpnOf(ppn: nat, flags: nat)
    requires ppn < PPN_LIMIT && flags < 256
    ensures EntryPpn(ppn * 1024 + flags) == ppn
  {
    assert (ppn * 1024 + flags) / 1024 == ppn;
  }

  lemma FlagsOf(ppn: nat, flags: nat)
    requires flags < 256
    ensures EntryFlags(ppn * 1024 + flags) == flags
  {
    var q := 4 * ppn;
    assert ppn * 1024 + flags == 256 * q + flags;
  }

  lemma FlagBits(ppn: nat, flags: nat)
    ensures IsValid(ppn * 1024 + flags) <==> flags % 2 == 1
    ensures Readable(ppn * 1024 + flags) == Readable(flags) && Writable(ppn * 1024 + flags) == Writable(flags)
    ensures Executable(ppn * 1024 + flags) == Executable(flags)
  {
    var e := ppn * 1024 + flags;
    assert e == 2 * (512 * ppn) + flags == 4 * (256 * ppn) + flags == 8 * (128 * ppn) + flags;
    Even(512 * ppn, flags);
    DivBy2(512 * ppn, flags);
    Even(256 * ppn, flags / 2);
    DivBy4(256 * ppn, flags);
    Even(128 * ppn, flags / 4);
    DivBy8(128 * ppn, flags);
    Even(64 * ppn, flags / 8);
  }

  lemma Even(p: nat, f: nat)
    ensures (2 * p + f) % 2 == f % 2
  {
  }

  lemma DivBy2(p: nat, f: nat)
    ensures (2 * p + f) / 2 == p + f / 2
  {
  }

  lemma DivBy4(p: nat, f: nat)
    ensures (4 * p + f) / 4 == p + f / 4
  {
  }

  lemma DivBy8(p: nat, f: nat)
    ensures (8 * p + f) / 8 == p + f / 8
  {
  }

  /** `PageTable::token`: the mode field 8 and the page number of the root, for the `satp` register. */
  function Token(root: nat): nat
  {
    0x8000_0000_0000_0000 + root
  }

  // Page numbers.

  /** The three indices of a virtual page number, the top level first. */
  function Index(vpn: nat, level: nat): (i: nat)
    requires level < 3
    ensures i < 512
  {
    if level == 0 then (vpn / 262144) % 512 else if level == 1 then (vpn / 512) % 512 else vpn % 512
  }

  /** `VirtPageNum::indexes`. */
  method Indexes(vpn: nat) returns (idx: seq<nat>)
    ensures |idx| == 3 && forall l | 0 <= l < 3 :: idx[l] == Index(vpn, l)
    ensures vpn < VPN_LIMIT ==> vpn == (idx[0] * 512 + idx[1]) * 512 + idx[2]
  {
    idx := [0, 0, 0];
    var v := vpn;
    var i := 3;
    while i > 0
      invariant 0 <= i <= 3 && |idx| == 3
      invariant v == if i == 3 then vpn else if i == 2 then vpn / 512 else if i == 1 then vpn / 262144 else v
      invariant forall l | i <= l < 3 :: idx[l] == Index(vpn, l)
    {
      i := i - 1;
      idx := idx[i := v % 512];
      v := v / 512;
    }
  }
}
