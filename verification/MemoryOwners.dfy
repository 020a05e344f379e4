/**
 Who owns the frames: the address spaces, side by side, share out exactly the frames in use, and what
 one of them does is invisible to the others.
 */
module MemoryOwners {
  import opened Paging
  import opened PageTree
  import opened MemorySets

  ghost predicate OwnedBySome(owners: seq<set<nat>>, x: nat)
  {
    exists i | 0 <= i < |owners| :: x in owners[i]
  }

  /** Every frame in use belongs to exactly one owner. */
  ghost predicate Partition(owners: seq<set<nat>>, live: set<nat>)
  {
    && (forall i, j | 0 <= i < j < |owners| :: owners[i] !! owners[j])
    && (forall x :: x in live <==> OwnedBySome(owners, x))
  }

  lemma OwnedIn(owners: seq<set<nat>>, i: nat)
    requires i < |owners|
    ensures forall x | x in owners[i] :: OwnedBySome(owners, x)
  {
  }

  ghost function SumSizes(owners: seq<set<nat>>): nat
  {
    if owners == [] then 0 else SumSizes(owners[..|owners| - 1]) + |owners[|owners| - 1]|
  }

  /** The number of frames in use is the sum over the owners. */
  lemma {:induction false} PartitionCount(owners: seq<set<nat>>, live: set<nat>)
    requires Partition(owners, live)
    ensures |live| == SumSizes(owners)
    decreases |owners|
  {
    hide Partition;
    if owners == [] {
      NobodyOwns(live);
    } else {
      var last := owners[|owners| - 1];
      WithoutLast(owners, live);
      PartitionCount(owners[..|owners| - 1], live - last);
      assert live == (live - last) + last;
    }
  }

  lemma NobodyOwns(live: set<nat>)
    requires Partition([], live)
    ensures live == {}
  {
    assert forall x :: !OwnedBySome([], x);
  }

  lemma WithoutLast(owners: seq<set<nat>>, live: set<nat>)
    requires Partition(owners, live) && owners != []
    ensures owners[|owners| - 1] <= live && Partition(owners[..|owners| - 1], live - owners[|owners| - 1])
  {
    var rest, last := owners[..|owners| - 1], owners[|owners| - 1];
    OwnedIn(owners, |owners| - 1);
    forall x ensures x in live - last <==> OwnedBySome(rest, x) {
      if x in live - last {
        var i :| 0 <= i < |owners| && x in owners[i];
        assert x in rest[i];
      }
      if OwnedBySome(rest, x) {
        var i :| 0 <= i < |rest| && x in rest[i];
        assert x in owners[i] && owners[i] !! last;
        assert OwnedBySome(owners, x);
      }
    }
  }

  /** An operation that is confined to one owner keeps the partition. */
  lemma ChangeKeepsPartition(owners: seq<set<nat>>, ram: seq<Frame>, ram': seq<Frame>, live: set<nat>, live': set<nat>, i: nat, fp: set<nat>)
    requires i < |owners| && Partition(owners, live) && Confined(ram, ram', live, live', owners[i], fp)
    ensures Partition(owners[i := fp], live')
  {
    var after := owners[i := fp];
    forall j | 0 <= j < |owners| && j != i ensures owners[j] !! fp && owners[j] <= live - owners[i] {
      OwnedIn(owners, j);
    }
    forall x ensures x in live' <==> OwnedBySome(after, x) {
      if x in live' {
        if x in fp {
          assert x in after[i];
        } else {
          assert x in live' - fp;
          assert x in live && OwnedBySome(owners, x);
          var j :| 0 <= j < |owners| && x in owners[j];
          assert x in after[j];
        }
      }
      if OwnedBySome(after, x) {
        var j :| 0 <= j < |after| && x in after[j];
        assert j != i ==> x in owners[j] && x in live - owners[i];
      }
    }
  }

  /** A new address space takes frames that nobody had. */
  lemma CreateKeepsPartition(owners: seq<set<nat>>, live: set<nat>, live': set<nat>, fp: set<nat>)
    requires Partition(owners, live) && fp !! live && live' == live + fp
    ensures Partition(owners + [fp], live')
  {
    var after := owners + [fp];
    forall i | 0 <= i < |owners| ensures owners[i] !! fp {
      OwnedIn(owners, i);
    }
    forall x ensures x in live' <==> OwnedBySome(after, x) {
      if x in live' {
        if x in fp {
          assert x in after[|owners|];
        } else {
          var j :| 0 <= j < |owners| && x in owners[j];
          assert x in after[j];
        }
      }
      if OwnedBySome(after, x) {
        var j :| 0 <= j < |after| && x in after[j];
        assert j < |owners| ==> x in owners[j] && OwnedBySome(owners, x);
      }
    }
  }

  /**
   Isolation: whatever is confined to the frames of one address space leaves every other one with the
   same page table, the same hardware translation and the same bytes in its pages.
   */
  lemma Isolated(n: Nodes, table: map<nat, nat>, data: map<nat, nat>, ram: seq<Frame>, ram': seq<Frame>, live: set<nat>, live': set<nat>,
                 fp: set<nat>, fp': set<nat>, vpn: nat)
    requires Tree(n, ram, table) && NodeFrames(n) + data.Values <= live && (NodeFrames(n) + data.Values) !! fp
    requires Confined(ram, ram', live, live', fp, fp') && vpn < VPN_LIMIT
    ensures Tree(n, ram', table) && NodeFrames(n) + data.Values <= live' && (NodeFrames(n) + data.Values) !! fp'
    ensures HardwareWalk(ram', n.root, vpn, 0) == HardwareWalk(ram, n.root, vpn, 0)
    ensures vpn in data && data[vpn] < |ram| ==> ram'[data[vpn]] == ram[data[vpn]]
  {
    hide Tree, NodeFrames, HardwareWalk;
    forall x | x in NodeFrames(n) + data.Values ensures x in live' && x !in fp' {
      assert x in live - fp;
    }
    TreeFrame(n, ram, ram', table);
    HardwareAgrees(n, ram, table, vpn);
    HardwareAgrees(n, ram', table, vpn);
    ValueIn(data, vpn);
  }

  /** A store to a page of one address space is confined to it. */
  lemma StoreIsConfined(data: map<nat, nat>, nodes: set<nat>, ram: seq<Frame>, live: set<nat>, vpn: nat, bytes: Frame)
    requires vpn in data && data[vpn] < |ram| && nodes + data.Values <= live
    ensures Confined(ram, ram[data[vpn] := bytes], live, live, nodes + data.Values, nodes + data.Values)
  {
    assert data[vpn] in data.Values;
  }
}
