/**
 What runs of operations mean for the abstract volume: each file is the outcome of the operations on
 that file alone, names are never lost or moved, and `ls` gives the order of creation.
 */
module FsRuns {
  import opened Bytes
  import opened Records
  import opened TreeBuild
  import opened FsSteps
  import opened FsSpec

  /** The effect on one file of the operations that name it, skipping all others. */
  function Own(c: seq<byte>, ops: seq<Op>, i: nat): seq<byte>
  {
    if ops == [] then c
    else
      var before := Own(c, ops[..|ops| - 1], i);
      match ops[|ops| - 1]
      case Create(_) => before
      case Write(j, off, buf) => if i == j then WriteSpec(before, off, buf) else before
      case Clear(j) => if i == j then [] else before
  }

  /** Distinct names in the order in which they are first created. */
  function Created(names: seq<Name>, ops: seq<Op>): seq<Name>
  {
    if ops == [] then names
    else
      var before := Created(names, ops[..|ops| - 1]);
      match ops[|ops| - 1]
      case Create(name) => if name in before then before else before + [name]
      case _ => before
  }

  /** In a run, files do not interfere: each ends as its own operations leave it. */
  lemma {:induction false} FilesAreIndependent(v: Volume, ops: seq<Op>, i: nat)
    requires i < |v.files|
    ensures i < |ApplyAll(v, ops).files| && ApplyAll(v, ops).files[i] == Own(v.files[i], ops, i)
  {
    hide WriteSpec;
    if ops != [] {
      FilesAreIndependent(v, ops[..|ops| - 1], i);
    }
  }

  /** A file that no operation of the run names keeps its contents. */
  lemma {:induction false} Untouched(c: seq<byte>, ops: seq<Op>, i: nat)
    requires forall k | 0 <= k < |ops| :: ops[k].Create? || ops[k].file != i
    ensures Own(c, ops, i) == c
  {
    if ops != [] {
      Untouched(c, ops[..|ops| - 1], i);
    }
  }

  /** The directory lists exactly the created names, in order of creation, and never moves one. */
  lemma {:induction false} NamesInOrder(v: Volume, ops: seq<Op>)
    ensures ApplyAll(v, ops).names == Created(v.names, ops)
    ensures v.names <= Created(v.names, ops)
    ensures forall n | n in Created(v.names, ops) :: n in v.names || Create(n) in ops
    ensures forall n | Create(n) in ops :: n in Created(v.names, ops)
  {
    hide WriteSpec;
    if ops != [] {
      var before, last := ops[..|ops| - 1], ops[|ops| - 1];
      NamesInOrder(v, before);
      assert forall op | op in ops :: op in before || op == last;
      assert forall op | op in before :: op in ops;
    }
  }

  /** The slot found for a name is the one it was created with, whatever happens later. */
  lemma FindIsStable(v: Volume, ops: seq<Op>, name: Name)
    requires name in v.names
    ensures IndexOf(ApplyAll(v, ops).names, name) == IndexOf(v.names, name)
  {
    NamesInOrder(v, ops);
    var m := ApplyAll(v, ops).names;
    var i := IndexOf(v.names, name);
    assert m[i] == name;
    assert forall j | 0 <= j < i :: m[j] != name by {
      assert forall j | 0 <= j < i :: m[j] == v.names[j];
    }
  }

  /** Names stay distinct, and each has a file, through every run of legal operations. */
  lemma {:induction false} RunsAreWellFormed(v: Volume, ops: seq<Op>)
    requires WellFormed(v) && forall k | 0 <= k < |ops| :: ops[k].Create? ==> LegalName(ops[k].name)
    ensures WellFormed(ApplyAll(v, ops))
  {
    hide WriteSpec, LegalName;
    if ops != [] {
      RunsAreWellFormed(v, ops[..|ops| - 1]);
    }
  }

  /** What was written is read back after any run that does not name the file again. */
  lemma ReadBack(v: Volume, i: nat, off: nat, buf: seq<byte>, ops: seq<Op>)
    requires i < |v.files| && forall k | 0 <= k < |ops| :: ops[k].Create? || ops[k].file != i
    ensures var v' := ApplyAll(Apply(v, Write(i, off, buf)), ops);
            && i < |v'.files| && |v'.files[i]| == Max(|v.files[i]|, off + |buf|)
            && v'.files[i][off..off + |buf|] == buf
            && (forall p | |v.files[i]| <= p < off :: v'.files[i][p] == 0)
            && (forall p | 0 <= p < |v.files[i]| && !(off <= p < off + |buf|) :: v'.files[i][p] == v.files[i][p])
  {
    var w := Apply(v, Write(i, off, buf));
    FilesAreIndependent(w, ops, i);
    Untouched(w.files[i], ops, i);
  }
}
