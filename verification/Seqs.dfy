/** Sequences without repetition, and how many elements sets have. */
module Seqs {
  ghost predicate NoDup(s: seq<nat>)
  {
    forall i, j | 0 <= i < j < |s| :: s[i] != s[j]
  }

  lemma NoDupParts(a: seq<nat>, b: seq<nat>)
    requires NoDup(a + b)
    ensures NoDup(a) && NoDup(b)
    ensures forall x | x in a :: x !in b
  {
    var s := a + b;
    forall i, j | 0 <= i < j < |a| ensures a[i] != a[j] {
      assert s[i] == a[i] && s[j] == a[j];
    }
    forall i, j | 0 <= i < j < |b| ensures b[i] != b[j] {
      assert s[|a| + i] == b[i] && s[|a| + j] == b[j];
    }
    forall x | x in a ensures x !in b {
      var i :| 0 <= i < |a| && a[i] == x;
      forall j | 0 <= j < |b| ensures b[j] != x {
        assert s[i] == x && s[|a| + j] == b[j];
      }
    }
  }

  lemma NoDupJoin(a: seq<nat>, b: seq<nat>)
    requires NoDup(a) && NoDup(b) && forall x | x in a :: x !in b
    ensures NoDup(a + b)
  {
    var s := a + b;
    forall i, j | 0 <= i < j < |s| ensures s[i] != s[j] {
      if i < |a| <= j {
        assert s[i] in a && s[j] in b;
      }
    }
  }

  lemma NoDupAppend(s: seq<nat>, x: nat)
    requires NoDup(s) && x !in s
    ensures NoDup(s + [x]) && |s + [x]| == |s| + 1 && (s + [x])[|s|] == x
    ensures forall y :: y in s + [x] <==> y in s || y == x
  {
    assert (s + [x])[|s|] == x;
  }

  lemma NoDupNone()
    ensures NoDup([])
  {
  }

  lemma NoDupRemove(s: seq<nat>, i: nat)
    requires NoDup(s) && i < |s|
    ensures var r := s[..i] + s[i + 1..]; NoDup(r) && forall x :: x in r <==> x in s && x != s[i]
  {
    var r := s[..i] + s[i + 1..];
    forall x | x in s && x != s[i] ensures x in r {
      var j :| 0 <= j < |s| && s[j] == x;
      assert r[if j < i then j else j - 1] == x;
    }
    forall k | 0 <= k < |r| ensures r[k] in s && r[k] != s[i] {
      assert r[k] == s[if k < i then k else k + 1];
    }
  }

  lemma {:induction false} OnceInNoDup(s: seq<nat>, x: nat)
    requires NoDup(s)
    ensures multiset(s)[x] == if x in s then 1 else 0
  {
    if s != [] {
      var r, y := s[..|s| - 1], s[|s| - 1];
      assert s == r + [y];
      OnceInNoDup(r, x);
    }
  }

  ghost function Elements(s: seq<nat>): set<nat>
  {
    set x | x in s
  }

  lemma {:induction false} ElementsCount(s: seq<nat>)
    requires NoDup(s)
    ensures |Elements(s)| == |s|
  {
    hide NoDup;
    if s != [] {
      var t, x := s[..|s| - 1], s[|s| - 1];
      assert s == t + [x];
      NoDupParts(t, [x]);
      ElementsCount(t);
      assert Elements(s) == Elements(t) + {x};
    }
  }

  /** The numbers from `start` to `k`. */
  ghost function Range(start: nat, k: nat): (r: set<nat>)
    ensures forall v :: v in r <==> start <= v < k
  {
    if k <= start then {} else Range(start, k - 1) + {k - 1}
  }

  lemma {:induction false} RangeCount(start: nat, k: nat)
    requires start <= k
    ensures |Range(start, k)| == k - start
  {
    if start < k {
      RangeCount(start, k - 1);
    }
  }
}
