/**
 Little-endian machine words inside byte sequences, and the bits of a word.

 The kernel and the file system reinterpret raw bytes as arrays of `u32` and `u64`; `Get` and
 `Put` are that reinterpretation on a little-endian machine.
 */
module Bytes {

  type byte = x: int | 0 <= x < 256

  function Zeros(n: nat): (s: seq<byte>)
    ensures |s| == n
    ensures forall i | 0 <= i < n :: s[i] == 0
  {
    seq(n, _ => 0)
  }

  function Pow256(n: nat): nat
  {
    if n == 0 then 1 else 256 * Pow256(n - 1)
  }

  function FromLe(s: seq<byte>): nat
  {
    if s == [] then 0 else s[0] + 256 * FromLe(s[1..])
  }

  function ToLe(v: nat, n: nat): (s: seq<byte>)
    ensures |s| == n
  {
    if n == 0 then [] else [v % 256] + ToLe(v / 256, n - 1)
  }

  lemma {:induction false} FromToLe(v: nat, n: nat)
    requires v < Pow256(n)
    ensures FromLe(ToLe(v, n)) == v
  {
    if n > 0 {
      FromToLe(v / 256, n - 1);
      assert ToLe(v, n)[1..] == ToLe(v / 256, n - 1);
    }
  }

  lemma {:induction false} FromLeBound(s: seq<byte>)
    ensures FromLe(s) < Pow256(|s|)
  {
    if s != [] {
      FromLeBound(s[1..]);
    }
  }

  lemma {:induction false} FromLeZeros(s: seq<byte>)
    requires forall i | 0 <= i < |s| :: s[i] == 0
    ensures FromLe(s) == 0
  {
    if s != [] {
      FromLeZeros(s[1..]);
    }
  }

  /** The `n`-byte word at byte offset `o`. */
  function Get(s: seq<byte>, o: nat, n: nat): nat
    requires o + n <= |s|
  {
    FromLe(s[o..o + n])
  }

  /** Store `v` as the `n`-byte word at byte offset `o`. */
  function Put(s: seq<byte>, o: nat, n: nat, v: nat): (r: seq<byte>)
    requires o + n <= |s|
    ensures |r| == |s|
    ensures forall i | 0 <= i < |s| && !(o <= i < o + n) :: r[i] == s[i]
  {
    s[..o] + ToLe(v, n) + s[o + n..]
  }

  /** The least significant byte comes first. */
  lemma GetBytes4(s: seq<byte>, o: nat)
    requires o + 4 <= |s|
    ensures Get(s, o, 4) == s[o] as int + 256 * s[o + 1] as int + 65536 * s[o + 2] as int + 16777216 * s[o + 3] as int
  {
    var w := s[o..o + 4];
    FromLeStep(w, 0);
    FromLeStep(w, 1);
    FromLeStep(w, 2);
    FromLeStep(w, 3);
    assert w[0..] == w && w[4..] == [];
  }

  lemma GetBytes8(s: seq<byte>, o: nat)
    requires o + 8 <= |s|
    ensures Get(s, o, 8) == s[o] as int + 0x100 * s[o + 1] as int + 0x1_0000 * s[o + 2] as int + 0x100_0000 * s[o + 3] as int
                            + 0x1_0000_0000 * s[o + 4] as int + 0x100_0000_0000 * s[o + 5] as int
                            + 0x1_0000_0000_0000 * s[o + 6] as int + 0x100_0000_0000_0000 * s[o + 7] as int
  {
    hide FromLe;
    var w := s[o..o + 8];
    GetBytes4(s, o);
    GetBytes4(s, o + 4);
    FromLeJoin(s[o..o + 4], s[o + 4..o + 8]);
    assert w == s[o..o + 4] + s[o + 4..o + 8];
    assert Pow256(4) == 0x1_0000_0000;
  }

  /** So are the bytes of a stored word. */
  lemma PutBytes4(s: seq<byte>, o: nat, v: nat)
    requires o + 4 <= |s| && v < 0x1_0000_0000
    ensures var r := Put(s, o, 4, v);
            v == r[o] as int + 256 * r[o + 1] as int + 65536 * r[o + 2] as int + 16777216 * r[o + 3] as int
  {
    hide Get, Put;
    assert Pow256(4) == 0x1_0000_0000;
    GetPut(s, o, 4, v);
    GetBytes4(Put(s, o, 4, v), o);
  }

  lemma FromLeStep(s: seq<byte>, k: nat)
    requires k < |s|
    ensures FromLe(s[k..]) == s[k] + 256 * FromLe(s[k + 1..])
  {
    assert s[k..][1..] == s[k + 1..];
  }

  lemma {:induction false} FromLeJoin(a: seq<byte>, b: seq<byte>)
    ensures FromLe(a + b) == FromLe(a) + Pow256(|a|) * FromLe(b)
  {
    if a == [] {
      assert a + b == b;
    } else {
      FromLeJoin(a[1..], b);
      assert (a + b)[1..] == a[1..] + b;
      assert Pow256(|a|) * FromLe(b) == 256 * (Pow256(|a| - 1) * FromLe(b));
    }
  }

  lemma GetPut(s: seq<byte>, o: nat, n: nat, v: nat)
    requires o + n <= |s| && v < Pow256(n)
    ensures Get(Put(s, o, n, v), o, n) == v
  {
    assert Put(s, o, n, v)[o..o + n] == ToLe(v, n);
    FromToLe(v, n);
  }

  lemma GetSame(s: seq<byte>, t: seq<byte>, o: nat, n: nat)
    requires |s| == |t| && o + n <= |s|
    requires forall i | o <= i < o + n :: s[i] == t[i]
    ensures Get(s, o, n) == Get(t, o, n)
  {
    assert s[o..o + n] == t[o..o + n];
  }

  lemma GetPutOther(s: seq<byte>, o: nat, n: nat, v: nat, o': nat, n': nat)
    requires o + n <= |s| && o' + n' <= |s|
    requires o + n <= o' || o' + n' <= o
    ensures Get(Put(s, o, n, v), o', n') == Get(s, o', n')
  {
    GetSame(Put(s, o, n, v), s, o', n');
  }

  lemma GetZeros(s: seq<byte>, o: nat, n: nat)
    requires o + n <= |s|
    requires forall i | 0 <= i < |s| :: s[i] == 0
    ensures Get(s, o, n) == 0
  {
    FromLeZeros(s[o..o + n]);
  }
}

/** The binary digits of a natural number. */
module Bits {
  import Bytes

  function Pow2(i: nat): (p: nat)
    ensures p > 0
  {
    if i == 0 then 1 else 2 * Pow2(i - 1)
  }

  predicate Bit(w: nat, i: nat)
  {
    if i == 0 then w % 2 == 1 else Bit(w / 2, i - 1)
  }

  /** Adding `2^i` to a word whose bit `i` is clear (`w |= 1 << i`) sets that bit and no other. */
  lemma {:induction false} BitSet(w: nat, i: nat, j: nat)
    requires !Bit(w, i)
    ensures Bit(w + Pow2(i), j) == (i == j || Bit(w, j))
  {
    if i == 0 {
      assert (w + 1) / 2 == w / 2;
    } else if j != 0 {
      assert (w + Pow2(i)) / 2 == w / 2 + Pow2(i - 1);
      BitSet(w / 2, i - 1, j - 1);
    }
  }

  lemma Pow2Step(i: nat)
    requires i > 0
    ensures Pow2(i) == 2 * Pow2(i - 1)
  {
  }

  lemma Pow2Zero()
    ensures Pow2(0) == 1
  {
  }

  lemma BitStep(w: nat, i: nat)
    ensures Bit(w, i) == if i == 0 then w % 2 == 1 else Bit(w / 2, i - 1)
  {
  }

  lemma {:induction false} BitBound(w: nat, i: nat, n: nat)
    requires i < n && w < Pow2(n) && !Bit(w, i)
    ensures w + Pow2(i) < Pow2(n)
  {
    hide Pow2, Bit;
    BitStep(w, i);
    Pow2Step(n);
    if i == 0 {
      Pow2Zero();
    } else {
      Pow2Step(i);
      BitBound(w / 2, i - 1, n - 1);
    }
  }

  /** Subtracting `2^i` from a word whose bit `i` is set clears that bit and no other. */
  lemma {:induction false} BitClear(w: nat, i: nat, j: nat)
    requires Bit(w, i)
    ensures Pow2(i) <= w
    ensures Bit(w - Pow2(i), j) == (i != j && Bit(w, j))
  {
    if i == 0 {
      assert (w - 1) / 2 == w / 2;
    } else {
      BitClear(w / 2, i - 1, if j == 0 then 0 else j - 1);
      assert (w - Pow2(i)) / 2 == w / 2 - Pow2(i - 1);
    }
  }

  lemma {:induction false} BitOfZero(i: nat)
    ensures !Bit(0, i)
  {
    if i > 0 {
      BitOfZero(i - 1);
    }
  }

  /** Every bit of the all-ones word (`u64::MAX` for `n == 64`) is set. */
  lemma {:induction false} BitOfOnes(n: nat, i: nat)
    requires i < n
    ensures Bit(Pow2(n) - 1, i)
  {
    if i > 0 {
      assert (Pow2(n) - 1) / 2 == Pow2(n - 1) - 1;
      BitOfOnes(n - 1, i - 1);
    }
  }

  /** `trailing_ones`: the least clear bit. */
  function TrailingOnes(w: nat): nat
  {
    if w % 2 == 0 then 0
    else 1 + TrailingOnes(w / 2)
  }

  lemma {:induction false} TrailingOnesLeast(w: nat)
    ensures !Bit(w, TrailingOnes(w))
    ensures forall j | 0 <= j < TrailingOnes(w) :: Bit(w, j)
  {
    hide Bit;
    BitStep(w, TrailingOnes(w));
    if w % 2 == 1 {
      TrailingOnesLeast(w / 2);
      forall j | 0 <= j < TrailingOnes(w) ensures Bit(w, j) {
        BitStep(w, j);
      }
    }
  }

  lemma {:induction false} TrailingOnesBound(w: nat, n: nat)
    requires w < Pow2(n) - 1
    ensures TrailingOnes(w) < n
  {
    if w % 2 == 1 {
      TrailingOnesBound(w / 2, n - 1);
    }
  }

  lemma {:induction false} Pow2Of8n(n: nat)
    ensures Bytes.Pow256(n) == Pow2(8 * n)
  {
    if n > 0 {
      Pow2Of8n(n - 1);
      var k := 8 * n;
      assert Pow2(k) == 2 * Pow2(k - 1) == 4 * Pow2(k - 2) == 8 * Pow2(k - 3) == 16 * Pow2(k - 4);
      assert Pow2(k - 4) == 2 * Pow2(k - 5) == 4 * Pow2(k - 6) == 8 * Pow2(k - 7) == 16 * Pow2(k - 8);
    }
  }
}
