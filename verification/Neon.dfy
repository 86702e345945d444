/** The permutations and structured loads and stores of include/arm_neon.h, for any element
type and lane count: zip, unzip and transpose, and the interleaved loads and stores of two,
three or four vectors. */
module Neon {
  import opened Arith

  datatype Pair<T> = Pair(lo: seq<T>, hi: seq<T>)

  predicate Lanes<T>(a: seq<T>, b: seq<T>) { |a| == |b| && |a| % 2 == 0 }

  // ----- vzip, vuzp and vtrn as index maps

  /** Lane `k` of the two vectors laid end to end. */
  function At<T>(a: seq<T>, b: seq<T>, k: nat): T
    requires k < |a| + |b|
  {
    if k < |a| then a[k] else b[k - |a|]
  }

  /** The lanes of `a` and `b` taken in turn. */
  function Zip<T>(a: seq<T>, b: seq<T>): (r: Pair<T>)
    requires Lanes(a, b)
    ensures |r.lo| == |r.hi| == |a|
  {
    var n := |a|;
    Pair(seq(n, k requires 0 <= k < n => if k % 2 == 0 then a[k / 2] else b[k / 2]),
         seq(n, k requires 0 <= k < n => if k % 2 == 0 then a[n / 2 + k / 2] else b[n / 2 + k / 2]))
  }

  /** The even lanes of both, then the odd lanes of both. */
  function Unzip<T>(a: seq<T>, b: seq<T>): (r: Pair<T>)
    requires Lanes(a, b)
    ensures |r.lo| == |r.hi| == |a|
  {
    var n := |a|;
    Pair(seq(n, k requires 0 <= k < n => At(a, b, 2 * k)), seq(n, k requires 0 <= k < n => At(a, b, 2 * k + 1)))
  }

  /** Lanes of `a` and `b` exchanged as two-by-two blocks. */
  function Transpose<T>(a: seq<T>, b: seq<T>): (r: Pair<T>)
    requires Lanes(a, b)
    ensures |r.lo| == |r.hi| == |a|
  {
    var n := |a|;
    Pair(seq(n, k requires 0 <= k < n => if k % 2 == 0 then a[k] else b[k - 1]),
         seq(n, k requires 0 <= k < n => if k % 2 == 0 then a[k + 1] else b[k]))
  }

  /** Unzipping undoes zipping. */
  lemma {:induction false} UnzipUndoesZip<T>(a: seq<T>, b: seq<T>)
    requires Lanes(a, b)
    ensures var z := Zip(a, b); Unzip(z.lo, z.hi) == Pair(a, b)
  {
    var z, n := Zip(a, b), |a|;
    var u := Unzip(z.lo, z.hi);
    forall k | 0 <= k < n
      ensures u.lo[k] == a[k] && u.hi[k] == b[k]
    {
      assert 2 * k < n ==> 2 * k + 1 < n;
    }
    assert u.lo == a && u.hi == b;
  }

  /** Zipping undoes unzipping. */
  lemma {:induction false} ZipUndoesUnzip<T>(a: seq<T>, b: seq<T>)
    requires Lanes(a, b)
    ensures var u := Unzip(a, b); Zip(u.lo, u.hi) == Pair(a, b)
  {
    var u, n := Unzip(a, b), |a|;
    var z := Zip(u.lo, u.hi);
    forall k | 0 <= k < n
      ensures z.lo[k] == a[k] && z.hi[k] == b[k]
    {
      assert k == 2 * (k / 2) + k % 2;
    }
    assert z.lo == a && z.hi == b;
  }

  /** Transposing twice changes nothing. */
  lemma {:induction false} TransposeTwice<T>(a: seq<T>, b: seq<T>)
    requires Lanes(a, b)
    ensures var t := Transpose(a, b); Transpose(t.lo, t.hi) == Pair(a, b)
  {
    var t := Transpose(a, b);
    var u := Transpose(t.lo, t.hi);
    assert u.lo == a && u.hi == b;
  }

  // ----- the loops

  lemma {:induction false} ZipAt<T>(a: seq<T>, b: seq<T>, i: nat)
    requires Lanes(a, b) && i < |a|
    ensures var z, n := Zip(a, b), |a|;
      && (i < n / 2 ==> z.lo[2 * i] == a[i] && z.lo[2 * i + 1] == b[i])
      && (i >= n / 2 ==> z.hi[2 * i - n] == a[i] && z.hi[2 * i + 1 - n] == b[i])
  {
  }

  /** The four lanes of a block: the second of `a` and the first of `b` change places. */
  lemma {:induction false} TransposeAt<T>(a: seq<T>, b: seq<T>, i: nat)
    requires Lanes(a, b) && 2 * i < |a|
    ensures var t := Transpose(a, b);
      && t.lo[2 * i] == a[2 * i] && t.lo[2 * i + 1] == b[2 * i]
      && t.hi[2 * i] == a[2 * i + 1] && t.hi[2 * i + 1] == b[2 * i + 1]
  {
    var k := 2 * i;
    assert k % 2 == 0 && (k + 1) % 2 == 1;
  }

  /** vzip. */
  method Vzip<T(0)>(a: seq<T>, b: seq<T>) returns (r: Pair<T>)
    requires Lanes(a, b)
    ensures r == Zip(a, b)
  {
    hide Zip;
    var n := |a|;
    var lo, hi := new T[n], new T[n];
    ghost var z := Zip(a, b);
    for i := 0 to n
      invariant forall k :: 0 <= k < n && k < 2 * i ==> lo[k] == z.lo[k]
      invariant forall k :: 0 <= k < n && k < 2 * i - n ==> hi[k] == z.hi[k]
    {
      ZipAt(a, b, i);
      if i / (n / 2) == 0 {
        InFirstHalf(i, n);
        lo[2 * i % n] := a[i];
        lo[(2 * i + 1) % n] := b[i];
      } else {
        InSecondHalf(i, n);
        hi[2 * i % n] := a[i];
        hi[(2 * i + 1) % n] := b[i];
      }
    }
    assert lo[..] == z.lo && hi[..] == z.hi;
    r := Pair(lo[..], hi[..]);
  }

  lemma {:induction false} InFirstHalf(i: nat, n: nat)
    requires i < n && n % 2 == 0 && i / (n / 2) == 0
    ensures i < n / 2 && 2 * i % n == 2 * i && (2 * i + 1) % n == 2 * i + 1
  {
    DivModBack(i, n / 2);
    DivModUnique(2 * i, n, 0, 2 * i);
    DivModUnique(2 * i + 1, n, 0, 2 * i + 1);
  }

  lemma {:induction false} InSecondHalf(i: nat, n: nat)
    requires i < n && n % 2 == 0 && i / (n / 2) != 0
    ensures i >= n / 2 && 2 * i % n == 2 * i - n && (2 * i + 1) % n == 2 * i + 1 - n
  {
    if i < n / 2 {
      DivModUnique(i, n / 2, 0, i);
    }
    DivModUnique(2 * i, n, 1, 2 * i - n);
    DivModUnique(2 * i + 1, n, 1, 2 * i + 1 - n);
  }

  /** vuzp. */
  method Vuzp<T(0)>(a: seq<T>, b: seq<T>) returns (r: Pair<T>)
    requires Lanes(a, b)
    ensures r == Unzip(a, b)
  {
    var n := |a|;
    var lo, hi := new T[n], new T[n];
    ghost var u := Unzip(a, b);
    for i := 0 to n
      invariant forall k :: 0 <= k < i ==> lo[k] == u.lo[k] && hi[k] == u.hi[k]
    {
      EvenLane(i, n);
      lo[i] := if i < n / 2 then a[2 * i % n] else b[2 * i % n];
      hi[i] := if i < n / 2 then a[(2 * i + 1) % n] else b[(2 * i + 1) % n];
    }
    assert lo[..] == u.lo && hi[..] == u.hi;
    r := Pair(lo[..], hi[..]);
  }

  lemma {:induction false} EvenLane(i: nat, n: nat)
    requires i < n && n % 2 == 0
    ensures 2 * i % n == (if i < n / 2 then 2 * i else 2 * i - n)
    ensures (2 * i + 1) % n == (if i < n / 2 then 2 * i + 1 else 2 * i + 1 - n)
  {
    if i < n / 2 {
      DivModUnique(2 * i, n, 0, 2 * i);
      DivModUnique(2 * i + 1, n, 0, 2 * i + 1);
    } else {
      DivModUnique(2 * i, n, 1, 2 * i - n);
      DivModUnique(2 * i + 1, n, 1, 2 * i + 1 - n);
    }
  }

  /** vtrn. */
  method Vtrn<T(0)>(a: seq<T>, b: seq<T>) returns (r: Pair<T>)
    requires Lanes(a, b)
    ensures r == Transpose(a, b)
  {
    var n := |a|;
    var lo, hi := new T[n], new T[n];
    ghost var t := Transpose(a, b);
    var i := 0;
    while i < n
      invariant 0 <= i <= n && i % 2 == 0
      invariant forall k :: 0 <= k < i ==> lo[k] == t.lo[k] && hi[k] == t.hi[k]
    {
      lo[i] := a[i];
      lo[i + 1] := b[i];
      hi[i] := a[i + 1];
      hi[i + 1] := b[i + 1];
      i := i + 2;
    }
    assert lo[..] == t.lo && hi[..] == t.hi;
    r := Pair(lo[..], hi[..]);
  }

  // ----- structured loads and stores

  /** Element `j` of group `i` in memory. */
  function Place(i: nat, m: nat, j: nat): nat { i * m + j }

  lemma {:induction false} PlaceInside(i: nat, m: nat, j: nat, n: nat)
    requires i < n && j < m
    ensures Place(i, m, j) < n * m
  {
    MulMonotone(i + 1, n, m);
  }

  /** Each place belongs to one group and one vector. */
  lemma {:induction false} PlaceUnique(i: nat, j: nat, i': nat, j': nat, m: nat)
    requires j < m && j' < m && Place(i, m, j) == Place(i', m, j')
    ensures i == i' && j == j'
  {
    DivModUnique(Place(i, m, j), m, i, j);
    DivModUnique(Place(i, m, j), m, i', j');
  }

  /** `vs` are the `m` vectors of `n` lanes that lie interleaved in `mem`. */
  ghost predicate Interleaved<T(!new)>(vs: seq<seq<T>>, mem: seq<T>, m: nat, n: nat) {
    && |vs| == m && |mem| == n * m && (forall j :: 0 <= j < m ==> |vs[j]| == n)
    && forall i: nat, j: nat :: i < n && j < m ==> InPlace(vs, mem, m, n, i, j)
  }

  ghost predicate InPlace<T(!new)>(vs: seq<seq<T>>, mem: seq<T>, m: nat, n: nat, i: nat, j: nat) {
    i < n && j < |vs| && i < |vs[j]| && Place(i, m, j) < |mem| && vs[j][i] == mem[Place(i, m, j)]
  }

  /** Memory holds the first lane of each vector, then the second of each, and so on. */
  lemma {:induction false} ElementsInTurn<T(!new)>(vs: seq<seq<T>>, mem: seq<T>, m: nat, n: nat, i: nat, j: nat)
    requires Interleaved(vs, mem, m, n) && i < n && j < m
    ensures |vs| == m && |vs[j]| == n && 0 <= i * m + j < |mem| == n * m && vs[j][i] == mem[i * m + j]
  {
    assert InPlace(vs, mem, m, n, i, j);
  }

  /** vld2, vld3 and vld4. */
  method Load<T(!new)>(mem: seq<T>, m: nat, n: nat) returns (vs: seq<seq<T>>)
    requires |mem| == n * m
    ensures Interleaved(vs, mem, m, n)
  {
    vs := seq(m, _ => []);
    for i := 0 to n
      invariant |vs| == m && forall j :: 0 <= j < m ==> |vs[j]| == i
      invariant forall i': nat, j: nat :: i' < i && j < m ==> InPlace(vs, mem, m, n, i', j)
    {
      ghost var v0 := vs;
      for j := 0 to m
        invariant |vs| == m
        invariant forall j' :: j <= j' < m ==> vs[j'] == v0[j']
        invariant forall j': nat :: j' < j ==>
          |vs[j']| == i + 1 && vs[j'][..i] == v0[j'] && InPlace(vs, mem, m, n, i, j')
      {
        PlaceInside(i, m, j, n);
        vs := vs[j := vs[j] + [mem[Place(i, m, j)]]];
      }
      forall i': nat, j: nat | i' < i + 1 && j < m
        ensures InPlace(vs, mem, m, n, i', j)
      {
        if i' < i {
          assert InPlace(v0, mem, m, n, i', j);
          assert vs[j][..i][i'] == vs[j][i'];
        }
      }
    }
  }

  /** vst2, vst3 and vst4. */
  method Store<T(!new)>(vs: seq<seq<T>>, n: nat, mem: array<T>)
    requires mem.Length == n * |vs| && forall j :: 0 <= j < |vs| ==> |vs[j]| == n
    modifies mem
    ensures Interleaved(vs, mem[..], |vs|, n)
  {
    var m := |vs|;
    for i := 0 to n
      invariant forall i': nat, j: nat :: i' < i && j < m ==> InPlace(vs, mem[..], m, n, i', j)
    {
      for j := 0 to m
        invariant forall i': nat, j': nat :: i' < i && j' < m ==> InPlace(vs, mem[..], m, n, i', j')
        invariant forall j': nat :: j' < j ==> InPlace(vs, mem[..], m, n, i, j')
      {
        PlaceInside(i, m, j, n);
        ghost var m0 := mem[..];
        mem[Place(i, m, j)] := vs[j][i];
        Kept(vs, m0, mem[..], m, n, i, j);
      }
    }
  }

  /** Writing one place leaves the others in place. */
  lemma {:induction false} Kept<T(!new)>(vs: seq<seq<T>>, m0: seq<T>, m1: seq<T>, m: nat, n: nat, i: nat, j: nat)
    requires i < n && j < m == |vs| && |vs[j]| == n && |m0| == |m1| == n * m && Place(i, m, j) < |m0|
    requires m1 == m0[Place(i, m, j) := vs[j][i]]
    ensures forall i': nat, j': nat :: j' < m && InPlace(vs, m0, m, n, i', j') ==> InPlace(vs, m1, m, n, i', j')
    ensures InPlace(vs, m1, m, n, i, j)
  {
    forall i': nat, j': nat | j' < m && InPlace(vs, m0, m, n, i', j')
      ensures InPlace(vs, m1, m, n, i', j')
    {
      if Place(i', m, j') == Place(i, m, j) {
        PlaceUnique(i', j', i, j, m);
      }
    }
  }

  /** A store after a load puts the memory back, and a load after a store gives the vectors
      back: interleaving is one to one both ways. */
  lemma {:induction false} InterleavingIsExact<T(!new)>(vs: seq<seq<T>>, mem: seq<T>, ws: seq<seq<T>>, mem': seq<T>,
                                                 m: nat, n: nat)
    requires Interleaved(vs, mem, m, n) && Interleaved(ws, mem', m, n)
    ensures vs == ws <==> mem == mem'
  {
    if vs == ws {
      forall k | 0 <= k < n * m
        ensures mem[k] == mem'[k]
      {
        Covered(k, m, n);
        assert InPlace(vs, mem, m, n, k / m, k % m) && InPlace(ws, mem', m, n, k / m, k % m);
      }
    }
    if mem == mem' {
      forall j | 0 <= j < m
        ensures vs[j] == ws[j]
      {
        forall i | 0 <= i < n
          ensures vs[j][i] == ws[j][i]
        {
          assert InPlace(vs, mem, m, n, i, j) && InPlace(ws, mem', m, n, i, j);
        }
      }
    }
  }

  lemma {:induction false} Covered(k: nat, m: nat, n: nat)
    requires k < n * m
    ensures m > 0 && k / m < n && 0 <= k % m < m && Place(k / m, m, k % m) == k
  {
    if m > 0 {
      DivModBack(k, m);
      DivBound(k, m, n);
    }
  }
}
