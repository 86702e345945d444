/** Predication in include/arm_mve.h: a predicate has one bit for each of a vector's sixteen
bytes, comparisons and vctp set the bits of whole lanes, and merging is by bytes. The lane
size `s` and lane count `l` are parameters, as the header's generator has them. */
module Mve {
  import opened Arith
  import opened Bits
  import opened Bytes
  import opened Prelude

  predicate Shape(l: nat, s: nat) { s > 0 && l * s == 16 }

  /** The header's lanes: sixteen bytes, eight halfwords, four words or two doublewords. */
  lemma {:induction false} ShapesAre(l: nat, s: nat)
    requires s == 1 || s == 2 || s == 4 || s == 8
    ensures Shape(l, s) <==> l == 16 / s
  {
  }

  /** Byte `k` of lane `i`. */
  function At(i: nat, s: nat, k: nat): nat { i * s + k }

  lemma {:induction false} AtInside(i: nat, s: nat, k: nat, l: nat)
    requires Shape(l, s) && i < l && k < s
    ensures At(i, s, k) < 16 && At(i, s, 0) + s <= 16
  {
    MulMonotone(i + 1, l, s);
  }

  /** The lane of a byte. */
  lemma {:induction false} LaneOf(j: nat, l: nat, s: nat)
    requires Shape(l, s) && j < 16
    ensures j / s < l && 0 <= j % s < s && At(j / s, s, j % s) == j
  {
    DivModBack(j, s);
    DivBound(j, s, l);
  }

  lemma {:induction false} AtUnique(i: nat, k: nat, i': nat, k': nat, s: nat)
    requires k < s && k' < s && At(i, s, k) == At(i', s, k')
    ensures i == i' && k == k'
  {
    DivModUnique(At(i, s, k), s, i, k);
    DivModUnique(At(i, s, k), s, i', k');
  }

  // ----- lanes

  function Lane(v: seq<byte>, s: nat, i: nat): seq<byte>
    requires i * s + s <= |v|
  {
    v[i * s..i * s + s]
  }

  /** A lane's number, signed or not. */
  function LaneValue(b: seq<byte>, signed: bool): int {
    if signed && 2 * Value(b) >= Pow256(|b|) then Value(b) - Pow256(|b|) else Value(b)
  }

  /** The unsigned number of a lane is its residue in the unsigned range of its width, the signed
      one in the two's complement range; the top bit is the sign. */
  lemma {:induction false} LaneNumber(b: seq<byte>)
    requires b != []
    ensures var x, y, p := LaneValue(b, false), LaneValue(b, true), Pow256(|b|);
      && 0 <= x < p && 0 <= 2 * y + p < 2 * p
      && x % p == Value(b) % p == y % p
      && (y < 0 <==> b[|b| - 1] >= 128)
  {
    hide Value, Pow256;
    var p: int, u: int := Pow256(|b|), Value(b);
    ValueBound(b);
    TopByte(b);
    DivModUnique(u, p, 0, u);
    if LaneValue(b, true) != u {
      DivModUnique(u - p, p, -1, u);
    }
  }

  predicate Vector(v: seq<byte>) { |v| == 16 }

  /** Two vectors with the same lanes are the same. */
  lemma {:induction false} SameLanes(v: seq<byte>, w: seq<byte>, l: nat, s: nat)
    requires Vector(v) && Vector(w) && Shape(l, s)
    requires forall i: nat :: i < l ==> SameLane(v, w, s, i)
    ensures v == w
  {
    forall j | 0 <= j < 16
      ensures v[j] == w[j]
    {
      LaneOf(j, l, s);
      assert SameLane(v, w, s, j / s);
      assert Lane(v, s, j / s)[j % s] == v[j] && Lane(w, s, j / s)[j % s] == w[j];
    }
  }

  ghost predicate SameLane(v: seq<byte>, w: seq<byte>, s: nat, i: nat) {
    i * s + s <= |v| && i * s + s <= |w| && Lane(v, s, i) == Lane(w, s, i)
  }

  /** The vector with its lane `i` written. */
  function WithLane(v: seq<byte>, s: nat, i: nat, x: seq<byte>): (w: seq<byte>)
    requires 0 <= i * s && i * s + s <= |v| && |x| == s
    ensures |w| == |v|
  {
    v[..i * s] + x + v[i * s + s..]
  }

  lemma {:induction false} LaneWritten(v: seq<byte>, s: nat, i: nat, x: seq<byte>, k: nat)
    requires 0 <= i * s && i * s + s <= |v| && |x| == s && k <= i
    ensures 0 <= k * s && k * s + s <= |v| && Lane(WithLane(v, s, i, x), s, k) == if k == i then x else Lane(v, s, k)
  {
    MulMonotone(0, k, s);
    if k < i {
      MulMonotone(k + 1, i, s);
      SliceBefore(v, i * s, x, v[i * s + s..], k * s, k * s + s);
    }
  }

  lemma {:induction false} SliceBefore(v: seq<byte>, at: nat, x: seq<byte>, y: seq<byte>, lo: nat, hi: nat)
    requires lo <= hi <= at <= |v|
    ensures (v[..at] + x + y)[lo..hi] == v[lo..hi]
  {
  }

  // ----- predicates

  /** The predicate's bits are those of whole lanes, lane `i`'s set when `on[i]`. */
  ghost predicate WholeLanes(p: nat, on: seq<bool>, s: nat) {
    forall i: nat, k: nat :: i < |on| && k < s ==> LaneBit(p, on, s, i, k)
  }

  ghost predicate LaneBit(p: nat, on: seq<bool>, s: nat, i: nat, k: nat) {
    i < |on| && (Bit(p, At(i, s, k)) <==> on[i])
  }

  /** `mask << (i * s)` with the low `s` bits set. */
  function LaneMask(i: nat, s: nat): nat {
    MulMonotone(0, i, s);
    MulMonotone(0, Pow2(s) - 1, Pow2(i * s));
    (Pow2(s) - 1) * Pow2(i * s)
  }

  lemma {:induction false} BitOfOr(x: nat, y: nat, j: nat)
    ensures Bit(Or(x, y), j) <==> Bit(x, j) || Bit(y, j)
  {
    if x == 0 {
      BitOfZero(j);
    } else if y == 0 {
      BitOfZero(j);
    } else if j > 0 {
      BitOfOr(x / 2, y / 2, j - 1);
    }
  }

  lemma {:induction false} BitOfZero(j: nat)
    ensures !Bit(0, j)
  {
    if j > 0 {
      BitOfZero(j - 1);
    }
  }

  lemma {:induction false} BitOfOnes(s: nat, j: nat)
    ensures Bit(Pow2(s) - 1, j) <==> j < s
  {
    if s == 0 {
      BitOfZero(j);
    } else if j > 0 {
      assert (Pow2(s) - 1) / 2 == Pow2(s - 1) - 1;
      BitOfOnes(s - 1, j - 1);
    }
  }

  lemma {:induction false} BitOfShifted(x: nat, d: nat, j: nat)
    ensures Bit(x * Pow2(d), j) <==> j >= d && Bit(x, j - d)
  {
    if d == 0 {
    } else {
      assert x * Pow2(d) == 2 * (x * Pow2(d - 1)) by { MulAssoc(x, 2, Pow2(d - 1)); }
      if j > 0 {
        BitOfShifted(x, d - 1, j - 1);
      }
    }
  }

  /** A lane's mask has the lane's bits. */
  lemma {:induction false} MaskBits(i: nat, s: nat, i': nat, k: nat)
    requires s > 0 && k < s
    ensures Bit(LaneMask(i, s), At(i', s, k)) <==> i == i'
  {
    var j := At(i', s, k);
    BitOfShifted(Pow2(s) - 1, i * s, j);
    if j >= i * s {
      BitOfOnes(s, j - i * s);
      if j - i * s < s {
        AtUnique(i, j - i * s, i', k, s);
      }
    }
  }

  /** One more lane decided: its mask or nothing is or-ed in. */
  lemma {:induction false} MoreLanes(p: nat, on: seq<bool>, s: nat, b: bool)
    requires s > 0 && WholeLanes(p, on, s)
    requires forall k: nat :: k < s ==> !Bit(p, At(|on|, s, k))
    ensures WholeLanes(if b then Or(p, LaneMask(|on|, s)) else p, on + [b], s)
  {
    var i0 := |on|;
    var p' := if b then Or(p, LaneMask(i0, s)) else p;
    forall i: nat, k: nat | i < i0 + 1 && k < s
      ensures LaneBit(p', on + [b], s, i, k)
    {
      BitOfOr(p, LaneMask(i0, s), At(i, s, k));
      MaskBits(i0, s, i, k);
      if i < i0 {
        assert LaneBit(p, on, s, i, k);
      }
    }
  }

  /** Lanes not yet reached have no bit set. */
  ghost predicate ClearFrom(p: nat, n: nat, s: nat) {
    forall i: nat, k: nat :: i >= n && k < s ==> ClearAt(p, s, i, k)
  }

  ghost predicate ClearAt(p: nat, s: nat, i: nat, k: nat) { !Bit(p, At(i, s, k)) }

  lemma {:induction false} StillClear(p: nat, n: nat, s: nat)
    requires s > 0 && ClearFrom(p, n, s)
    ensures ClearFrom(p, n + 1, s) && ClearFrom(Or(p, LaneMask(n, s)), n + 1, s)
    ensures forall k: nat :: k < s ==> !Bit(p, At(n, s, k))
  {
    forall i: nat, k: nat | i >= n && k < s
      ensures ClearAt(p, s, i, k) && (i > n ==> ClearAt(Or(p, LaneMask(n, s)), s, i, k))
    {
      BitOfOr(p, LaneMask(n, s), At(i, s, k));
      MaskBits(n, s, i, k);
      assert ClearAt(p, s, i, k);
    }
    forall k: nat | k < s
      ensures !Bit(p, At(n, s, k))
    {
      assert ClearAt(p, s, n, k);
    }
  }

  lemma {:induction false} NothingSet(s: nat)
    ensures WholeLanes(0, [], s) && ClearFrom(0, 0, s)
  {
    forall i: nat, k: nat | k < s
      ensures ClearAt(0, s, i, k)
    {
      BitOfZero(At(i, s, k));
    }
  }

  /** One more lane's mask stays below the lanes after it. */
  lemma {:induction false} MaskBelow(p: nat, i: nat, s: nat)
    requires i * s >= 0 && p < Pow2(i * s)
    ensures (i + 1) * s == i * s + s
    ensures Or(p, LaneMask(i, s)) == p + LaneMask(i, s) == p + Pow2(i * s + s) - Pow2(i * s)
    ensures Pow2(i * s) <= Pow2(i * s + s)
  {
    hide Or, Pow2;
    OrApart(p, Pow2(s) - 1, i * s);
    Pow2Add(s, i * s);
    Pow2Monotone(i * s, i * s + s);
  }

  lemma {:induction false} SixteenBits(l: nat, s: nat)
    requires Shape(l, s)
    ensures Pow2(l * s) == 0x10000
  {
    assert Pow2(4) == 16;
    Pow2Add(4, 4);
    Pow2Add(8, 8);
  }

  /** The relations of the vcmp family. */
  datatype Relation = Eq | Ne | Lt | Le | Gt | Ge

  predicate Holds(rel: Relation, x: int, y: int) {
    match rel
    case Eq => x == y
    case Ne => x != y
    case Lt => x < y
    case Le => x <= y
    case Gt => x > y
    case Ge => x >= y
  }

  /** Lanes are equal when their bytes are; `Ne`, `Le` and `Ge` hold where `Eq`, `Gt` and `Lt` do
      not, and one of `Lt`, `Eq` and `Gt` holds. */
  lemma {:induction false} RelationsOfLanes(a: seq<byte>, b: seq<byte>, signed: bool)
    requires |a| == |b|
    ensures var x, y := LaneValue(a, signed), LaneValue(b, signed);
      && (Holds(Eq, x, y) <==> a == b)
      && (Holds(Ne, x, y) <==> !Holds(Eq, x, y))
      && (Holds(Le, x, y) <==> !Holds(Gt, x, y))
      && (Holds(Ge, x, y) <==> !Holds(Lt, x, y))
      && (Holds(Gt, x, y) <==> !Holds(Eq, x, y) && !Holds(Lt, x, y))
  {
    hide Value, Pow256;
    BytesOfValue(a);
    BytesOfValue(b);
    ValueBound(a);
    ValueBound(b);
  }

  /** Lane `i` of `a` is so related to lane `i` of `b`. */
  predicate HoldsAt(a: seq<byte>, b: seq<byte>, s: nat, signed: bool, rel: Relation, i: nat)
    requires i * s + s <= |a| && i * s + s <= |b|
  {
    Holds(rel, LaneValue(Lane(a, s, i), signed), LaneValue(Lane(b, s, i), signed))
  }

  /** Which lanes are so related. */
  function Related(a: seq<byte>, b: seq<byte>, l: nat, s: nat, signed: bool, rel: Relation): (on: seq<bool>)
    requires Vector(a) && Vector(b) && Shape(l, s)
    ensures |on| == l
  {
    seq(l, i requires 0 <= i < l => AtInside(i, s, 0, l); HoldsAt(a, b, s, signed, rel, i))
  }

  /** vcmpeqq to vcmpcsq: sixteen bits, those of every lane where the relation holds and no
      others. vcmphiq and vcmpcsq are `Gt` and `Ge` of unsigned lanes. */
  method Compare(a: seq<byte>, b: seq<byte>, l: nat, s: nat, signed: bool, rel: Relation) returns (p: nat)
    requires Vector(a) && Vector(b) && Shape(l, s)
    ensures WholeLanes(p, Related(a, b, l, s, signed, rel), s) && p < 0x10000
  {
    hide Pow2, Or, LaneMask, WholeLanes, ClearFrom, HoldsAt;
    ghost var on := Related(a, b, l, s, signed, rel);
    p := 0;
    NothingSet(s);
    assert on[..0] == [];
    for i := 0 to l
      invariant WholeLanes(p, on[..i], s) && ClearFrom(p, i, s) && i * s >= 0 && p < Pow2(i * s)
    {
      AtInside(i, s, 0, l);
      StillClear(p, i, s);
      MoreLanes(p, on[..i], s, on[i]);
      assert on[..i] + [on[i]] == on[..i + 1];
      MaskBelow(p, i, s);
      if HoldsAt(a, b, s, signed, rel, i) {
        p := Or(p, LaneMask(i, s));
      }
    }
    assert on[..l] == on;
    SixteenBits(l, s);
  }

  /** The first `n` of `l` lanes. */
  function FirstLanes(n: nat, l: nat): seq<bool> { seq(l, i => i < n) }

  function Least(n: nat, l: nat): nat { if n < l then n else l }

  /** vctp8q to vctp64q: the first `n` lanes, all of them when there are fewer, as the low bits
      of the mask. */
  method TailPredicate(n: nat, l: nat, s: nat) returns (p: nat)
    requires Shape(l, s)
    ensures WholeLanes(p, FirstLanes(n, l), s)
    ensures Least(n, l) * s >= 0 && p == Pow2(Least(n, l) * s) - 1 < 0x10000
  {
    hide Pow2, Or, LaneMask, WholeLanes, ClearFrom;
    ghost var on := FirstLanes(n, l);
    p := 0;
    NothingSet(s);
    NoBits();
    assert on[..0] == [];
    var i := 0;
    while i < l && i < n
      invariant 0 <= i <= l && (i < n || i == n) && WholeLanes(p, on[..i], s) && ClearFrom(p, i, s)
      invariant i * s >= 0 && p == Pow2(i * s) - 1
    {
      StillClear(p, i, s);
      MoreLanes(p, on[..i], s, true);
      assert on[..i] + [true] == on[..i + 1];
      MaskBelow(p, i, s);
      p := Or(p, LaneMask(i, s));
      i := i + 1;
    }
    RestClear(p, on, i, s);
    MulMonotone(i, l, s);
    Pow2Monotone(i * s, l * s);
    SixteenBits(l, s);
  }

  lemma {:induction false} NoBits()
    ensures Pow2(0) == 1
  {
  }

  lemma {:induction false} RestClear(p: nat, on: seq<bool>, n: nat, s: nat)
    requires n <= |on| && WholeLanes(p, on[..n], s) && ClearFrom(p, n, s)
    requires forall i :: n <= i < |on| ==> !on[i]
    ensures WholeLanes(p, on, s)
  {
    forall i: nat, k: nat | i < |on| && k < s
      ensures LaneBit(p, on, s, i, k)
    {
      if i < n {
        assert LaneBit(p, on[..n], s, i, k);
      } else {
        assert ClearAt(p, s, i, k);
      }
    }
  }

  // ----- merging

  /** __mve_merge: the bytes whose bits are set. */
  method Merge(d: seq<byte>, src: seq<byte>, p: nat) returns (r: seq<byte>)
    requires Vector(d) && forall j :: 0 <= j < 16 && Bit(p, j) ==> j < |src|
    ensures Vector(r) && forall j :: 0 <= j < 16 ==> r[j] == if Bit(p, j) then src[j] else d[j]
  {
    r := d;
    for j := 0 to 16
      invariant Vector(r)
      invariant forall k :: 0 <= k < j ==> r[k] == if Bit(p, k) then src[k] else d[k]
      invariant forall k :: j <= k < 16 ==> r[k] == d[k]
    {
      if Bit(p, j) {
        r := r[j := src[j]];
      }
    }
  }

  /** Under a whole-lane predicate, merging by bytes is choosing by lanes. */
  lemma {:induction false} MergeIsLaneSelect(d: seq<byte>, src: seq<byte>, r: seq<byte>, p: nat, on: seq<bool>,
                                             l: nat, s: nat, i: nat)
    requires Shape(l, s) && |on| == l && WholeLanes(p, on, s) && i < l
    requires Vector(d) && Vector(r)
    requires forall j :: 0 <= j < 16 && Bit(p, j) ==> j < |src|
    requires forall j :: 0 <= j < 16 ==> r[j] == if Bit(p, j) then src[j] else d[j]
    ensures i * s + s <= 16
    ensures on[i] ==> i * s + s <= |src| && Lane(r, s, i) == Lane(src, s, i)
    ensures !on[i] ==> Lane(r, s, i) == Lane(d, s, i)
  {
    AtInside(i, s, 0, l);
    AtInside(i, s, s - 1, l);
    assert LaneBit(p, on, s, i, s - 1);
    forall k: nat | k < s
      ensures Lane(r, s, i)[k] == if on[i] then Lane(src, s, i)[k] else Lane(d, s, i)[k]
    {
      AtInside(i, s, k, l);
      assert LaneBit(p, on, s, i, k);
      assert Lane(r, s, i)[k] == r[At(i, s, k)] && Lane(d, s, i)[k] == d[At(i, s, k)];
    }
  }

  /** The vector of `a`'s lanes where the relation holds and `b`'s elsewhere: the maximum for
      `Gt` and the minimum for `Lt`. */
  function Chosen(a: seq<byte>, b: seq<byte>, l: nat, s: nat, signed: bool, rel: Relation): (r: seq<byte>)
    requires Vector(a) && Vector(b) && Shape(l, s)
    ensures Vector(r)
  {
    seq(16, j requires 0 <= j < 16 =>
      LaneOf(j, l, s); AtInside(j / s, s, 0, l);
      if HoldsAt(a, b, s, signed, rel, j / s) then a[j] else b[j])
  }

  /** Lane `i` of the choice. */
  function ChosenLane(a: seq<byte>, b: seq<byte>, s: nat, signed: bool, rel: Relation, i: nat): (r: seq<byte>)
    requires i * s + s <= |a| && i * s + s <= |b|
    ensures |r| == s
  {
    if HoldsAt(a, b, s, signed, rel, i) then Lane(a, s, i) else Lane(b, s, i)
  }

  ghost predicate LaneIsChosen(r: seq<byte>, a: seq<byte>, b: seq<byte>, s: nat, signed: bool, rel: Relation, i: nat) {
    && i * s + s <= |r| && i * s + s <= |a| && i * s + s <= |b|
    && Lane(r, s, i) == ChosenLane(a, b, s, signed, rel, i)
  }

  lemma {:induction false} ChosenLanes(a: seq<byte>, b: seq<byte>, l: nat, s: nat, signed: bool, rel: Relation, i: nat)
    requires Vector(a) && Vector(b) && Shape(l, s) && i < l
    ensures LaneIsChosen(Chosen(a, b, l, s, signed, rel), a, b, s, signed, rel, i)
  {
    hide HoldsAt;
    var c := Chosen(a, b, l, s, signed, rel);
    AtInside(i, s, 0, l);
    forall k: nat | k < s
      ensures Lane(c, s, i)[k] == ChosenLane(a, b, s, signed, rel, i)[k]
    {
      var j := At(i, s, k);
      AtInside(i, s, k, l);
      LaneOf(j, l, s);
      AtUnique(i, k, j / s, j % s, s);
      assert c[j] == if HoldsAt(a, b, s, signed, rel, i) then a[j] else b[j];
      assert Lane(c, s, i)[k] == c[j] && Lane(a, s, i)[k] == a[j] && Lane(b, s, i)[k] == b[j];
    }
  }

  /** A vector with every lane chosen is the choice. */
  lemma {:induction false} AllChosen(r: seq<byte>, a: seq<byte>, b: seq<byte>, l: nat, s: nat, signed: bool,
                                     rel: Relation)
    requires Vector(r) && Vector(a) && Vector(b) && Shape(l, s)
    requires forall i: nat :: i < l ==> LaneIsChosen(r, a, b, s, signed, rel, i)
    ensures r == Chosen(a, b, l, s, signed, rel)
  {
    hide HoldsAt;
    var c := Chosen(a, b, l, s, signed, rel);
    forall i: nat | i < l
      ensures SameLane(r, c, s, i)
    {
      ChosenLanes(a, b, l, s, signed, rel, i);
      assert LaneIsChosen(r, a, b, s, signed, rel, i);
    }
    SameLanes(r, c, l, s);
  }

  /** vmaxq (`Gt`) and vminq (`Lt`), lane by lane. */
  method ChooseLanes(a: seq<byte>, b: seq<byte>, l: nat, s: nat, signed: bool, rel: Relation) returns (r: seq<byte>)
    requires Vector(a) && Vector(b) && Shape(l, s)
    ensures r == Chosen(a, b, l, s, signed, rel)
  {
    hide HoldsAt, Chosen, ChosenLane, WithLane, Lane;
    r := Filled(0, 16);
    for i := 0 to l
      invariant Vector(r)
      invariant forall k: nat :: k < i ==> LaneIsChosen(r, a, b, s, signed, rel, k)
    {
      AtInside(i, s, 0, l);
      ghost var r0 := r;
      r := WithLane(r, s, i, ChosenLane(a, b, s, signed, rel, i));
      forall k: nat | k < i + 1
        ensures LaneIsChosen(r, a, b, s, signed, rel, k)
      {
        assert k < i ==> LaneIsChosen(r0, a, b, s, signed, rel, k);
        LaneWritten(r0, s, i, ChosenLane(a, b, s, signed, rel, i), k);
      }
    }
    AllChosen(r, a, b, l, s, signed, rel);
  }

  /** vpselq(a, b, vcmp(a, b)) is the lane-wise choice, whatever the relation: vmaxq(a, b) for
      vcmpgtq and vcmphiq, vminq(a, b) for vcmpltq, at every lane size. */
  method SelectRelated(a: seq<byte>, b: seq<byte>, l: nat, s: nat, signed: bool, rel: Relation) returns (r: seq<byte>)
    requires Vector(a) && Vector(b) && Shape(l, s)
    ensures r == Chosen(a, b, l, s, signed, rel)
  {
    hide WholeLanes, HoldsAt, Chosen;
    var p := Compare(a, b, l, s, signed, rel);
    r := Merge(b, a, p);
    forall i: nat | i < l
      ensures LaneIsChosen(r, a, b, s, signed, rel, i)
    {
      AtInside(i, s, 0, l);
      MergeIsLaneSelect(b, a, r, p, Related(a, b, l, s, signed, rel), l, s, i);
    }
    AllChosen(r, a, b, l, s, signed, rel);
  }

  /** Of two lanes that differ, the choice by `Gt` is the greater and by `Lt` the smaller. */
  lemma {:induction false} ChoiceIsExtreme(a: seq<byte>, b: seq<byte>, s: nat, signed: bool, i: nat)
    requires i * s + s <= |a| && i * s + s <= |b|
    ensures var x, y := LaneValue(Lane(a, s, i), signed), LaneValue(Lane(b, s, i), signed);
      && LaneValue(ChosenLane(a, b, s, signed, Gt, i), signed) == (if x > y then x else y)
      && LaneValue(ChosenLane(a, b, s, signed, Lt, i), signed) == (if x < y then x else y)
  {
    hide LaneValue;
  }

  // ----- the tail of an array

  /** vld1q_z under vctp(n): the first `n` lanes of memory, the rest zero. Memory need hold no
      more than those lanes. */
  method LoadTail(mem: seq<byte>, n: nat, l: nat, s: nat) returns (r: seq<byte>)
    requires Shape(l, s) && Least(n, l) * s <= |mem|
    ensures Vector(r)
    ensures forall i: nat :: i < l && i < n ==>
      i * s + s <= 16 && i * s + s <= |mem| && Lane(r, s, i) == Lane(mem, s, i)
    ensures forall i: nat :: n <= i < l ==> i * s + s <= 16 && Lane(r, s, i) == Filled(0, s)
  {
    hide WholeLanes;
    var p := TailPredicate(n, l, s);
    TailReads(p, n, l, s, |mem|);
    r := Merge(Filled(0, 16), mem, p);
    forall i: nat | i < l
      ensures i * s + s <= 16
      ensures i < n ==> i * s + s <= |mem| && Lane(r, s, i) == Lane(mem, s, i)
      ensures i >= n ==> Lane(r, s, i) == Filled(0, s)
    {
      MergeIsLaneSelect(Filled(0, 16), mem, r, p, FirstLanes(n, l), l, s, i);
      assert Lane(Filled(0, 16), s, i) == Filled(0, s);
    }
  }

  /** The bytes a tail predicate selects. */
  lemma {:induction false} TailReads(p: nat, n: nat, l: nat, s: nat, size: nat)
    requires Shape(l, s) && WholeLanes(p, FirstLanes(n, l), s) && Least(n, l) * s <= size
    ensures forall j :: 0 <= j < 16 && Bit(p, j) ==> j < size
  {
    forall j | 0 <= j < 16 && Bit(p, j)
      ensures j < size
    {
      LaneOf(j, l, s);
      assert LaneBit(p, FirstLanes(n, l), s, j / s, j % s);
      MulMonotone(j / s + 1, Least(n, l), s);
    }
  }

  /** vst1q_p under vctp(n): exactly the first `n` lanes of memory are written. */
  method StoreTail(mem: seq<byte>, v: seq<byte>, n: nat, l: nat, s: nat) returns (r: seq<byte>)
    requires Shape(l, s) && Vector(v) && Least(n, l) * s <= |mem|
    ensures var k := (if n < l then n else l) * s; k <= 16 && r == v[..k] + mem[k..]
  {
    hide WholeLanes, Bit;
    var p := TailPredicate(n, l, s);
    var count, at := Least(n, l), 0;
    ghost var total := count * s;
    MulMonotone(count, l, s);
    r := mem;
    for i := 0 to l
      invariant at == i * s
      invariant i <= count ==> at <= total && r == v[..at] + mem[at..]
      invariant i > count ==> r == v[..total] + mem[total..]
    {
      LowBit(p, n, l, s, i);
      NextLane(i, s, count, l);
      if Bit(p, at) {
        OneLaneStored(mem, v, r, at, s);
        r := r[..at] + v[at..at + s] + r[at + s..];
      }
      at := at + s;
    }
  }

  lemma {:induction false} NextLane(i: nat, s: nat, count: nat, l: nat)
    requires Shape(l, s) && i < l && count <= l
    ensures (i + 1) * s == i * s + s && i * s + s <= 16
    ensures i < count ==> i * s + s <= count * s
    ensures i == count ==> i * s == count * s
  {
    AtInside(i, s, 0, l);
    if i < count {
      MulMonotone(i + 1, count, s);
    }
  }

  lemma {:induction false} OneLaneStored(mem: seq<byte>, v: seq<byte>, r0: seq<byte>, at: nat, s: nat)
    requires at + s <= |mem| && at + s <= |v| && r0 == v[..at] + mem[at..]
    ensures r0[..at] + v[at..at + s] + r0[at + s..] == v[..at + s] + mem[at + s..]
  {
  }

  lemma {:induction false} LowBit(p: nat, n: nat, l: nat, s: nat, i: nat)
    requires Shape(l, s) && WholeLanes(p, FirstLanes(n, l), s) && i < l
    ensures Bit(p, i * s) <==> i < n
  {
    assert LaneBit(p, FirstLanes(n, l), s, i, 0) && At(i, s, 0) == i * s;
  }

  // ----- predicates that are not whole-lane

  /** Lanes chosen by their lowest bit, as vst1q_p and the `_x` forms do. */
  function ByLanes(d: seq<byte>, v: seq<byte>, p: nat, l: nat, s: nat): (r: seq<byte>)
    requires Vector(d) && Vector(v) && Shape(l, s)
    ensures Vector(r)
  {
    seq(16, j requires 0 <= j < 16 => LaneOf(j, l, s); if Bit(p, At(j / s, s, 0)) then v[j] else d[j])
  }

  /** Bytes chosen by their own bits, as vld1q_z and the `_m` forms do. */
  function ByBytes(d: seq<byte>, v: seq<byte>, p: nat): (r: seq<byte>)
    requires Vector(d) && Vector(v)
    ensures Vector(r)
  {
    seq(16, j requires 0 <= j < 16 => if Bit(p, j) then v[j] else d[j])
  }

  ghost predicate BitIsLow(p: nat, s: nat, i: nat, k: nat) { Bit(p, At(i, s, k)) <==> Bit(p, At(i, s, 0)) }

  /** Every bit of a lane is as its lowest. */
  ghost predicate Whole(p: nat, l: nat, s: nat) {
    forall i: nat, k: nat :: i < l && k < s ==> BitIsLow(p, s, i, k)
  }

  ghost predicate FormsAgree(d: seq<byte>, v: seq<byte>, p: nat, l: nat, s: nat)
    requires Shape(l, s)
  {
    Vector(d) && Vector(v) ==> ByLanes(d, v, p, l, s) == ByBytes(d, v, p)
  }

  /** The lane form and the byte form do the same on all data if and only if the predicate is
      whole-lane. */
  lemma {:induction false} FormsAgreeIffWhole(p: nat, l: nat, s: nat)
    requires Shape(l, s)
    ensures (forall d: seq<byte>, v: seq<byte> :: FormsAgree(d, v, p, l, s)) <==> Whole(p, l, s)
  {
    hide Bit;
    if Whole(p, l, s) {
      forall d: seq<byte>, v: seq<byte>
        ensures FormsAgree(d, v, p, l, s)
      {
        WholeAgrees(d, v, p, l, s);
      }
    } else {
      var i: nat, k: nat :| i < l && k < s && !BitIsLow(p, s, i, k);
      PartialDiffers(p, l, s, i, k);
    }
  }

  lemma {:induction false} WholeAgrees(d: seq<byte>, v: seq<byte>, p: nat, l: nat, s: nat)
    requires Shape(l, s) && Whole(p, l, s)
    ensures FormsAgree(d, v, p, l, s)
  {
    hide Bit;
    if Vector(d) && Vector(v) {
      var a, b := ByLanes(d, v, p, l, s), ByBytes(d, v, p);
      forall j | 0 <= j < 16
        ensures a[j] == b[j]
      {
        LaneOf(j, l, s);
        assert BitIsLow(p, s, j / s, j % s);
      }
    }
  }

  lemma {:induction false} PartialDiffers(p: nat, l: nat, s: nat, i: nat, k: nat)
    requires Shape(l, s) && i < l && k < s && !BitIsLow(p, s, i, k)
    ensures !FormsAgree(Filled(0, 16), Filled(1, 16), p, l, s)
  {
    hide Bit;
    var d: seq<byte>, v: seq<byte>, j := Filled(0, 16), Filled(1, 16), At(i, s, k);
    AtInside(i, s, k, l);
    LaneOf(j, l, s);
    AtUnique(i, k, j / s, j % s, s);
    assert ByLanes(d, v, p, l, s)[j] != ByBytes(d, v, p)[j];
  }

  /** Two-byte lanes and only the lowest bit set: the forms differ in the second byte. */
  lemma {:induction false} PartialAtAnInput(p: nat, l: nat, s: nat)
    requires p == 1 && l == 8 && s == 2
    ensures Shape(l, s) && !FormsAgree(Filled(0, 16), Filled(1, 16), p, l, s)
  {
    hide FormsAgree, BitIsLow, Filled;
    SecondIsNot(p, s);
    PartialDiffers(p, l, s, 0, 1);
  }

  lemma {:induction false} SecondIsNot(p: nat, s: nat)
    requires p == 1 && s == 2
    ensures !BitIsLow(p, s, 0, 1)
  {
    hide Bit;
    BitsOfOne();
  }

  lemma {:induction false} BitsOfOne()
    ensures Bit(1, 0) && !Bit(1, 1)
  {
    BitOfZero(0);
  }

  /** The predicates of compares and vctp are whole-lane. */
  lemma {:induction false} WholeLanesAreWhole(p: nat, on: seq<bool>, s: nat)
    requires s > 0 && WholeLanes(p, on, s)
    ensures Whole(p, |on|, s)
  {
    forall i: nat, k: nat | i < |on| && k < s
      ensures BitIsLow(p, s, i, k)
    {
      assert LaneBit(p, on, s, i, k) && LaneBit(p, on, s, i, 0);
    }
  }

  /** vst1q_p under any predicate. */
  method StoreLanes(mem: seq<byte>, v: seq<byte>, p: nat, l: nat, s: nat) returns (r: seq<byte>)
    requires Vector(mem) && Vector(v) && Shape(l, s)
    ensures r == ByLanes(mem, v, p, l, s)
  {
    hide Bit, WithLane;
    r := mem;
    for i := 0 to l
      invariant Vector(r) && 0 <= i * s <= 16
      invariant forall j :: 0 <= j < i * s ==> r[j] == ByLanes(mem, v, p, l, s)[j]
      invariant forall j :: i * s <= j < 16 ==> r[j] == mem[j]
    {
      AtInside(i, s, 0, l);
      ghost var r0 := r;
      assert (i + 1) * s == i * s + s;
      if Bit(p, i * s) {
        r := WithLane(r, s, i, Lane(v, s, i));
        LaneBytes(r0, s, i, Lane(v, s, i));
      }
      InLane(i, l, s);
    }
    assert l * s == 16;
  }

  lemma {:induction false} LaneBytes(v: seq<byte>, s: nat, i: nat, x: seq<byte>)
    requires 0 <= i * s && i * s + s <= |v| && |x| == s
    ensures forall j :: 0 <= j < |v| ==>
      WithLane(v, s, i, x)[j] == if i * s <= j < i * s + s then x[j - i * s] else v[j]
  {
  }

  lemma {:induction false} InLane(i: nat, l: nat, s: nat)
    requires Shape(l, s) && i < l
    ensures forall j :: i * s <= j < i * s + s ==> j / s == i
  {
    forall j | i * s <= j < i * s + s
      ensures j / s == i
    {
      DivModUnique(j, s, i, j - i * s);
    }
  }
}
