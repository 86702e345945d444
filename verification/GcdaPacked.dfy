/** A unit's counters in the order in which its file has them. A file says nothing of where the
functions' counters lie in the unit, so it is also the file of the unit whose counters lie one
function after another; src/ir/gcov.c, line 1146, lays them out so to begin with. What a merge
reads in any bytes is then the counters of such a unit. */
module GcdaPacked {
  import opened Arith
  import opened Bytes
  import opened GcovFile
  import opened Prelude
  import opened GcdaMerge
  import opened GcdaAccumulate
  import opened GcovWriter

  // ----- places

  /** Where the `k`-th function's counters start in the file's order. */
  function Base(u: Unit, k: nat): nat
    requires k <= |u.funcs|
  {
    if k == 0 then 0 else Base(u, k - 1) + u.funcs[k - 1].n
  }

  function Size(u: Unit): nat { Base(u, |u.funcs|) }

  /** The unit's own places of its first `k` functions' counters, in the file's order. */
  function Places(u: Unit, k: nat): (ps: seq<nat>)
    requires k <= |u.funcs|
    ensures |ps| == Base(u, k)
  {
    if k == 0 then [] else Places(u, k - 1) + seq(u.funcs[k - 1].n, i requires i >= 0 => u.funcs[k - 1].base + i)
  }

  function PlaceOf(u: Unit, i: nat): nat { if i < Size(u) then Places(u, |u.funcs|)[i] else 0 }

  /** The same functions with their counters one after another. */
  function PackedUnit(u: Unit): (v: Unit)
    ensures |v.funcs| == |u.funcs|
  {
    u.(funcs := seq(|u.funcs|, k requires 0 <= k < |u.funcs| => u.funcs[k].(base := Base(u, k))))
  }

  lemma {:induction false} PlacesKept(u: Unit, k: nat, n: nat)
    requires k <= n <= |u.funcs|
    ensures Base(u, k) <= Base(u, n) && Places(u, n)[..Base(u, k)] == Places(u, k)
    decreases n - k
  {
    if k < n {
      PlacesKept(u, k, n - 1);
      assert Places(u, n)[..Base(u, k)] == Places(u, n - 1)[..Base(u, k)];
    }
  }

  /** The places of one function. */
  lemma {:induction false} PlacesOfFn(u: Unit, k: nat, i: nat)
    requires k < |u.funcs| && i < u.funcs[k].n
    ensures Base(u, k + 1) == Base(u, k) + u.funcs[k].n <= Size(u)
    ensures PlaceOf(u, Base(u, k) + i) == u.funcs[k].base + i
  {
    var n := |u.funcs|;
    PlacesKept(u, k + 1, n);
    assert Places(u, n)[Base(u, k) + i] == Places(u, n)[..Base(u, k + 1)][Base(u, k) + i];
  }

  lemma {:induction false} BaseInside(u: Unit, k: nat)
    requires k < |u.funcs|
    ensures Base(u, k) + u.funcs[k].n == Base(u, k + 1) <= Size(u)
  {
    PlacesKept(u, k + 1, |u.funcs|);
  }

  /** Every place in the file's order is some function's. */
  lemma {:induction false} FnOfPlace(u: Unit, i: nat, m: nat) returns (k: nat)
    requires m <= |u.funcs| && i < Base(u, m)
    ensures k < m && Base(u, k) <= i < Base(u, k) + u.funcs[k].n
  {
    if i < Base(u, m - 1) {
      k := FnOfPlace(u, i, m - 1);
    } else {
      k := m - 1;
    }
  }

  lemma {:induction false} PlacesInside(u: Unit, c: seq<u64>, i: nat)
    requires UnitOk(u, c) && i < Size(u)
    ensures PlaceOf(u, i) < |c|
  {
    hide Places, PlaceOf;
    var k := FnOfPlace(u, i, |u.funcs|);
    PlacesOfFn(u, k, i - Base(u, k));
  }

  // ----- counters

  /** Counters in the file's order. */
  function Pack(u: Unit, c: seq<u64>): (p: seq<u64>)
    requires UnitOk(u, c)
    ensures |p| == Size(u)
  {
    seq(Size(u), i requires 0 <= i < Size(u) => PlacesInside(u, c, i); c[PlaceOf(u, i)])
  }

  lemma {:induction false} PackSlice(u: Unit, c: seq<u64>, k: nat)
    requires UnitOk(u, c) && k < |u.funcs|
    ensures var f := u.funcs[k];
      Base(u, k) + f.n <= Size(u) && Pack(u, c)[Base(u, k)..Base(u, k) + f.n] == c[f.base..f.base + f.n]
  {
    hide Places, PlaceOf, Size, Base;
    var f := u.funcs[k];
    BaseInside(u, k);
    var a, b := Pack(u, c)[Base(u, k)..Base(u, k) + f.n], c[f.base..f.base + f.n];
    forall i | 0 <= i < f.n
      ensures a[i] == b[i]
    {
      PlacesOfFn(u, k, i);
      PlacesInside(u, c, Base(u, k) + i);
    }
  }

  lemma {:induction false} PackedOk(u: Unit, n: nat)
    requires n == Size(u) && forall k :: 0 <= k < |u.funcs| ==> 8 * u.funcs[k].n < 0x1_0000_0000
    ensures forall d: seq<u64> :: |d| == n ==> UnitOk(PackedUnit(u), d)
    ensures Covered(PackedUnit(u), n)
  {
    hide Base, Size;
    var v := PackedUnit(u);
    forall k | 0 <= k < |u.funcs|
      ensures v.funcs[k].base + v.funcs[k].n <= n
    {
      BaseInside(u, k);
    }
    forall i: nat | i < n
      ensures InSome(v, i)
    {
      assert Size(u) == Base(u, |u.funcs|) by { SizeIs(u); }
      var k := FnOfPlace(u, i, |u.funcs|);
      assert v.funcs[k].base <= i < v.funcs[k].base + v.funcs[k].n;
    }
  }

  lemma {:induction false} SizeIs(u: Unit)
    ensures Size(u) == Base(u, |u.funcs|)
  {
  }

  lemma {:induction false} PackedRecords(u: Unit, c: seq<u64>, k: nat)
    requires UnitOk(u, c) && k <= |u.funcs| && UnitOk(PackedUnit(u), Pack(u, c))
    ensures FnRecords(PackedUnit(u), Pack(u, c), k) == FnRecords(u, c, k)
    decreases |u.funcs| - k
  {
    hide Base, Size, Pack, CounterWords;
    if k < |u.funcs| {
      PackSlice(u, c, k);
      PackedRecords(u, c, k + 1);
    }
  }

  lemma {:induction false} PackedLargest(u: Unit, c: seq<u64>, k: nat, max: u64)
    requires UnitOk(u, c) && k <= |u.funcs| && UnitOk(PackedUnit(u), Pack(u, c))
    ensures FnLargest(PackedUnit(u), Pack(u, c), k, max) == FnLargest(u, c, k, max)
    decreases |u.funcs| - k
  {
    hide Base, Size, Pack, LargestFrom;
    if k < |u.funcs| {
      PackSlice(u, c, k);
      var f := u.funcs[k];
      PackedLargest(u, c, k + 1, LargestFrom(max, c[f.base..f.base + f.n]));
    }
  }

  lemma {:induction false} PackedFits(u: Unit, c: seq<u64>)
    requires UnitOk(u, c)
    ensures UnitOk(PackedUnit(u), Pack(u, c)) && Covered(PackedUnit(u), Size(u))
  {
    hide Size;
    PackedOk(u, Size(u));
  }

  /** The file of the packed unit and its counters is the unit's own. */
  lemma {:induction false} PackedFile(o: Order, u: Unit, c: seq<u64>, r: u32, x: u32)
    requires UnitOk(u, c)
    ensures UnitOk(PackedUnit(u), Pack(u, c))
    ensures FileBytes(o, PackedUnit(u), Pack(u, c), r, x) == FileBytes(o, u, c, r, x)
  {
    hide Base, Size, Pack, AllBytes, Encoded, FnRecords, SummaryBytes, BytesFormat, UnitOk;
    PackedFits(u, c);
    PackedRecords(u, c, 0);
  }

  lemma {:induction false} PackedImage(o: Order, u: Unit, c: seq<u64>, r: u32)
    requires UnitOk(u, c) && Covered(u, |c|)
    ensures UnitOk(PackedUnit(u), Pack(u, c)) && Image(o, PackedUnit(u), Pack(u, c), r) == Image(o, u, c, r)
  {
    hide Size, Pack, Image, FileBytes, Covered, Largest, FnLargest, PackedUnit, UnitOk;
    var v, p := PackedUnit(u), Pack(u, c);
    PackedFits(u, c);
    PackedLargest(u, c, 0, 0);
    LargestAgree(u, c);
    LargestAgree(v, p);
    ImageIsFile(o, u, c, r);
    ImageIsFile(o, v, p, r);
    PackedFile(o, u, c, r, Clamped(Largest(c)));
  }

  // ----- what a merge reads

  /** There is room for the records of the functions from the `k`-th on, from `a`. */
  predicate Room(u: Unit, q: seq<byte>, k: nat, a: nat)
    requires k <= |u.funcs|
    decreases |u.funcs| - k
  {
    k == |u.funcs| || (a + 28 + 8 * u.funcs[k].n <= |q| && Room(u, q, k + 1, a + 28 + 8 * u.funcs[k].n))
  }

  /** The counters read for the functions from the `k`-th on, in the file's order. */
  function ReadFrom(o: Order, u: Unit, q: seq<byte>, k: nat, a: nat): (d: seq<u64>)
    requires k <= |u.funcs| && Room(u, q, k, a)
    ensures |d| == Size(u) - Base(u, k)
    decreases |u.funcs| - k
  {
    if k == |u.funcs| then [] else
    BaseInside(u, k);
    ReadAt(o, q, a + 28, u.funcs[k].n) + ReadFrom(o, u, q, k + 1, a + 28 + 8 * u.funcs[k].n)
  }

  lemma {:induction false} RoomOfPieces(u: Unit, c: seq<u64>, q: seq<byte>, k: nat, a: nat)
    requires UnitOk(u, c) && k <= |u.funcs| && Inside(PiecesOf(FnRecords(u, c, k), a), |q|)
    ensures Room(u, q, k, a)
    decreases |u.funcs| - k
  {
    hide PiecesOf, FnRecords, Inside;
    if k < |u.funcs| {
      var n := u.funcs[k].n;
      FnPieces(u, c, k, a);
      InsideCons(Piece(TAG_FUNCTION, a, 12), Piece(TAG_ARCS, a + 20, 8 * n),
        PiecesOf(FnRecords(u, c, k + 1), a + 28 + 8 * n), |q|);
      RoomOfPieces(u, c, q, k + 1, a + 28 + 8 * n);
    }
  }

  /** What is read is what the packed unit's counters read as. */
  lemma {:induction false} ReadsPacked(o: Order, u: Unit, q: seq<byte>, k: nat, a: nat, done: seq<u64>)
    requires k <= |u.funcs| && Room(u, q, k, a) && |done| == Base(u, k)
    requires UnitOk(PackedUnit(u), done + ReadFrom(o, u, q, k, a))
    ensures ReadsAs(o, PackedUnit(u), done + ReadFrom(o, u, q, k, a), q, k, a)
    decreases |u.funcs| - k
  {
    hide Size, Base, ReadAt, UnitOk;
    if k < |u.funcs| {
      var n := u.funcs[k].n;
      var x, rest, b := ReadAt(o, q, a + 28, n), ReadFrom(o, u, q, k + 1, a + 28 + 8 * n), a + 28 + 8 * n;
      BaseInside(u, k);
      Assoc(done, x, rest);
      ReadsPacked(o, u, q, k + 1, b, done + x);
      Middle(done, x, rest);
      assert PackedUnit(u).funcs[k].base == |done| && PackedUnit(u).funcs[k].n == n;
    }
  }

  lemma {:induction false} Middle(a: seq<u64>, x: seq<u64>, b: seq<u64>)
    ensures ((a + x) + b)[|a|..|a| + |x|] == x
  {
  }

  /** Any two counters that read as the same bytes are the same, in the file's order. */
  lemma {:induction false} OneReading(o: Order, u: Unit, d: seq<u64>, q: seq<byte>, k: nat, a: nat)
    requires |d| == Size(u) && UnitOk(PackedUnit(u), d) && k <= |u.funcs| && ReadsAs(o, PackedUnit(u), d, q, k, a)
    ensures Base(u, k) <= |d| && Room(u, q, k, a) && d[Base(u, k)..] == ReadFrom(o, u, q, k, a)
    decreases |u.funcs| - k
  {
    hide Size, Base, Places, ReadAt, UnitOk;
    SizeIs(u);
    PlacesKept(u, k, |u.funcs|);
    if k == |u.funcs| {
      assert d[Base(u, k)..] == [];
    } else {
      var n := u.funcs[k].n;
      var b := a + 28 + 8 * n;
      BaseInside(u, k);
      OneReading(o, u, d, q, k + 1, b);
      SplitAt(d, Base(u, k), Base(u, k) + n);
      assert PackedUnit(u).funcs[k].base == Base(u, k) && PackedUnit(u).funcs[k].n == n;
    }
  }

  lemma {:induction false} SplitAt(d: seq<u64>, a: nat, b: nat)
    requires a <= b <= |d|
    ensures d[a..] == d[a..b] + d[b..]
  {
  }

  /** Every counter that a merge reads for the unit. */
  function ReadAll(o: Order, u: Unit, q: seq<byte>): (d: seq<u64>)
    requires Room(u, q, 0, FirstRecord(u))
    ensures |d| == Size(u)
  {
    ReadFrom(o, u, q, 0, FirstRecord(u))
  }

  /** Bytes that are merged have room for what is read. */
  lemma {:induction false} MergeableRoom(o: Order, u: Unit, c: seq<u64>, r: u32, q: seq<byte>)
    requires UnitOk(u, c) && Mergeable(Image(o, u, c, r), q)
    ensures FirstRecord(u) <= |q| && Room(u, q, 0, FirstRecord(u))
  {
    hide Image, FileBytes, Mergeable, PiecesOf, FnRecords, Inside, Room;
    ImageIsFile(o, u, c, r);
    MergeableHas(o, u, c, r, Clamped(Largest(c)), q);
    var ps := PiecesOf(FnRecords(u, c, 0), FirstRecord(u));
    InsideTail(Piece(TAG_SUMMARY, HeaderSize(BytesFormat(u.version)), 8), ps, |q|);
    RoomOfPieces(u, c, q, 0, FirstRecord(u));
  }

  lemma {:induction false} InsideTail(p: Piece, ps: seq<Piece>, n: nat)
    requires Inside([p] + ps, n)
    ensures Inside(ps, n)
  {
    InsideRest([p] + ps, n);
    assert ([p] + ps)[1..] == ps;
  }

  /** Whatever bytes an image is merged with, the merge is the file of its counters added to those
      read at their places and of its runs added to those read. */
  lemma {:induction false} MergedWithAny(o: Order, u: Unit, c: seq<u64>, r: u32, q: seq<byte>)
    requires UnitOk(u, c) && Mergeable(Image(o, u, c, r), q)
    ensures FirstRecord(u) <= |q| && Room(u, q, 0, FirstRecord(u))
    ensures var t := Sums(Pack(u, c), ReadAll(o, u, q));
      && UnitOk(PackedUnit(u), t)
      && Merged(Image(o, u, c, r), q) == Image(o, PackedUnit(u), t, AddRuns(r, RunsIn(o, u, q)))
  {
    hide Image, FileBytes, Mergeable, Merged, Size, Base, Pack, UnitOk, Covered, FnLargest, Largest, Sums, Room,
      ReadsAs, ReadFrom, BytesFormat, WordAt;
    var v, p, d, x := PackedUnit(u), Pack(u, c), [], Clamped(Largest(c));
    MergeableRoom(o, u, c, r, q);
    d := ReadAll(o, u, q);
    ImageIsFile(o, u, c, r);
    PackedFile(o, u, c, r, x);
    PackedReads(o, u, c, q);
    MergedWith(o, v, p, r, x, q, d);
    var t := Sums(p, d);
    LargestAgree(v, t);
    ImageIsFile(o, v, t, AddRuns(r, RunsIn(o, u, q)));
  }

  lemma {:induction false} PackedReads(o: Order, u: Unit, c: seq<u64>, q: seq<byte>)
    requires UnitOk(u, c) && Room(u, q, 0, FirstRecord(u))
    ensures var v, d := PackedUnit(u), ReadAll(o, u, q);
      UnitOk(v, d) && Covered(v, Size(u)) && ReadsAs(o, v, d, q, 0, FirstRecord(u))
  {
    hide Size, Room, ReadFrom, ReadsAs, Covered;
    PackedOk(u, Size(u));
    var d := ReadAll(o, u, q);
    assert [] + d == d;
    NoBase(u);
    ReadsPacked(o, u, q, 0, FirstRecord(u), []);
  }

  lemma {:induction false} NoBase(u: Unit)
    ensures Base(u, 0) == 0
  {
  }

  /** An image of the unit reads as its own counters and runs. */
  lemma {:induction false} ImageReads(o: Order, u: Unit, d: seq<u64>, r: u32)
    requires UnitOk(u, d)
    ensures var q := Image(o, u, d, r);
      && FirstRecord(u) <= |q| && Room(u, q, 0, FirstRecord(u))
      && ReadAll(o, u, q) == Pack(u, d) && RunsIn(o, u, q) == r
  {
    hide Image, FileBytes, Size, Pack, UnitOk, Largest, Room, ReadsAs, ReadFrom, BytesFormat, WordAt;
    var v, p, x := PackedUnit(u), Pack(u, d), Clamped(Largest(d));
    ImageIsFile(o, u, d, r);
    PackedFile(o, u, d, r, x);
    FileReads(o, v, p, r, x);
    NoBase(u);
    OneReading(o, u, p, Image(o, u, d, r), 0, FirstRecord(u));
  }

  // ----- units whose counters lie so already

  /** The functions' counters lie one after another. */
  predicate InOrder(u: Unit) { forall k :: 0 <= k < |u.funcs| ==> u.funcs[k].base == Base(u, k) }

  /** Then packing changes nothing. */
  lemma {:induction false} InOrderIsPacked(u: Unit, c: seq<u64>)
    requires UnitOk(u, c) && InOrder(u) && |c| == Size(u)
    ensures PackedUnit(u) == u && Pack(u, c) == c
  {
    hide Base, Size, Places, PlaceOf;
    assert PackedUnit(u).funcs == u.funcs;
    forall i: nat | i < |c|
      ensures PlaceOf(u, i) == i
    {
      OwnPlace(u, i);
    }
  }

  lemma {:induction false} OwnPlace(u: Unit, i: nat)
    requires InOrder(u) && i < Size(u)
    ensures PlaceOf(u, i) == i
  {
    hide Base, Size, Places, PlaceOf;
    SizeIs(u);
    var k := FnOfPlace(u, i, |u.funcs|);
    PlacesOfFn(u, k, i - Base(u, k));
  }
}
