/** What a merge does to any two byte strings that are mergeable (src/ir/gcda.h, lines 98 to
132), field by field: every whole counter of a counter record becomes the sum of the two, the
summary's runs are added and its largest counter found again, and no other byte changes, the
records of unknown tags and the bytes after the last whole counter included. */
module GcdaFields {
  import opened Bytes
  import opened GcdaAccumulate
  import opened GcdaMerge
  import opened GcovFile
  import opened GcovLayout
  import opened Prelude

  /** The two byte strings have the same byte at each of `n` places from `a` on. */
  predicate Alike(m: seq<byte>, m': seq<byte>, a: nat, n: nat) {
    a + n <= |m| && a + n <= |m'| && forall j :: a <= j < a + n ==> m[j] == m'[j]
  }

  lemma {:induction false} AlikeInner(m: seq<byte>, m': seq<byte>, a: nat, n: nat, b: nat, k: nat)
    requires Alike(m, m', a, n) && a <= b && b + k <= a + n
    ensures Alike(m, m', b, k)
  {
  }

  lemma {:induction false} WordAlike(o: Order, m: seq<byte>, m': seq<byte>, a: nat)
    requires Alike(m, m', a, 4)
    ensures WordAt(o, m, a) == WordAt(o, m', a)
  {
    hide Value;
    assert m[a..a + 4] == m'[a..a + 4];
  }

  lemma {:induction false} CounterAlike(o: Order, m: seq<byte>, m': seq<byte>, a: nat)
    requires Alike(m, m', a, 8)
    ensures CounterAt(o, m, a) == CounterAt(o, m', a)
  {
    hide WordAt;
    WordAlike(o, m, m', a);
    WordAlike(o, m, m', a + 4);
  }

  /** A word that is put reads back, and no byte beside it changes. */
  lemma {:induction false} PutReads(o: Order, m: seq<byte>, a: nat, w: u32)
    requires a + 4 <= |m|
    ensures WordAt(o, PutAt(o, m, a, w), a) == w
    ensures forall j :: 0 <= j < |m| && !(a <= j < a + 4) ==> PutAt(o, m, a, w)[j] == m[j]
  {
    hide WordAt, WordBytes;
    WordBehind(o, m[..a], w, m[a + 4..]);
    assert m[..a] + (WordBytes(o, w) + m[a + 4..]) == PutAt(o, m, a, w);
  }

  lemma {:induction false} PutCounterReads(o: Order, m: seq<byte>, a: nat, v: u64)
    requires a + 8 <= |m|
    ensures CounterAt(o, PutCounter(o, m, a, v), a) == v
    ensures forall j :: 0 <= j < |m| && !(a <= j < a + 8) ==> PutCounter(o, m, a, v)[j] == m[j]
  {
    hide WordAt, PutAt;
    var m1 := PutAt(o, m, a, v % 0x1_0000_0000);
    PutReads(o, m, a, v % 0x1_0000_0000);
    PutReads(o, m1, a + 4, v / 0x1_0000_0000);
    WordAlike(o, m1, PutCounter(o, m, a, v), a);
  }

  // ----- one counter record

  /** The sum of the counters at `a`, as 64-bit counters add. */
  function SumAt(o: Order, m: seq<byte>, q: seq<byte>, a: nat): (v: u64)
    requires a + 8 <= |m| && a + 8 <= |q|
  {
    var x: int, y: int := CounterAt(o, m, a), CounterAt(o, q, a);
    (x + y) % 0x1_0000_0000_0000_0000
  }

  /** The sums of the whole counters from `c` up to `end`. */
  function SumsIn(o: Order, m: seq<byte>, q: seq<byte>, c: nat, end: nat): seq<u64>
    requires end <= |m| && end <= |q|
    decreases end - c
  {
    if c + 8 > end then [] else [SumAt(o, m, q, c)] + SumsIn(o, m, q, c + 8, end)
  }

  lemma {:induction false} SumsAlike(o: Order, m: seq<byte>, m': seq<byte>, q: seq<byte>, c: nat, end: nat)
    requires c <= end <= |q| && Alike(m, m', c, end - c)
    ensures SumsIn(o, m, q, c, end) == SumsIn(o, m', q, c, end)
    decreases end - c
  {
    hide CounterAt;
    if c + 8 <= end {
      CounterAlike(o, m, m', c);
      SumsAlike(o, m, m', q, c + 8, end);
    }
  }

  /** Bytes before the record's counters, and those after its last whole one, stay. */
  lemma {:induction false} AddKeeps(o: Order, a: Acc, q: seq<byte>, c: nat, end: nat, j: nat)
    requires c <= end <= |a.m| && end <= |q| && j < |a.m| && (j < c || j >= c + (end - c) / 8 * 8)
    ensures AddCounters(o, a, q, c, end).m[j] == a.m[j]
    decreases end - c
  {
    hide CounterAt, PutCounter;
    if c + 8 <= end {
      var v := Add64(CounterAt(o, a.m, c), CounterAt(o, q, c));
      PutCounterReads(o, a.m, c, v);
      AddKeeps(o, Acc(PutCounter(o, a.m, c, v), Later(a.max, v), a.sumAt), q, c + 8, end, j);
    }
  }

  lemma {:induction false} AddSets(o: Order, a: Acc, q: seq<byte>, c: nat, end: nat, i: nat)
    requires end <= |a.m| && end <= |q| && c + 8 * i + 8 <= end
    ensures CounterAt(o, AddCounters(o, a, q, c, end).m, c + 8 * i) == SumAt(o, a.m, q, c + 8 * i)
    decreases end - c
  {
    hide CounterAt, PutCounter, AddCounters;
    var v := SumAt(o, a.m, q, c);
    var b := Acc(PutCounter(o, a.m, c, v), Later(a.max, v), a.sumAt);
    AddFirst(o, a, q, c, end);
    PutCounterReads(o, a.m, c, v);
    if i == 0 {
      forall j | c <= j < c + 8
        ensures AddCounters(o, b, q, c + 8, end).m[j] == b.m[j]
      {
        AddKeeps(o, b, q, c + 8, end, j);
      }
      CounterAlike(o, AddCounters(o, b, q, c + 8, end).m, b.m, c);
    } else {
      AddSets(o, b, q, c + 8, end, i - 1);
      CounterAlike(o, a.m, b.m, c + 8 * i);
    }
  }

  lemma {:induction false} AddFirst(o: Order, a: Acc, q: seq<byte>, c: nat, end: nat)
    requires c + 8 <= end <= |a.m| && end <= |q|
    ensures var v := SumAt(o, a.m, q, c);
      AddCounters(o, a, q, c, end) ==
      AddCounters(o, Acc(PutCounter(o, a.m, c, v), Later(a.max, v), a.sumAt), q, c + 8, end)
  {
    hide CounterAt, PutCounter;
  }

  /** The largest sum of the record, or what it was if that is larger. */
  lemma {:induction false} AddLargest(o: Order, a: Acc, q: seq<byte>, c: nat, end: nat)
    requires end <= |a.m| && end <= |q|
    ensures AddCounters(o, a, q, c, end).max == LargestFrom(a.max, SumsIn(o, a.m, q, c, end))
    decreases end - c
  {
    hide CounterAt, PutCounter, AddCounters;
    if c + 8 <= end {
      var v := SumAt(o, a.m, q, c);
      var b := Acc(PutCounter(o, a.m, c, v), Later(a.max, v), a.sumAt);
      AddFirst(o, a, q, c, end);
      PutCounterReads(o, a.m, c, v);
      SumsAlike(o, a.m, b.m, q, c + 8, end);
      AddLargest(o, b, q, c + 8, end);
      assert ([v] + SumsIn(o, a.m, q, c + 8, end))[1..] == SumsIn(o, a.m, q, c + 8, end);
    } else {
      AddNone(o, a, q, c, end);
    }
  }

  lemma {:induction false} AddNone(o: Order, a: Acc, q: seq<byte>, c: nat, end: nat)
    requires c + 8 > end && end <= |a.m| && end <= |q|
    ensures AddCounters(o, a, q, c, end) == a
  {
  }

  // ----- all records

  /** A byte that merging record `p` may change: one of a whole counter, or of the summary's two
      words. */
  predicate Changes(p: Piece, j: nat) {
    || (p.tag == 0x01a10000 && p.at + 8 <= j < p.at + 8 + p.len / 8 * 8)
    || (p.tag == 0xa1000000 && p.len >= 8 && p.at + 8 <= j < p.at + 16)
  }

  lemma {:induction false} PieceKeeps(o: Order, a: Acc, q: seq<byte>, p: Piece, j: nat)
    requires p.at + 8 + p.len <= |a.m| && p.at + 8 + p.len <= |q| && j < |a.m| && !Changes(p, j)
    ensures MergePiece(o, a, q, p).m[j] == a.m[j]
  {
    hide AddCounters, PutAt, WordAt;
    if p.tag == TAG_ARCS {
      AddKeeps(o, a, q, p.at + 8, p.at + 8 + p.len, j);
    } else if p.tag == TAG_SUMMARY && p.len >= 8 {
      var runs: u32 := (WordAt(o, a.m, p.at + 8) + WordAt(o, q, p.at + 8)) % 0x1_0000_0000;
      PutReads(o, a.m, p.at + 8, runs);
    }
  }

  lemma {:induction false} PiecesKeep(o: Order, a: Acc, q: seq<byte>, ps: seq<Piece>, j: nat)
    requires Inside(ps, |a.m|) && Inside(ps, |q|) && j < |a.m| && forall k :: 0 <= k < |ps| ==> !Changes(ps[k], j)
    ensures MergePieces(o, a, q, ps).m[j] == a.m[j]
    decreases ps
  {
    hide MergePiece, Changes;
    if ps != [] {
      PieceKeeps(o, a, q, ps[0], j);
      PiecesKeep(o, MergePiece(o, a, q, ps[0]), q, ps[1..], j);
    }
  }

  lemma {:induction false} InsideParts(x: seq<Piece>, y: seq<Piece>, n: nat)
    requires Inside(x + y, n)
    ensures Inside(x, n) && Inside(y, n)
  {
    assert forall k :: 0 <= k < |x| ==> (x + y)[k] == x[k];
    assert forall k :: 0 <= k < |y| ==> (x + y)[|x| + k] == y[k];
  }

  lemma {:induction false} PiecesSplit(o: Order, a: Acc, q: seq<byte>, x: seq<Piece>, y: seq<Piece>)
    requires Inside(x + y, |a.m|) && Inside(x + y, |q|)
    ensures Inside(x, |a.m|) && Inside(x, |q|) && Inside(y, |a.m|) && Inside(y, |q|)
    ensures MergePieces(o, a, q, x + y) == MergePieces(o, MergePieces(o, a, q, x), q, y)
    decreases x
  {
    hide MergePiece, Inside;
    InsideParts(x, y, |a.m|);
    InsideParts(x, y, |q|);
    if x == [] {
      assert x + y == y;
    } else {
      assert (x + y)[0] == x[0] && (x + y)[1..] == x[1..] + y;
      InsideTail(x + y, |a.m|);
      InsideTail(x + y, |q|);
      PiecesSplit(o, MergePiece(o, a, q, x[0]), q, x[1..], y);
    }
  }

  lemma {:induction false} InsideTail(x: seq<Piece>, n: nat)
    requires Inside(x, n) && x != []
    ensures Inside(x[1..], n) && x[0].at + 8 + x[0].len <= n
  {
  }

  /** Records lie one after another. */
  lemma {:induction false} WalkApart(o: Order, unit: nat, m: seq<byte>, a: nat, i: nat, k: nat)
    requires Walk(o, unit, m, a).Some? && i < k < |Walk(o, unit, m, a).value|
    ensures var ps := Walk(o, unit, m, a).value; a <= ps[i].at && ps[i].at + 8 + ps[i].len <= ps[k].at
    decreases |m| - a
  {
    hide WordAt, LengthAt;
    var len := LengthAt(o, unit, m, a);
    var rest := Walk(o, unit, m, a + 8 + len);
    if i > 0 {
      WalkApart(o, unit, m, a + 8 + len, i - 1, k - 1);
    } else {
      WalkAfter(o, unit, m, a + 8 + len, k - 1);
    }
  }

  lemma {:induction false} WalkAfter(o: Order, unit: nat, m: seq<byte>, a: nat, k: nat)
    requires Walk(o, unit, m, a).Some? && k < |Walk(o, unit, m, a).value|
    ensures a <= Walk(o, unit, m, a).value[k].at
    decreases |m| - a
  {
    hide WordAt, LengthAt;
    if k > 0 {
      WalkAfter(o, unit, m, a + 8 + LengthAt(o, unit, m, a), k - 1);
    }
  }

  ghost predicate Apart(ps: seq<Piece>) {
    forall i, k :: 0 <= i < k < |ps| ==> ps[i].at + 8 + ps[i].len <= ps[k].at
  }

  lemma {:induction false} ApartAfter(ps: seq<Piece>, k: nat)
    requires Apart(ps) && k < |ps|
    ensures Apart(ps[k + 1..])
  {
  }

  /** No record changes a byte of another. */
  lemma {:induction false} OthersKeep(ps: seq<Piece>, k: nat, j: nat)
    requires Apart(ps) && k < |ps| && ps[k].at <= j < ps[k].at + 8 + ps[k].len
    ensures forall i :: 0 <= i < |ps| && i != k ==> !Changes(ps[i], j)
  {
    forall i | 0 <= i < |ps| && i != k
      ensures !Changes(ps[i], j)
    {
    }
  }

  /** What all the records together make of record `k` is what its own merge makes of it. */
  lemma {:induction false} OwnMerge(o: Order, a: Acc, q: seq<byte>, ps: seq<Piece>, k: nat, b: Acc)
    requires Inside(ps, |a.m|) && Inside(ps, |q|) && Apart(ps) && k < |ps|
    requires b == MergePieces(o, a, q, ps)
    ensures var p := ps[k];
      && p.at + 8 + p.len <= |a.m| && p.at + 8 + p.len <= |q|
      && exists c: Acc :: (|c.m| == |a.m| && Alike(a.m, c.m, p.at, 8 + p.len)
           && Alike(MergePiece(o, c, q, p).m, b.m, p.at, 8 + p.len))
  {
    hide MergePiece, Changes, MergePieces;
    var x, p, y := ps[..k], ps[k], ps[k + 1..];
    assert ps == x + ([p] + y);
    PiecesSplit(o, a, q, x, [p] + y);
    var c := MergePieces(o, a, q, x);
    OneThenRest(o, c, q, p, y);
    var d := MergePiece(o, c, q, p);
    forall j | p.at <= j < p.at + 8 + p.len
      ensures c.m[j] == a.m[j] && b.m[j] == d.m[j]
    {
      OthersKeep(ps, k, j);
      assert forall i :: 0 <= i < |x| ==> x[i] == ps[i];
      assert forall i :: 0 <= i < |y| ==> y[i] == ps[k + 1 + i];
      PiecesKeep(o, a, q, x, j);
      PiecesKeep(o, d, q, y, j);
    }
  }

  lemma {:induction false} OneThenRest(o: Order, a: Acc, q: seq<byte>, p: Piece, y: seq<Piece>)
    requires Inside([p] + y, |a.m|) && Inside([p] + y, |q|)
    ensures p.at + 8 + p.len <= |a.m| && p.at + 8 + p.len <= |q| && Inside(y, |a.m|) && Inside(y, |q|)
    ensures MergePieces(o, a, q, [p] + y) == MergePieces(o, MergePiece(o, a, q, p), q, y)
  {
    hide MergePiece;
    InsideTail([p] + y, |a.m|);
    InsideTail([p] + y, |q|);
    assert ([p] + y)[1..] == y;
  }

  // ----- the summary's largest counter

  predicate IsSummary(p: Piece) { p.tag == 0xa1000000 && p.len >= 8 }

  /** The sums of one record. */
  function PieceSums(o: Order, m: seq<byte>, q: seq<byte>, p: Piece): seq<u64>
    requires p.at + 8 + p.len <= |m| && p.at + 8 + p.len <= |q|
  {
    if p.tag == 0x01a10000 then SumsIn(o, m, q, p.at + 8, p.at + 8 + p.len) else []
  }

  /** The sums of all the whole counters of the counter records. */
  function AllSums(o: Order, m: seq<byte>, q: seq<byte>, ps: seq<Piece>): seq<u64>
    requires Inside(ps, |m|) && Inside(ps, |q|)
    decreases ps
  {
    if ps == [] then [] else PieceSums(o, m, q, ps[0]) + AllSums(o, m, q, ps[1..])
  }

  lemma {:induction false} PieceSumsAlike(o: Order, m: seq<byte>, m': seq<byte>, q: seq<byte>, p: Piece)
    requires p.at + 8 + p.len <= |q| && Alike(m, m', p.at, 8 + p.len)
    ensures PieceSums(o, m, q, p) == PieceSums(o, m', q, p)
  {
    SumsAlike(o, m, m', q, p.at + 8, p.at + 8 + p.len);
  }

  lemma {:induction false} AllSumsAlike(o: Order, m: seq<byte>, m': seq<byte>, q: seq<byte>, ps: seq<Piece>)
    requires |m| == |m'| && Inside(ps, |m|) && Inside(ps, |q|)
    requires forall k :: 0 <= k < |ps| ==> Alike(m, m', ps[k].at, 8 + ps[k].len)
    ensures AllSums(o, m, q, ps) == AllSums(o, m', q, ps)
    decreases ps
  {
    hide PieceSums, Alike;
    if ps != [] {
      PieceSumsAlike(o, m, m', q, ps[0]);
      AllSumsAlike(o, m, m', q, ps[1..]);
    }
  }

  lemma {:induction false} LargestAppend(max: u64, a: seq<u64>, b: seq<u64>)
    ensures LargestFrom(max, a + b) == LargestFrom(LargestFrom(max, a), b)
    decreases a
  {
    if a == [] {
      assert a + b == b;
    } else {
      assert (a + b)[1..] == a[1..] + b;
      LargestAppend(Later(max, a[0]), a[1..], b);
    }
  }

  /** The largest sum found, and where the summary is. */
  lemma {:induction false} PiecesFind(o: Order, a: Acc, q: seq<byte>, ps: seq<Piece>)
    requires Inside(ps, |a.m|) && Inside(ps, |q|) && Apart(ps)
    ensures MergePieces(o, a, q, ps).max == LargestFrom(a.max, AllSums(o, a.m, q, ps))
    ensures (forall k :: 0 <= k < |ps| ==> !IsSummary(ps[k])) ==> MergePieces(o, a, q, ps).sumAt == a.sumAt
    decreases ps
  {
    if ps != [] {
      hide MergePiece, Inside, PieceSums, LargestFrom;
      var p, rest := ps[0], ps[1..];
      InsideTail(ps, |a.m|);
      InsideTail(ps, |q|);
      var b := MergePiece(o, a, q, p);
      PieceFinds(o, a, q, p);
      PiecesFind(o, b, q, rest);
      FirstAlone(o, a, q, ps);
      AllSumsAlike(o, a.m, b.m, q, rest);
      LargestAppend(a.max, PieceSums(o, a.m, q, p), AllSums(o, a.m, q, rest));
    }
  }

  lemma {:induction false} PieceFinds(o: Order, a: Acc, q: seq<byte>, p: Piece)
    requires p.at + 8 + p.len <= |a.m| && p.at + 8 + p.len <= |q|
    ensures MergePiece(o, a, q, p).max == LargestFrom(a.max, PieceSums(o, a.m, q, p))
    ensures MergePiece(o, a, q, p).sumAt == if IsSummary(p) then p.at + 8 else a.sumAt
  {
    hide AddCounters, SumsIn, WordAt, PutAt;
    if p.tag == TAG_ARCS {
      AddLargest(o, a, q, p.at + 8, p.at + 8 + p.len);
    }
  }

  /** Merging the first record changes none of the others. */
  lemma {:induction false} FirstAlone(o: Order, a: Acc, q: seq<byte>, ps: seq<Piece>)
    requires Inside(ps, |a.m|) && Inside(ps, |q|) && Apart(ps) && ps != []
    ensures var b := MergePiece(o, a, q, ps[0]);
      forall k :: 0 <= k < |ps[1..]| ==> Alike(a.m, b.m, ps[1..][k].at, 8 + ps[1..][k].len)
  {
    hide MergePiece, Changes;
    var b, rest := MergePiece(o, a, q, ps[0]), ps[1..];
    forall k | 0 <= k < |rest|
      ensures Alike(a.m, b.m, rest[k].at, 8 + rest[k].len)
    {
      var p := ps[k + 1];
      forall j | p.at <= j < p.at + 8 + p.len
        ensures a.m[j] == b.m[j]
      {
        OthersKeep(ps, k + 1, j);
        PieceKeeps(o, a, q, ps[0], j);
      }
    }
  }

  // ----- the theorems

  /** The records of a file, by its own header. */
  function Records(m: seq<byte>): Option<seq<Piece>> {
    if OrderOf(m).None? then None else
    var o := OrderOf(m).value;
    var bytes := BytesFormat(WordAt(o, m, 4));
    Walk(o, Unit4(bytes), m, HeaderSize(bytes))
  }

  /** The records of a file: the first follows the header, of 16 bytes from version 0x42320000 on
      and 12 below; each ends where its length says, in bytes or in words of four, counted in 32
      bits; a zero word follows the last. */
  lemma {:induction false} RecordsAre(m: seq<byte>, k: nat)
    requires Records(m).Some? && k <= |Records(m).value|
    ensures OrderOf(m).Some? && |m| >= 16
    ensures var o, ps := OrderOf(m).value, Records(m).value;
      var late := WordAt(o, m, 4) >= 0x42320000;
      var at := if k > 0 then ps[k - 1].at + 8 + ps[k - 1].len else if late then 16 else 12;
      && at + 4 <= |m| && (WordAt(o, m, at) == 0 <==> k == |ps|)
      && (k < |ps| ==>
            && at + 8 <= |m| && ps[k].tag == WordAt(o, m, at) && ps[k].at == at
            && ps[k].len == (WordAt(o, m, at + 4) * if late then 1 else 4) % 0x1_0000_0000)
  {
    hide WordAt, Walk, OrderOf, BytesFormat;
    OrderHas(m);
    var o := OrderOf(m).value;
    BytesFromB2(WordAt(o, m, 4));
    var bytes := BytesFormat(WordAt(o, m, 4));
    WalkChain(o, Unit4(bytes), m, HeaderSize(bytes), k);
  }

  lemma {:induction false} WalkChain(o: Order, unit: nat, m: seq<byte>, a: nat, k: nat)
    requires Walk(o, unit, m, a).Some? && k <= |Walk(o, unit, m, a).value|
    ensures var ps := Walk(o, unit, m, a).value;
      var at := if k > 0 then ps[k - 1].at + 8 + ps[k - 1].len else a;
      && at + 4 <= |m| && (WordAt(o, m, at) == 0 <==> k == |ps|)
      && (k < |ps| ==> at + 8 <= |m| && ps[k] == Piece(WordAt(o, m, at), at, LengthAt(o, unit, m, at)))
    decreases |m| - a
  {
    hide WordAt, LengthAt;
    if k > 0 {
      WalkChain(o, unit, m, a + 8 + LengthAt(o, unit, m, a), k - 1);
    }
  }

  lemma {:induction false} MergeableRecords(m: seq<byte>, q: seq<byte>)
    requires Mergeable(m, q)
    ensures OrderOf(m).Some? && Records(m).Some?
    ensures var o, ps := OrderOf(m).value, Records(m).value;
      && Inside(ps, |m|) && Inside(ps, |q|) && Apart(ps)
      && Merged(m, q) == Finish(o, MergePieces(o, Acc(m, 0, 0), q, ps))
      && forall k :: 0 <= k < |ps| ==> ps[k].at >= 12
  {
    hide Walk, OrderOf, BytesFormat, WordAt, SameFunctions;
    OrderHas(m);
    var o := OrderOf(m).value;
    var bytes := BytesFormat(WordAt(o, m, 4));
    var ps := Walk(o, Unit4(bytes), m, HeaderSize(bytes)).value;
    WalkInside(o, Unit4(bytes), m, HeaderSize(bytes));
    WalkInside(o, Unit4(bytes), q, HeaderSize(bytes));
    forall i, k | 0 <= i < k < |ps|
      ensures ps[i].at + 8 + ps[i].len <= ps[k].at
    {
      WalkApart(o, Unit4(bytes), m, HeaderSize(bytes), i, k);
    }
    forall k | 0 <= k < |ps|
      ensures ps[k].at >= 12
    {
      WalkAfter(o, Unit4(bytes), m, HeaderSize(bytes), k);
    }
  }

  /** Where the largest counter is written: in the last summary, and nowhere else. */
  lemma {:induction false} FinishesLast(o: Order, m: seq<byte>, q: seq<byte>, ps: seq<Piece>, k: nat)
    requires Inside(ps, |m|) && Inside(ps, |q|) && Apart(ps) && k < |ps| && IsSummary(ps[k])
    requires forall i :: k < i < |ps| ==> !IsSummary(ps[i])
    ensures MergePieces(o, Acc(m, 0, 0), q, ps).sumAt == ps[k].at + 8
  {
    hide MergePiece, MergePieces, Inside, Apart, AllSums, SumsIn, LargestFrom, IsSummary;
    var a, x, p, y := Acc(m, 0, 0), ps[..k], ps[k], ps[k + 1..];
    ApartAfter(ps, k);
    assert ps == x + ([p] + y);
    PiecesSplit(o, a, q, x, [p] + y);
    var c := MergePieces(o, a, q, x);
    OneThenRest(o, c, q, p, y);
    PieceFinds(o, c, q, p);
    assert forall i :: 0 <= i < |y| ==> y[i] == ps[k + 1 + i];
    PiecesFind(o, MergePiece(o, c, q, p), q, y);
  }

  lemma {:induction false} LastSummary(ps: seq<Piece>, n: nat) returns (k: nat)
    requires n <= |ps| && exists i :: 0 <= i < n && IsSummary(ps[i])
    requires forall i :: n <= i < |ps| ==> !IsSummary(ps[i])
    ensures k < n && IsSummary(ps[k]) && forall i :: k < i < |ps| ==> !IsSummary(ps[i])
  {
    if IsSummary(ps[n - 1]) {
      k := n - 1;
    } else {
      k := LastSummary(ps, n - 1);
    }
  }

  /** The last step writes in a summary's second word only. */
  lemma {:induction false} FinishKeeps(o: Order, m: seq<byte>, q: seq<byte>, ps: seq<Piece>, j: nat)
    requires Inside(ps, |m|) && Inside(ps, |q|) && Apart(ps) && j < |m|
    requires forall k :: 0 <= k < |ps| && IsSummary(ps[k]) ==> !(ps[k].at + 12 <= j < ps[k].at + 16)
    ensures var b := MergePieces(o, Acc(m, 0, 0), q, ps); Finish(o, b)[j] == b.m[j]
  {
    hide MergePieces, PutAt, Inside, AllSums;
    var b := MergePieces(o, Acc(m, 0, 0), q, ps);
    PiecesFind(o, Acc(m, 0, 0), q, ps);
    if exists i :: 0 <= i < |ps| && IsSummary(ps[i]) {
      var k := LastSummary(ps, |ps|);
      FinishesLast(o, m, q, ps, k);
      PutReads(o, b.m, b.sumAt + 4, Clamped(b.max));
    }
  }

  /** A record's bytes are no summary's second word, unless it is that summary. */
  lemma {:induction false} NotInSummary(ps: seq<Piece>, k: nat, j: nat)
    requires Apart(ps) && k < |ps| && ps[k].at <= j < ps[k].at + 8 + ps[k].len
    requires IsSummary(ps[k]) ==> !(ps[k].at + 12 <= j < ps[k].at + 16)
    ensures forall i :: 0 <= i < |ps| && IsSummary(ps[i]) ==> !(ps[i].at + 12 <= j < ps[i].at + 16)
  {
  }

  lemma {:induction false} OwnCounter(o: Order, m: seq<byte>, q: seq<byte>, ps: seq<Piece>, k: nat, i: nat)
    requires Inside(ps, |m|) && Inside(ps, |q|) && Apart(ps) && k < |ps|
    requires ps[k].tag == 0x01a10000 && 8 * i + 8 <= ps[k].len
    ensures var a, b := ps[k].at + 8 + 8 * i, MergePieces(o, Acc(m, 0, 0), q, ps);
      && a + 8 <= |m| && a + 8 <= |q|
      && CounterAt(o, b.m, a) == SumAt(o, m, q, a)
  {
    hide CounterAt, MergePieces, AddCounters, Apart, Inside, Alike;
    var p, b := ps[k], MergePieces(o, Acc(m, 0, 0), q, ps);
    var a := p.at + 8 + 8 * i;
    OwnMerge(o, Acc(m, 0, 0), q, ps, k, b);
    var c: Acc :|
      |c.m| == |m| && Alike(m, c.m, p.at, 8 + p.len) && Alike(MergePiece(o, c, q, p).m, b.m, p.at, 8 + p.len);
    AddSets(o, c, q, p.at + 8, p.at + 8 + p.len, i);
    AlikeInner(m, c.m, p.at, 8 + p.len, a, 8);
    AlikeInner(MergePiece(o, c, q, p).m, b.m, p.at, 8 + p.len, a, 8);
    CounterAlike(o, m, c.m, a);
    CounterAlike(o, MergePiece(o, c, q, p).m, b.m, a);
  }

  /** Every whole counter of every counter record is the sum of the two. */
  lemma {:induction false} MergedCounter(m: seq<byte>, q: seq<byte>, k: nat, i: nat)
    requires Mergeable(m, q) && Records(m).Some? && k < |Records(m).value|
    requires var p := Records(m).value[k]; p.tag == 0x01a10000 && 8 * i + 8 <= p.len
    ensures OrderOf(m).Some?
    ensures var o, a := OrderOf(m).value, Records(m).value[k].at + 8 + 8 * i;
      && a + 8 <= |m| && a + 8 <= |q|
      && CounterAt(o, Merged(m, q), a) == SumAt(o, m, q, a)
  {
    hide Mergeable, Merged, Records, CounterAt, MergePieces, SumAt, Finish, Inside, Apart;
    MergeableRecords(m, q);
    var o, ps := OrderOf(m).value, Records(m).value;
    var b, a := MergePieces(o, Acc(m, 0, 0), q, ps), ps[k].at + 8 + 8 * i;
    OwnCounter(o, m, q, ps, k, i);
    forall j | a <= j < a + 8
      ensures Finish(o, b)[j] == b.m[j]
    {
      NotInSummary(ps, k, j);
      FinishKeeps(o, m, q, ps, j);
    }
    CounterAlike(o, b.m, Finish(o, b), a);
  }

  /** Every summary counts the runs of both. */
  lemma {:induction false} MergedRuns(m: seq<byte>, q: seq<byte>, k: nat)
    requires Mergeable(m, q) && Records(m).Some? && k < |Records(m).value| && IsSummary(Records(m).value[k])
    ensures OrderOf(m).Some?
    ensures var o, a := OrderOf(m).value, Records(m).value[k].at + 8;
      && a + 8 <= |m| && a + 8 <= |q|
      && WordAt(o, Merged(m, q), a) == (WordAt(o, m, a) + WordAt(o, q, a)) % 0x1_0000_0000
  {
    hide Mergeable, Merged, Records, WordAt, MergePieces, PutAt;
    MergeableRecords(m, q);
    var o, ps := OrderOf(m).value, Records(m).value;
    var p, b := ps[k], MergePieces(o, Acc(m, 0, 0), q, ps);
    var a := p.at + 8;
    OwnMerge(o, Acc(m, 0, 0), q, ps, k, b);
    var c: Acc :|
      |c.m| == |m| && Alike(m, c.m, p.at, 8 + p.len) && Alike(MergePiece(o, c, q, p).m, b.m, p.at, 8 + p.len);
    WordAlike(o, m, c.m, a);
    PutReads(o, c.m, a, (WordAt(o, c.m, a) + WordAt(o, q, a)) % 0x1_0000_0000);
    WordAlike(o, MergePiece(o, c, q, p).m, b.m, a);
    forall j | a <= j < a + 4
      ensures Finish(o, b)[j] == b.m[j]
    {
      NotInSummary(ps, k, j);
      FinishKeeps(o, m, q, ps, j);
    }
    WordAlike(o, b.m, Finish(o, b), a);
  }

  /** The last summary has the largest of the new counters, as much of it as a word holds. */
  lemma {:induction false} MergedLargest(m: seq<byte>, q: seq<byte>, k: nat)
    requires Mergeable(m, q) && Records(m).Some? && k < |Records(m).value| && IsSummary(Records(m).value[k])
    requires forall i :: k < i < |Records(m).value| ==> !IsSummary(Records(m).value[i])
    ensures OrderOf(m).Some?
    ensures var o, ps := OrderOf(m).value, Records(m).value;
      && Inside(ps, |m|) && Inside(ps, |q|) && ps[k].at + 16 <= |m|
      && exists v: u64 ::
           IsLargest(AllSums(o, m, q, ps), v) &&
           WordAt(o, Merged(m, q), ps[k].at + 12) == if v < 0x1_0000_0000 then v else 0xffff_ffff
  {
    hide Mergeable, Merged, Records, WordAt, MergePieces, PutAt, AllSums, IsLargest, LargestFrom;
    MergeableRecords(m, q);
    var o, ps := OrderOf(m).value, Records(m).value;
    var b := MergePieces(o, Acc(m, 0, 0), q, ps);
    var sums := AllSums(o, m, q, ps);
    PiecesFind(o, Acc(m, 0, 0), q, ps);
    FinishesLast(o, m, q, ps, k);
    FromZero(sums);
    PutReads(o, b.m, b.sumAt + 4, Clamped(b.max));
    assert IsLargest(sums, b.max);
  }

  lemma {:induction false} FromZero(cs: seq<u64>)
    ensures IsLargest(cs, LargestFrom(0, cs))
  {
    LargestFromBounds(0, cs);
    if cs != [] && LargestFrom(0, cs) == 0 {
      assert cs[0] == 0;
    }
  }

  /** No other byte changes. */
  lemma {:induction false} MergedRest(m: seq<byte>, q: seq<byte>, j: nat)
    requires Mergeable(m, q) && Records(m).Some? && j < |m|
    requires forall k :: 0 <= k < |Records(m).value| ==> !Changes(Records(m).value[k], j)
    ensures Merged(m, q)[j] == m[j]
  {
    hide Mergeable, Merged, Records, MergePieces;
    MergeableRecords(m, q);
    var o, ps := OrderOf(m).value, Records(m).value;
    PiecesKeep(o, Acc(m, 0, 0), q, ps, j);
    assert forall k :: 0 <= k < |ps| && IsSummary(ps[k]) ==> !Changes(ps[k], j);
    FinishKeeps(o, m, q, ps, j);
  }
}
