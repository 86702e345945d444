/** Runs accumulate: merging the files of two runs of a program gives the file of the counts
of both together. */
module GcdaAccumulate {
  import opened Arith
  import opened Bytes
  import opened GcovFile
  import opened Prelude
  import opened GcdaMerge
  import opened GcovLayout

  /** Counters of two runs added, as 64-bit counters add. */
  function Sums(a: seq<u64>, b: seq<u64>): (s: seq<u64>)
    requires |a| == |b|
    ensures |s| == |a|
  {
    seq(|a|, i requires 0 <= i < |a| => Add64(a[i], b[i]))
  }

  /** The largest of `max` and `cs`. */
  function LargestFrom(max: u64, cs: seq<u64>): u64
    decreases cs
  {
    if cs == [] then max else LargestFrom(Later(max, cs[0]), cs[1..])
  }

  // ----- words behind a prefix

  lemma {:induction false} WordBehind(o: Order, pre: seq<byte>, w: u32, post: seq<byte>)
    ensures WordAt(o, pre + (WordBytes(o, w) + post), |pre|) == w
  {
    hide WordBytes, Value;
    var b := WordBytes(o, w);
    var m := pre + (b + post);
    WordBack(o, w, post);
    assert m[|pre|..|pre| + 4] == (b + post)[0..4];
  }

  lemma {:induction false} PutBehind(o: Order, pre: seq<byte>, old': seq<byte>, w: u32, post: seq<byte>)
    requires |old'| == 4
    ensures PutAt(o, pre + (old' + post), |pre|, w) == pre + (WordBytes(o, w) + post)
  {
    hide WordBytes;
    var m := pre + (old' + post);
    assert m[..|pre|] == pre && m[|pre| + 4..] == post;
    Assoc(pre, WordBytes(o, w), post);
  }

  /** A counter's eight bytes. */
  function CounterBytes(o: Order, v: u64): (b: seq<byte>)
    ensures |b| == 8
  {
    WordBytes(o, v % 0x1_0000_0000) + WordBytes(o, v / 0x1_0000_0000)
  }

  lemma {:induction false} CounterBehind(o: Order, pre: seq<byte>, v: u64, post: seq<byte>)
    ensures CounterAt(o, pre + (CounterBytes(o, v) + post), |pre|) == v
  {
    hide WordBytes, WordAt;
    var lo, hi := WordBytes(o, v % 0x1_0000_0000), WordBytes(o, v / 0x1_0000_0000);
    WordBehind(o, pre, v % 0x1_0000_0000, hi + post);
    WordBehind(o, pre + lo, v / 0x1_0000_0000, post);
    assert pre + (CounterBytes(o, v) + post) == pre + (lo + (hi + post));
    assert pre + (lo + (hi + post)) == (pre + lo) + (hi + post);
  }

  lemma {:induction false} PutCounterBehind(o: Order, pre: seq<byte>, w: u64, v: u64, post: seq<byte>)
    ensures PutCounter(o, pre + (CounterBytes(o, w) + post), |pre|, v) == pre + (CounterBytes(o, v) + post)
  {
    hide WordBytes, PutAt;
    var lo, hi := WordBytes(o, w % 0x1_0000_0000), WordBytes(o, w / 0x1_0000_0000);
    var lo', hi' := WordBytes(o, v % 0x1_0000_0000), WordBytes(o, v / 0x1_0000_0000);
    assert pre + (CounterBytes(o, w) + post) == pre + (lo + (hi + post));
    PutBehind(o, pre, lo, v % 0x1_0000_0000, hi + post);
    assert pre + (lo' + (hi + post)) == (pre + lo') + (hi + post);
    PutBehind(o, pre + lo', hi, v / 0x1_0000_0000, post);
    assert (pre + lo') + (hi' + post) == pre + (CounterBytes(o, v) + post);
  }

  lemma {:induction false} CountersFirst(o: Order, cs: seq<u64>)
    requires cs != []
    ensures AllBytes(o, CounterWords(cs)) == CounterBytes(o, cs[0]) + AllBytes(o, CounterWords(cs[1..]))
  {
    hide WordBytes;
    var lo, hi := cs[0] % 0x1_0000_0000, cs[0] / 0x1_0000_0000;
    assert CounterWords(cs) == [lo] + ([hi] + CounterWords(cs[1..]));
    assert ([lo] + ([hi] + CounterWords(cs[1..])))[1..] == [hi] + CounterWords(cs[1..]);
    assert ([hi] + CounterWords(cs[1..]))[1..] == CounterWords(cs[1..]);
    Assoc(WordBytes(o, lo), WordBytes(o, hi), AllBytes(o, CounterWords(cs[1..])));
  }

  /** The `n` counters that a merge reads from `a` on. */
  function ReadAt(o: Order, q: seq<byte>, a: nat, n: nat): (cs: seq<u64>)
    requires a + 8 * n <= |q|
    ensures |cs| == n
    decreases n
  {
    if n == 0 then [] else [CounterAt(o, q, a)] + ReadAt(o, q, a + 8, n - 1)
  }

  /** A counter record's counters become the sums with those read at its place, whatever bytes
      the other file has. */
  lemma {:induction false} AddsCounters(o: Order, pre: seq<byte>, cs: seq<u64>, post: seq<byte>, q: seq<byte>,
                                        max: u64, sumAt: nat)
    requires |pre| + 8 * |cs| <= |q|
    ensures var s := Sums(cs, ReadAt(o, q, |pre|, |cs|));
      AddCounters(o, Acc(pre + (AllBytes(o, CounterWords(cs)) + post), max, sumAt), q, |pre|, |pre| + 8 * |cs|) ==
      Acc(pre + (AllBytes(o, CounterWords(s)) + post), LargestFrom(max, s), sumAt)
    decreases cs
  {
    hide AllBytes, CounterWords, CounterBytes, CounterAt, PutCounter;
    var ds := ReadAt(o, q, |pre|, |cs|);
    if cs == [] {
      assert Sums(cs, ds) == cs;
    } else {
      var v := Add64(cs[0], ds[0]);
      var c := AllBytes(o, CounterWords(cs[1..]));
      CountersFirst(o, cs);
      Assoc(CounterBytes(o, cs[0]), c, post);
      CounterBehind(o, pre, cs[0], c + post);
      PutCounterBehind(o, pre, cs[0], v, c + post);
      Assoc(pre, CounterBytes(o, v), c + post);
      AddsCounters(o, pre + CounterBytes(o, v), cs[1..], post, q, Later(max, v), sumAt);
      var s := Sums(cs, ds);
      assert ds[1..] == ReadAt(o, q, |pre| + 8, |cs| - 1);
      assert s[0] == v && s[1..] == Sums(cs[1..], ds[1..]);
      CountersFirst(o, s);
      var sc := AllBytes(o, CounterWords(s[1..]));
      Assoc(CounterBytes(o, v), sc, post);
      Assoc(pre, CounterBytes(o, v), sc + post);
    }
  }

  // ----- records in bytes

  /** Records and the final zero word, as bytes. */
  function Encoded(o: Order, bytes: bool, rs: seq<Record>): seq<byte>
    requires RecordsOk(rs)
  {
    AllBytes(o, Encode(bytes, rs) + [0])
  }

  function PiecesOf(rs: seq<Record>, a: nat): seq<Piece>
    decreases rs
  {
    if rs == [] then []
    else [Piece(rs[0].tag, a, 4 * |rs[0].payload|)] + PiecesOf(rs[1..], a + 8 + 4 * |rs[0].payload|)
  }

  lemma {:induction false} OneWordBytes(o: Order, w: u32, ws: seq<u32>)
    ensures AllBytes(o, [w] + ws) == WordBytes(o, w) + AllBytes(o, ws)
  {
    assert ([w] + ws)[1..] == ws;
  }

  lemma {:induction false} EncodedFirst(o: Order, bytes: bool, rs: seq<Record>)
    requires RecordsOk(rs) && rs != []
    ensures 0 <= |rs[0].payload| * PerWord(bytes) < 0x1_0000_0000
    ensures Encoded(o, bytes, rs) == WordBytes(o, rs[0].tag) +
      (WordBytes(o, |rs[0].payload| * PerWord(bytes)) + (AllBytes(o, rs[0].payload) + Encoded(o, bytes, rs[1..])))
  {
    assert RecordOk(rs[0]);
    hide WordBytes, AllBytes, Encode;
    var r, n: u32 := rs[0], |rs[0].payload| * PerWord(bytes);
    var rest := Encode(bytes, rs[1..]) + [0];
    FirstEncoded(bytes, rs);
    assert Encode(bytes, rs) + [0] == [r.tag] + ([n] + (r.payload + rest));
    OneWordBytes(o, r.tag, [n] + (r.payload + rest));
    OneWordBytes(o, n, r.payload + rest);
    AllBytesAppend(o, r.payload, rest);
  }

  /** The first pass finds every record of a file. */
  lemma {:induction false} WalksFile(o: Order, bytes: bool, pre: seq<byte>, rs: seq<Record>)
    requires RecordsOk(rs)
    ensures Walk(o, Unit4(bytes), pre + Encoded(o, bytes, rs), |pre|) == Some(PiecesOf(rs, |pre|))
    decreases rs
  {
    hide WordBytes, AllBytes, WordAt, Encoded, Walk, LengthAt;
    var m := pre + Encoded(o, bytes, rs);
    if rs == [] {
      EncodedNone(o, bytes);
      assert m == pre + (WordBytes(o, 0) + []);
      WordBehind(o, pre, 0, []);
      WalkNone(o, Unit4(bytes), m, |pre|);
    } else {
      EncodedFirst(o, bytes, rs);
      var r, n: u32 := rs[0], |rs[0].payload| * PerWord(bytes);
      var t, l, p, rest := WordBytes(o, r.tag), WordBytes(o, n), AllBytes(o, r.payload), Encoded(o, bytes, rs[1..]);
      assert RecordOk(r);
      WordBehind(o, pre, r.tag, l + (p + rest));
      Assoc(pre, t, l + (p + rest));
      WordBehind(o, pre + t, n, p + rest);
      var pre1 := pre + t + l + p;
      assert m == pre1 + rest;
      WalksFile(o, bytes, pre1, rs[1..]);
      LengthOf(o, bytes, m, |pre|, |r.payload|);
      WalkCons(o, Unit4(bytes), m, |pre|);
    }
  }

  lemma {:induction false} WalkNone(o: Order, unit: nat, m: seq<byte>, a: nat)
    requires a + 4 <= |m| && WordAt(o, m, a) == 0
    ensures Walk(o, unit, m, a) == Some([])
  {
  }

  lemma {:induction false} WalkCons(o: Order, unit: nat, m: seq<byte>, a: nat)
    requires a + 8 <= |m| && WordAt(o, m, a) != 0 && a + 8 + LengthAt(o, unit, m, a) <= |m|
    ensures var rest := Walk(o, unit, m, a + 8 + LengthAt(o, unit, m, a));
      rest.Some? ==> Walk(o, unit, m, a) == Some([Piece(WordAt(o, m, a), a, LengthAt(o, unit, m, a))] + rest.value)
  {
    hide WordAt, LengthAt;
  }

  lemma {:induction false} LengthOf(o: Order, bytes: bool, m: seq<byte>, a: nat, n: nat)
    requires a + 8 <= |m| && WordAt(o, m, a + 4) == n * PerWord(bytes) && 4 * n < 0x1_0000_0000
    ensures LengthAt(o, Unit4(bytes), m, a) == 4 * n
  {
    hide WordAt;
  }

  lemma {:induction false} EncodedNone(o: Order, bytes: bool)
    ensures Encoded(o, bytes, []) == WordBytes(o, 0)
  {
    assert [] + [0] == [0] && [0][1..] == [];
  }

  // ----- functions

  /** The seven words before a function's counters. */
  function FnHead(bytes: bool, f: Fn): seq<u32>
    requires 8 * f.n < 0x1_0000_0000
  {
    [TAG_FUNCTION, 3 * PerWord(bytes), f.ident, f.lineno, f.cfg, TAG_ARCS, 2 * f.n * PerWord(bytes)]
  }

  lemma {:induction false} FnEncoded(o: Order, bytes: bool, u: Unit, c: seq<u64>, k: nat)
    requires UnitOk(u, c) && k < |u.funcs|
    ensures var f := u.funcs[k];
      Encoded(o, bytes, FnRecords(u, c, k)) ==
      AllBytes(o, FnHead(bytes, f)) + (AllBytes(o, CounterWords(c[f.base..f.base + f.n])) +
        Encoded(o, bytes, FnRecords(u, c, k + 1)))
  {
    hide AllBytes, Encode, FnRecords, CounterWords, PerWord;
    var f := u.funcs[k];
    var cw, rest := CounterWords(c[f.base..f.base + f.n]), Encode(bytes, FnRecords(u, c, k + 1)) + [0];
    FnFirst(bytes, u, c, k);
    assert Encode(bytes, FnRecords(u, c, k)) + [0] == FnHead(bytes, f) + (cw + rest);
    AllBytesAppend(o, FnHead(bytes, f), cw + rest);
    AllBytesAppend(o, cw, rest);
  }

  lemma {:induction false} FnPieces(u: Unit, c: seq<u64>, k: nat, a: nat)
    requires UnitOk(u, c) && k < |u.funcs|
    ensures var n := u.funcs[k].n;
      PiecesOf(FnRecords(u, c, k), a) ==
      [Piece(TAG_FUNCTION, a, 12), Piece(TAG_ARCS, a + 20, 8 * n)] + PiecesOf(FnRecords(u, c, k + 1), a + 28 + 8 * n)
  {
    hide CounterWords;
    var rs := FnRecords(u, c, k);
    assert rs[1..][1..] == FnRecords(u, c, k + 1);
    assert PiecesOf(rs, a) == [Piece(TAG_FUNCTION, a, 12)] + PiecesOf(rs[1..], a + 20);
  }

  /** The largest counter of the functions from the `k`-th on, and `max`. */
  function FnLargest(u: Unit, c: seq<u64>, k: nat, max: u64): u64
    requires UnitOk(u, c) && k <= |u.funcs|
    decreases |u.funcs| - k
  {
    if k == |u.funcs| then max else
    var f := u.funcs[k];
    FnLargest(u, c, k + 1, LargestFrom(max, c[f.base..f.base + f.n]))
  }

  lemma {:induction false} InsideCons(p1: Piece, p2: Piece, ps: seq<Piece>, n: nat)
    requires Inside([p1, p2] + ps, n)
    ensures Inside(ps, n) && p1.at + 8 + p1.len <= n && p2.at + 8 + p2.len <= n
  {
    var all := [p1, p2] + ps;
    assert all[0] == p1 && all[1] == p2;
    forall k | 0 <= k < |ps|
      ensures ps[k].at + 8 + ps[k].len <= n
    {
      assert all[k + 2] == ps[k];
    }
  }

  lemma {:induction false} MergeTwo(o: Order, a: Acc, q: seq<byte>, p1: Piece, p2: Piece, ps: seq<Piece>)
    requires Inside([p1, p2] + ps, |a.m|) && Inside([p1, p2] + ps, |q|)
    requires p1.tag == TAG_FUNCTION && p2.tag == TAG_ARCS
    ensures Inside(ps, |a.m|) && Inside(ps, |q|) && p2.at + 8 + p2.len <= |a.m| && p2.at + 8 + p2.len <= |q|
    ensures MergePieces(o, a, q, [p1, p2] + ps) ==
      MergePieces(o, AddCounters(o, a, q, p2.at + 8, p2.at + 8 + p2.len), q, ps)
  {
    hide AddCounters;
    InsideCons(p1, p2, ps, |a.m|);
    InsideCons(p1, p2, ps, |q|);
    var all := [p1, p2] + ps;
    assert all[1..] == [p2] + ps && ([p2] + ps)[1..] == ps;
    assert MergePiece(o, a, q, p1) == a;
  }

  /** A function's bytes up to the next one, with counters `x`. */
  function FnPart(o: Order, bytes: bool, f: Fn, x: seq<u64>): (b: seq<byte>)
    requires |x| == f.n && 8 * f.n < 0x1_0000_0000
    ensures |b| == 28 + 8 * f.n
  {
    AllBytes(o, FnHead(bytes, f)) + AllBytes(o, CounterWords(x))
  }

  lemma {:induction false} PartFirst(o: Order, bytes: bool, u: Unit, c: seq<u64>, k: nat, pre: seq<byte>)
    requires UnitOk(u, c) && k < |u.funcs|
    ensures var f := u.funcs[k];
      var x, rest := c[f.base..f.base + f.n], Encoded(o, bytes, FnRecords(u, c, k + 1));
      pre + Encoded(o, bytes, FnRecords(u, c, k)) == pre + FnPart(o, bytes, f, x) + rest
  {
    hide AllBytes, Encoded, FnRecords, CounterWords, FnHead;
    var f := u.funcs[k];
    var h, x, rest := AllBytes(o, FnHead(bytes, f)), AllBytes(o, CounterWords(c[f.base..f.base + f.n])),
      Encoded(o, bytes, FnRecords(u, c, k + 1));
    FnEncoded(o, bytes, u, c, k);
    Assoc(pre, h, x + rest);
    Assoc(pre + h, x, rest);
    Assoc(pre, h, x);
  }

  lemma {:induction false} PartSplits(o: Order, bytes: bool, f: Fn, x: seq<u64>, pre: seq<byte>, rest: seq<byte>)
    requires |x| == f.n && 8 * f.n < 0x1_0000_0000
    ensures var h := AllBytes(o, FnHead(bytes, f));
      pre + FnPart(o, bytes, f, x) + rest == (pre + h) + (AllBytes(o, CounterWords(x)) + rest)
  {
    hide AllBytes, CounterWords, FnHead;
    var h, b := AllBytes(o, FnHead(bytes, f)), AllBytes(o, CounterWords(x));
    Assoc(pre + h, b, rest);
    Assoc(pre, h, b);
  }

  /** One function's records merged, whatever the other records are and whatever the other file
      has. */
  lemma {:induction false} MergesPart(o: Order, bytes: bool, f: Fn, x: seq<u64>, pre: seq<byte>, ec: seq<byte>,
                                      q: seq<byte>, ps: seq<Piece>, max: u64, sumAt: nat)
    requires |x| == f.n && 8 * f.n < 0x1_0000_0000 && |pre| + 28 + 8 * f.n <= |q|
    requires var all := [Piece(TAG_FUNCTION, |pre|, 12), Piece(TAG_ARCS, |pre| + 20, 8 * f.n)] + ps;
      Inside(all, |pre| + 28 + 8 * f.n + |ec|) && Inside(all, |q|)
    ensures Inside(ps, |pre| + 28 + 8 * f.n + |ec|) && Inside(ps, |q|)
    ensures var all := [Piece(TAG_FUNCTION, |pre|, 12), Piece(TAG_ARCS, |pre| + 20, 8 * f.n)] + ps;
      var m, s := pre + FnPart(o, bytes, f, x) + ec, Sums(x, ReadAt(o, q, |pre| + 28, f.n));
      MergePieces(o, Acc(m, max, sumAt), q, all) ==
      MergePieces(o, Acc(pre + FnPart(o, bytes, f, s) + ec, LargestFrom(max, s), sumAt), q, ps)
  {
    hide AllBytes, CounterWords, AddCounters, FnHead, MergePieces, Inside, FnPart, Sums, LargestFrom, ReadAt;
    var h, s := AllBytes(o, FnHead(bytes, f)), Sums(x, ReadAt(o, q, |pre| + 28, f.n));
    var m := pre + FnPart(o, bytes, f, x) + ec;
    MergeTwo(o, Acc(m, max, sumAt), q, Piece(TAG_FUNCTION, |pre|, 12), Piece(TAG_ARCS, |pre| + 20, 8 * f.n), ps);
    HeadLength(o, bytes, f);
    PartSplits(o, bytes, f, x, pre, ec);
    PartSplits(o, bytes, f, s, pre, ec);
    AddsCounters(o, pre + h, x, ec, q, max, sumAt);
  }

  /** `d` holds, in the unit's places, what a merge reads for the functions from the `k`-th on,
      whose records start at `a`. */
  predicate ReadsAs(o: Order, u: Unit, d: seq<u64>, q: seq<byte>, k: nat, a: nat)
    requires UnitOk(u, d) && k <= |u.funcs|
    decreases |u.funcs| - k
  {
    k == |u.funcs| ||
    var f := u.funcs[k];
    && a + 28 + 8 * f.n <= |q| && d[f.base..f.base + f.n] == ReadAt(o, q, a + 28, f.n)
    && ReadsAs(o, u, d, q, k + 1, a + 28 + 8 * f.n)
  }

  /** The second pass over the functions of a file, against any bytes with the same records. */
  lemma {:induction false} MergesFunctions(o: Order, bytes: bool, u: Unit, c: seq<u64>, d: seq<u64>, k: nat,
                                           pre: seq<byte>, q: seq<byte>, max: u64, sumAt: nat)
    requires UnitOk(u, c) && |c| == |d| && k <= |u.funcs|
    requires UnitOk(u, d) && ReadsAs(o, u, d, q, k, |pre|) && Inside(PiecesOf(FnRecords(u, c, k), |pre|), |q|)
    ensures UnitOk(u, Sums(c, d))
    ensures var m, ps := pre + Encoded(o, bytes, FnRecords(u, c, k)), PiecesOf(FnRecords(u, c, k), |pre|);
      && Inside(ps, |m|)
      && MergePieces(o, Acc(m, max, sumAt), q, ps) ==
         Acc(pre + Encoded(o, bytes, FnRecords(u, Sums(c, d), k)), FnLargest(u, Sums(c, d), k, max), sumAt)
    decreases |u.funcs| - k
  {
    hide AllBytes, Encoded, FnRecords, PiecesOf, FnPart, MergePieces, Inside, FnLargest, Sums, LargestFrom, ReadAt;
    if k == |u.funcs| {
      MergesNone(o, bytes, u, c, d, pre, q, max, sumAt);
    } else {
      var f := u.funcs[k];
      var x, y := c[f.base..f.base + f.n], d[f.base..f.base + f.n];
      var ec := Encoded(o, bytes, FnRecords(u, c, k + 1));
      PiecesInside(o, bytes, pre, FnRecords(u, c, k));
      PartFirst(o, bytes, u, c, k, pre);
      FnPieces(u, c, k, |pre|);
      var ps := PiecesOf(FnRecords(u, c, k + 1), |pre| + 28 + 8 * f.n);
      MergesPart(o, bytes, f, x, pre, ec, q, ps, max, sumAt);
      MergesFunctions(o, bytes, u, c, d, k + 1, pre + FnPart(o, bytes, f, Sums(x, y)), q,
                      LargestFrom(max, Sums(x, y)), sumAt);
      SumsSlice(c, d, f.base, f.base + f.n);
      PartFirst(o, bytes, u, Sums(c, d), k, pre);
      FnLargestFirst(u, Sums(c, d), k, max);
    }
  }

  lemma {:induction false} SumsSlice(c: seq<u64>, d: seq<u64>, lo: nat, hi: nat)
    requires |c| == |d| && lo <= hi <= |c|
    ensures Sums(c, d)[lo..hi] == Sums(c[lo..hi], d[lo..hi])
  {
  }

  lemma {:induction false} FnLargestFirst(u: Unit, c: seq<u64>, k: nat, max: u64)
    requires UnitOk(u, c) && k < |u.funcs|
    ensures var f := u.funcs[k];
      FnLargest(u, c, k, max) == FnLargest(u, c, k + 1, LargestFrom(max, c[f.base..f.base + f.n]))
  {
  }

  lemma {:induction false} MergesNone(o: Order, bytes: bool, u: Unit, c: seq<u64>, d: seq<u64>,
                                      pre: seq<byte>, q: seq<byte>, max: u64, sumAt: nat)
    requires UnitOk(u, c) && |c| == |d| && UnitOk(u, d)
    ensures UnitOk(u, Sums(c, d))
    ensures var n := |u.funcs|;
      var m, ps := pre + Encoded(o, bytes, FnRecords(u, c, n)), PiecesOf(FnRecords(u, c, n), |pre|);
      && Inside(ps, |m|) && Inside(ps, |q|)
      && MergePieces(o, Acc(m, max, sumAt), q, ps) ==
         Acc(pre + Encoded(o, bytes, FnRecords(u, Sums(c, d), n)), FnLargest(u, Sums(c, d), n, max), sumAt)
  {
    hide Encoded, FnRecords, PiecesOf;
    NoFns(u, c);
    NoFns(u, Sums(c, d));
  }

  lemma {:induction false} HeadLength(o: Order, bytes: bool, f: Fn)
    requires 8 * f.n < 0x1_0000_0000
    ensures |AllBytes(o, FnHead(bytes, f))| == 28
  {
    hide AllBytes;
  }

  lemma {:induction false} NoFns(u: Unit, c: seq<u64>)
    requires UnitOk(u, c)
    ensures FnRecords(u, c, |u.funcs|) == [] && PiecesOf([], 0) == []
    ensures forall a: nat :: PiecesOf([], a) == []
  {
  }

  lemma {:induction false} PiecesInside(o: Order, bytes: bool, pre: seq<byte>, rs: seq<Record>)
    requires RecordsOk(rs)
    ensures Inside(PiecesOf(rs, |pre|), |pre + Encoded(o, bytes, rs)|)
  {
    hide Encoded, PiecesOf, Walk;
    WalksFile(o, bytes, pre, rs);
    WalkInside(o, Unit4(bytes), pre + Encoded(o, bytes, rs), |pre|);
  }

  // ----- the same functions

  predicate SameNames(f: Fn, g: Fn) { f.ident == g.ident && f.lineno == g.lineno && f.cfg == g.cfg }

  /** The units have the same functions from the `k`-th on, wherever their counters are. */
  predicate SameFns(u: Unit, v: Unit, k: nat) {
    && |u.funcs| == |v.funcs|
    && forall i :: k <= i < |u.funcs| ==> SameNames(u.funcs[i], v.funcs[i]) && u.funcs[i].n == v.funcs[i].n
  }

  lemma {:induction false} SameFnsFirst(u: Unit, v: Unit, k: nat)
    requires k < |u.funcs| && k < |v.funcs|
    ensures SameFns(u, v, k) <==>
      SameNames(u.funcs[k], v.funcs[k]) && u.funcs[k].n == v.funcs[k].n && SameFns(u, v, k + 1)
  {
  }

  lemma {:induction false} BytesInjective(o: Order, a: seq<u32>, b: seq<u32>)
    requires AllBytes(o, a) == AllBytes(o, b)
    ensures a == b
  {
    hide AllBytes;
    WordsBack(o, a);
    WordsBack(o, b);
  }

  lemma {:induction false} MiddleBytes(o: Order, a: seq<u32>, b: seq<u32>, c: seq<u32>)
    ensures 4 * |a| + 4 * |b| <= |AllBytes(o, a + b + c)|
    ensures AllBytes(o, a + b + c)[4 * |a|..4 * |a| + 4 * |b|] == AllBytes(o, b)
  {
    hide AllBytes;
    AllBytesAppend(o, a + b, c);
    AllBytesAppend(o, a, b);
    var x, y, z := AllBytes(o, a), AllBytes(o, b), AllBytes(o, c);
    assert (x + y + z)[|x|..|x| + |y|] == y;
  }

  /** The function record's payload names the function. */
  lemma {:induction false} HeadNames(o: Order, bytes: bool, f: Fn)
    requires 8 * f.n < 0x1_0000_0000
    ensures |AllBytes(o, FnHead(bytes, f))| == 28
    ensures AllBytes(o, FnHead(bytes, f))[8..20] == AllBytes(o, [f.ident, f.lineno, f.cfg])
  {
    hide AllBytes;
    var a, b, c: seq<u32> := [TAG_FUNCTION, 3 * PerWord(bytes)], [f.ident, f.lineno, f.cfg],
      [TAG_ARCS, 2 * f.n * PerWord(bytes)];
    assert FnHead(bytes, f) == a + b + c;
    MiddleBytes(o, a, b, c);
  }

  /** The record's payload in a file tells two functions apart. */
  lemma {:induction false} NamesApart(o: Order, bytes: bool, f: Fn, g: Fn, pre: seq<byte>, pre': seq<byte>,
                                      x: seq<byte>, y: seq<byte>)
    requires 8 * f.n < 0x1_0000_0000 && 8 * g.n < 0x1_0000_0000 && |pre| == |pre'|
    ensures var m, q := (pre + AllBytes(o, FnHead(bytes, f))) + x, (pre' + AllBytes(o, FnHead(bytes, g))) + y;
      && |pre| + 28 <= |m| && |pre| + 28 <= |q|
      && (m[|pre| + 8..|pre| + 20] == q[|pre| + 8..|pre| + 20] <==> SameNames(f, g))
  {
    hide AllBytes, FnHead;
    HeadNames(o, bytes, f);
    HeadNames(o, bytes, g);
    var a, b := AllBytes(o, FnHead(bytes, f)), AllBytes(o, FnHead(bytes, g));
    assert ((pre + a) + x)[|pre| + 8..|pre| + 20] == a[8..20];
    assert ((pre' + b) + y)[|pre| + 8..|pre| + 20] == b[8..20];
    if a[8..20] == b[8..20] {
      BytesInjective(o, [f.ident, f.lineno, f.cfg], [g.ident, g.lineno, g.cfg]);
      assert [f.ident, f.lineno, f.cfg][1] == [g.ident, g.lineno, g.cfg][1];
    }
  }

  /** The records agree exactly when the functions do. */
  ghost predicate RecordsAgree(o: Order, bytes: bool, u: Unit, c: seq<u64>, v: Unit, d: seq<u64>, k: nat,
                               pre: seq<byte>, pre': seq<byte>)
    requires UnitOk(u, c) && UnitOk(v, d) && k <= |u.funcs| && k <= |v.funcs|
  {
    var ps := PiecesOf(FnRecords(u, c, k), |pre|);
    && PiecesOf(FnRecords(v, d, k), |pre|) == ps
    && SameFunctions(pre + Encoded(o, bytes, FnRecords(u, c, k)), pre' + Encoded(o, bytes, FnRecords(v, d, k)), ps)
  }

  /** With functions of as many counters, the first one's records agree exactly when they have
      the same names, and the others' are compared further on. */
  lemma {:induction false} FirstAgrees(o: Order, bytes: bool, u: Unit, c: seq<u64>, v: Unit, d: seq<u64>, k: nat,
                                       pre: seq<byte>, pre': seq<byte>)
    requires UnitOk(u, c) && UnitOk(v, d) && k < |u.funcs| && k < |v.funcs| && |pre| == |pre'|
    requires u.funcs[k].n == v.funcs[k].n
    ensures var f, g := u.funcs[k], v.funcs[k];
      var x, y := c[f.base..f.base + f.n], d[g.base..g.base + g.n];
      RecordsAgree(o, bytes, u, c, v, d, k, pre, pre') <==>
      SameNames(f, g) &&
      RecordsAgree(o, bytes, u, c, v, d, k + 1, pre + FnPart(o, bytes, f, x), pre' + FnPart(o, bytes, g, y))
  {
    hide AllBytes, Encoded, FnRecords, PiecesOf, FnPart, SameFunctions, CounterWords, FnHead;
    var f, g := u.funcs[k], v.funcs[k];
    var x, y, n := c[f.base..f.base + f.n], d[g.base..g.base + g.n], |pre| + 28 + 8 * f.n;
    var m, q := pre + Encoded(o, bytes, FnRecords(u, c, k)), pre' + Encoded(o, bytes, FnRecords(v, d, k));
    var ec, ed := Encoded(o, bytes, FnRecords(u, c, k + 1)), Encoded(o, bytes, FnRecords(v, d, k + 1));
    PartFirst(o, bytes, u, c, k, pre);
    PartFirst(o, bytes, v, d, k, pre');
    PartSplits(o, bytes, f, x, pre, ec);
    PartSplits(o, bytes, g, y, pre', ed);
    NamesApart(o, bytes, f, g, pre, pre', AllBytes(o, CounterWords(x)) + ec, AllBytes(o, CounterWords(y)) + ed);
    FnPieces(u, c, k, |pre|);
    FnPieces(v, d, k, |pre|);
    var a, b := Piece(TAG_FUNCTION, |pre|, 12), Piece(TAG_ARCS, |pre| + 20, 8 * f.n);
    var ps, qs := PiecesOf(FnRecords(u, c, k + 1), n), PiecesOf(FnRecords(v, d, k + 1), n);
    SameAfter([a, b], ps, qs);
    ConsFunctions(m, q, b, ps);
    ConsFunctions(m, q, a, [b] + ps);
    assert [a, b] + ps == [a] + ([b] + ps);
  }

  lemma {:induction false} SameAfter<T>(a: seq<T>, x: seq<T>, y: seq<T>)
    ensures a + x == a + y <==> x == y
  {
    assert (a + x)[|a|..] == x && (a + y)[|a|..] == y;
  }

  lemma {:induction false} RecordsIff(o: Order, bytes: bool, u: Unit, c: seq<u64>, v: Unit, d: seq<u64>, k: nat,
                                      pre: seq<byte>, pre': seq<byte>)
    requires UnitOk(u, c) && UnitOk(v, d) && k <= |u.funcs| && k <= |v.funcs| && |pre| == |pre'|
    ensures RecordsAgree(o, bytes, u, c, v, d, k, pre, pre') <==> SameFns(u, v, k)
    decreases |u.funcs| - k
  {
    hide AllBytes, Encoded, FnRecords, PiecesOf, FnPart, SameFunctions, CounterWords, FnHead, RecordsAgree, SameFns;
    if k == |u.funcs| || k == |v.funcs| {
      RecordsEnd(o, bytes, u, c, v, d, k, pre, pre');
    } else {
      var f, g := u.funcs[k], v.funcs[k];
      SameFnsFirst(u, v, k);
      if f.n == g.n {
        FirstAgrees(o, bytes, u, c, v, d, k, pre, pre');
        RecordsIff(o, bytes, u, c, v, d, k + 1, pre + FnPart(o, bytes, f, c[f.base..f.base + f.n]),
                   pre' + FnPart(o, bytes, g, d[g.base..g.base + g.n]));
      } else {
        SizesApart(o, bytes, u, c, v, d, k, pre, pre');
      }
    }
  }

  lemma {:induction false} RecordsEnd(o: Order, bytes: bool, u: Unit, c: seq<u64>, v: Unit, d: seq<u64>, k: nat,
                                      pre: seq<byte>, pre': seq<byte>)
    requires UnitOk(u, c) && UnitOk(v, d) && k <= |u.funcs| && k <= |v.funcs| && (k == |u.funcs| || k == |v.funcs|)
    ensures RecordsAgree(o, bytes, u, c, v, d, k, pre, pre') <==> SameFns(u, v, k)
  {
    hide AllBytes, Encoded, FnRecords, PiecesOf, SameFunctions;
    NoFns(u, c);
    NoFns(v, d);
    if k < |u.funcs| {
      FnPieces(u, c, k, |pre|);
    } else if k < |v.funcs| {
      FnPieces(v, d, k, |pre|);
    } else {
      NoFunctions(pre + Encoded(o, bytes, FnRecords(u, c, k)), pre' + Encoded(o, bytes, FnRecords(v, d, k)));
    }
  }

  lemma {:induction false} SizesApart(o: Order, bytes: bool, u: Unit, c: seq<u64>, v: Unit, d: seq<u64>, k: nat,
                                      pre: seq<byte>, pre': seq<byte>)
    requires UnitOk(u, c) && UnitOk(v, d) && k < |u.funcs| && k < |v.funcs| && u.funcs[k].n != v.funcs[k].n
    ensures !RecordsAgree(o, bytes, u, c, v, d, k, pre, pre')
  {
    hide AllBytes, Encoded, FnRecords, PiecesOf, SameFunctions;
    FnPieces(u, c, k, |pre|);
    FnPieces(v, d, k, |pre|);
    assert PiecesOf(FnRecords(u, c, k), |pre|)[1] != PiecesOf(FnRecords(v, d, k), |pre|)[1];
  }

  // ----- the whole file

  function SummaryBytes(o: Order, bytes: bool, runs: u32, max: u32): (b: seq<byte>)
    ensures |b| == 16
  {
    WordBytes(o, TAG_SUMMARY) + WordBytes(o, 2 * PerWord(bytes)) + WordBytes(o, runs) + WordBytes(o, max)
  }

  function HeaderBytes(o: Order, u: Unit): seq<byte> { AllBytes(o, Header(u.version, u.stamp, u.checksum)) }

  /** A file with any summary. */
  function FileBytes(o: Order, u: Unit, c: seq<u64>, runs: u32, max: u32): seq<byte>
    requires UnitOk(u, c)
  {
    HeaderBytes(o, u) + SummaryBytes(o, BytesFormat(u.version), runs, max) +
      Encoded(o, BytesFormat(u.version), FnRecords(u, c, 0))
  }

  lemma {:induction false} SummaryEncoded(o: Order, bytes: bool, runs: u32, max: u32, rs: seq<Record>)
    requires RecordsOk(rs)
    ensures RecordsOk([Record(TAG_SUMMARY, [runs, max])] + rs)
    ensures Encoded(o, bytes, [Record(TAG_SUMMARY, [runs, max])] + rs) ==
      SummaryBytes(o, bytes, runs, max) + Encoded(o, bytes, rs)
  {
    hide WordBytes, AllBytes, Encoded;
    var r := Record(TAG_SUMMARY, [runs, max]);
    assert ([r] + rs)[1..] == rs;
    EncodedFirst(o, bytes, [r] + rs);
    OneWordBytes(o, runs, [max]);
    OneWordBytes(o, max, []);
    assert [runs] + [max] == [runs, max] && [max] + [] == [max];
    NoWordBytes(o);
  }

  lemma {:induction false} NoWordBytes(o: Order)
    ensures AllBytes(o, []) == []
  {
  }

  /** What emit writes is such a file. */
  lemma {:induction false} ImageIsFile(o: Order, u: Unit, c: seq<u64>, runs: u32)
    requires UnitOk(u, c)
    ensures Image(o, u, c, runs) == FileBytes(o, u, c, runs, Clamped(Largest(c)))
  {
    hide AllBytes, Encode, FnRecords, Largest, SummaryBytes, WordBytes;
    var bytes := BytesFormat(u.version);
    var rs := [Summary(runs, Largest(c))] + FnRecords(u, c, 0);
    SummaryEncoded(o, bytes, runs, Clamped(Largest(c)), FnRecords(u, c, 0));
    Assoc(Header(u.version, u.stamp, u.checksum), Encode(bytes, rs), [0]);
    AllBytesAppend(o, Header(u.version, u.stamp, u.checksum), Encode(bytes, rs) + [0]);
    Assoc(HeaderBytes(o, u), SummaryBytes(o, bytes, runs, Clamped(Largest(c))), Encoded(o, bytes, FnRecords(u, c, 0)));
  }

  lemma {:induction false} HeaderReads(o: Order, u: Unit, rest: seq<byte>)
    requires |rest| >= 4
    ensures |HeaderBytes(o, u)| == HeaderSize(BytesFormat(u.version))
    ensures OrderOf(HeaderBytes(o, u) + rest) == Some(o)
    ensures WordAt(o, HeaderBytes(o, u) + rest, 4) == u.version
  {
    hide WordBytes, WordAt, AllBytes;
    var h := Header(u.version, u.stamp, u.checksum);
    var t := h[2..];
    assert h == [MAGIC] + ([u.version] + t);
    OneWordBytes(o, MAGIC, [u.version] + t);
    OneWordBytes(o, u.version, t);
    var a, b, c := WordBytes(o, MAGIC), WordBytes(o, u.version), AllBytes(o, t);
    assert HeaderBytes(o, u) + rest == a + (b + (c + rest)) == [] + (a + (b + (c + rest)));
    WordBehind(o, a, u.version, c + rest);
    OrderBehind(o, b + (c + rest));
  }

  lemma {:induction false} OrderBehind(o: Order, rest: seq<byte>)
    requires |rest| >= 12
    ensures OrderOf(WordBytes(o, MAGIC) + rest) == Some(o)
  {
    var bs := WordBytes(o, MAGIC) + rest;
    WordBack(o, MAGIC, rest);
    if o.Big? {
      MagicBytes();
      assert bs[0..4] == [0x67, 0x63, 0x64, 0x61];
      MagicReversed();
    }
  }

  // ----- two files of one program

  /** The records of such a file, as the walk finds them. */
  function FilePieces(u: Unit, c: seq<u64>): seq<Piece>
    requires UnitOk(u, c)
  {
    var h := HeaderSize(BytesFormat(u.version));
    [Piece(TAG_SUMMARY, h, 8)] + PiecesOf(FnRecords(u, c, 0), h + 16)
  }

  lemma {:induction false} WalksWhole(o: Order, u: Unit, c: seq<u64>, runs: u32, max: u32)
    requires UnitOk(u, c)
    ensures var bytes, m := BytesFormat(u.version), FileBytes(o, u, c, runs, max);
      && OrderOf(m) == Some(o) && WordAt(o, m, 4) == u.version && |HeaderBytes(o, u)| == HeaderSize(bytes)
      && Walk(o, Unit4(bytes), m, HeaderSize(bytes)) == Some(FilePieces(u, c))
      && Inside(FilePieces(u, c), |m|)
  {
    hide WordBytes, AllBytes, Encoded, FnRecords, Walk, OrderOf, WordAt, BytesFormat;
    var bytes, rs := BytesFormat(u.version), FnRecords(u, c, 0);
    var h, sm, e := HeaderBytes(o, u), SummaryBytes(o, bytes, runs, max), Encoded(o, bytes, rs);
    HeaderReads(o, u, sm + e);
    Assoc(h, sm, e);
    SummaryEncoded(o, bytes, runs, max, rs);
    var all := [Record(TAG_SUMMARY, [runs, max])] + rs;
    assert all[1..] == rs;
    WalksFile(o, bytes, h, all);
    WalkInside(o, Unit4(bytes), FileBytes(o, u, c, runs, max), HeaderSize(bytes));
  }

  /** The same program: what the header and the function records of its files say. */
  predicate SameProgram(u: Unit, v: Unit) {
    && u.version == v.version && u.stamp == v.stamp && (BytesFormat(u.version) ==> u.checksum == v.checksum)
    && SameFns(u, v, 0)
  }

  /** The header of two files agrees exactly when version, stamp and, where there is one,
      checksum do. */
  lemma {:induction false} HeadersIff(o: Order, u: Unit, v: Unit, rest: seq<byte>, rest': seq<byte>)
    requires |rest| >= 4 && |rest'| >= 4
    ensures var m, q, bytes := HeaderBytes(o, u) + rest, HeaderBytes(o, v) + rest', BytesFormat(u.version);
      && |m| >= 16 && |q| >= 16
      && (m[4..12] == q[4..12] <==> u.version == v.version && u.stamp == v.stamp)
      && (u.version == v.version && bytes ==> (m[12..16] == q[12..16] <==> u.checksum == v.checksum))
  {
    hide AllBytes, BytesFormat;
    HeaderParts(o, u, rest);
    HeaderParts(o, v, rest');
    var a, b: seq<u32> := [u.version, u.stamp], [v.version, v.stamp];
    if AllBytes(o, a) == AllBytes(o, b) {
      BytesInjective(o, a, b);
      assert a[0] == b[0] && a[1] == b[1];
    }
    if AllBytes(o, [u.checksum]) == AllBytes(o, [v.checksum]) {
      BytesInjective(o, [u.checksum], [v.checksum]);
      assert [u.checksum][0] == [v.checksum][0];
    }
  }

  lemma {:induction false} HeaderParts(o: Order, u: Unit, rest: seq<byte>)
    requires |rest| >= 4
    ensures var m := HeaderBytes(o, u) + rest;
      && |m| >= 16 && m[4..12] == AllBytes(o, [u.version, u.stamp])
      && (BytesFormat(u.version) ==> m[12..16] == AllBytes(o, [u.checksum]))
  {
    hide AllBytes, BytesFormat;
    var hd := Header(u.version, u.stamp, u.checksum);
    var h: seq<byte>, tail := HeaderBytes(o, u), hd[3..];
    assert hd == [MAGIC] + [u.version, u.stamp] + tail;
    MiddleBytes(o, [MAGIC], [u.version, u.stamp], tail);
    assert (h + rest)[4..12] == h[4..12];
    if BytesFormat(u.version) {
      assert hd == [MAGIC, u.version, u.stamp] + [u.checksum] + [];
      MiddleBytes(o, [MAGIC, u.version, u.stamp], [u.checksum], []);
      assert (h + rest)[12..16] == h[12..16];
    }
  }

  /** Two files are merged if and only if they are of one byte order and of one program,
      whatever the counters, the runs and where the counters are. */
  lemma {:induction false} FilesMergeIff(o: Order, u: Unit, c: seq<u64>, r: u32, x: u32, o': Order, v: Unit,
                                         d: seq<u64>, r': u32, x': u32)
    requires UnitOk(u, c) && UnitOk(v, d)
    ensures Mergeable(FileBytes(o, u, c, r, x), FileBytes(o', v, d, r', x')) <==> o == o' && SameProgram(u, v)
  {
    hide WordBytes, AllBytes, Encoded, FnRecords, Walk, OrderOf, WordAt, BytesFormat, PiecesOf, SummaryBytes,
      SameFunctions, HeaderBytes, SameFns, RecordsAgree;
    var m, q := FileBytes(o, u, c, r, x), FileBytes(o', v, d, r', x');
    WalksWhole(o, u, c, r, x);
    WalksWhole(o', v, d, r', x');
    if o == o' {
      var bytes, bytes' := BytesFormat(u.version), BytesFormat(v.version);
      var sm, sm' := SummaryBytes(o, bytes, r, x), SummaryBytes(o, bytes', r', x');
      Assoc(HeaderBytes(o, u), sm, Encoded(o, bytes, FnRecords(u, c, 0)));
      Assoc(HeaderBytes(o, v), sm', Encoded(o, bytes', FnRecords(v, d, 0)));
      HeadersIff(o, u, v, sm + Encoded(o, bytes, FnRecords(u, c, 0)), sm' + Encoded(o, bytes', FnRecords(v, d, 0)));
      if u.version == v.version {
        WalksIff(o, u, c, r, x, v, d, r', x');
      }
    }
  }

  /** The first pass over two files with one version. */
  lemma {:induction false} WalksIff(o: Order, u: Unit, c: seq<u64>, r: u32, x: u32, v: Unit, d: seq<u64>, r': u32,
                                    x': u32)
    requires UnitOk(u, c) && UnitOk(v, d) && u.version == v.version
    ensures var m, q := FileBytes(o, u, c, r, x), FileBytes(o, v, d, r', x');
      FilePieces(u, c) == FilePieces(v, d) && SameFunctions(m, q, FilePieces(u, c)) <==> SameFns(u, v, 0)
  {
    hide WordBytes, AllBytes, Encoded, FnRecords, Walk, OrderOf, WordAt, BytesFormat, PiecesOf, SummaryBytes,
      SameFunctions, HeaderBytes, SameFns;
    var bytes, m, q := BytesFormat(u.version), FileBytes(o, u, c, r, x), FileBytes(o, v, d, r', x');
    WalksWhole(o, u, c, r, x);
    WalksWhole(o, v, d, r', x');
    var hs := HeaderSize(bytes);
    RecordsIff(o, bytes, u, c, v, d, 0, HeaderBytes(o, u) + SummaryBytes(o, bytes, r, x),
      HeaderBytes(o, v) + SummaryBytes(o, bytes, r', x'));
    var p, ps, qs := Piece(TAG_SUMMARY, hs, 8), PiecesOf(FnRecords(u, c, 0), hs + 16),
      PiecesOf(FnRecords(v, d, 0), hs + 16);
    SameAfter([p], ps, qs);
    ConsFunctions(m, q, p, ps);
  }

  /** Images of two programs, or of one, are merged if and only if it is one. */
  lemma {:induction false} MergeableIffSameProgram(o: Order, u: Unit, c: seq<u64>, r: u32, o': Order, v: Unit,
                                                   d: seq<u64>, r': u32)
    requires UnitOk(u, c) && UnitOk(v, d)
    ensures Mergeable(Image(o, u, c, r), Image(o', v, d, r')) <==> o == o' && SameProgram(u, v)
  {
    hide Image, FileBytes, Mergeable, SameProgram;
    ImageIsFile(o, u, c, r);
    ImageIsFile(o', v, d, r');
    FilesMergeIff(o, u, c, r, Clamped(Largest(c)), o', v, d, r', Clamped(Largest(d)));
  }

  lemma {:induction false} MergeFirst(o: Order, a: Acc, q: seq<byte>, p: Piece, ps: seq<Piece>)
    requires Inside([p] + ps, |a.m|) && Inside([p] + ps, |q|)
    ensures p.at + 8 + p.len <= |a.m| && p.at + 8 + p.len <= |q| && Inside(ps, |a.m|) && Inside(ps, |q|)
    ensures MergePieces(o, a, q, [p] + ps) == MergePieces(o, MergePiece(o, a, q, p), q, ps)
  {
    hide MergePiece;
    var all := [p] + ps;
    assert all[0] == p && all[1..] == ps;
    InsideRest(all, |a.m|);
    InsideRest(all, |q|);
  }

  function AddRuns(a: u32, b: u32): u32 {
    var x: int, y: int := a, b;
    (x + y) % 0x1_0000_0000
  }

  /** The summary record's own step. */
  lemma {:induction false} MergesSummary(o: Order, bytes: bool, h: seq<byte>, r: u32, x: u32, e: seq<byte>,
                                         q: seq<byte>)
    requires |h| + 16 <= |q|
    ensures var m := h + SummaryBytes(o, bytes, r, x) + e;
      MergePiece(o, Acc(m, 0, 0), q, Piece(TAG_SUMMARY, |h|, 8)) ==
      Acc(h + SummaryBytes(o, bytes, AddRuns(r, WordAt(o, q, |h| + 8)), x) + e, 0, |h| + 8)
  {
    hide WordBytes, WordAt, PutAt;
    var t, l, runs := WordBytes(o, TAG_SUMMARY), WordBytes(o, 2 * PerWord(bytes)), AddRuns(r, WordAt(o, q, |h| + 8));
    SummaryBehind(o, bytes, h, r, x, e);
    SummaryBehind(o, bytes, h, runs, x, e);
    WordBehind(o, h + t + l, r, WordBytes(o, x) + e);
    PutBehind(o, h + t + l, WordBytes(o, r), runs, WordBytes(o, x) + e);
  }

  lemma {:induction false} SummaryBehind(o: Order, bytes: bool, h: seq<byte>, r: u32, x: u32, e: seq<byte>)
    ensures var t, l := WordBytes(o, TAG_SUMMARY), WordBytes(o, 2 * PerWord(bytes));
      && h + SummaryBytes(o, bytes, r, x) + e == (h + t + l) + (WordBytes(o, r) + (WordBytes(o, x) + e))
      && h + SummaryBytes(o, bytes, r, x) + e == (h + t + l + WordBytes(o, r)) + (WordBytes(o, x) + e)
  {
    hide WordBytes;
  }

  /** The number of runs that a merge reads. */
  function RunsIn(o: Order, u: Unit, q: seq<byte>): u32
    requires HeaderSize(BytesFormat(u.version)) + 16 <= |q|
  {
    WordAt(o, q, HeaderSize(BytesFormat(u.version)) + 8)
  }

  function FirstRecord(u: Unit): nat { HeaderSize(BytesFormat(u.version)) + 16 }

  /** Bytes that a file of the unit is merged with have every record of it. */
  lemma {:induction false} MergeableHas(o: Order, u: Unit, c: seq<u64>, r: u32, x: u32, q: seq<byte>)
    requires UnitOk(u, c) && Mergeable(FileBytes(o, u, c, r, x), q)
    ensures Inside(FilePieces(u, c), |q|) && FirstRecord(u) <= |q|
  {
    hide WordBytes, AllBytes, Encoded, FnRecords, Walk, OrderOf, WordAt, BytesFormat, PiecesOf, SummaryBytes,
      HeaderBytes, SameFunctions, FileBytes;
    WalksWhole(o, u, c, r, x);
    WalkInside(o, Unit4(BytesFormat(u.version)), q, HeaderSize(BytesFormat(u.version)));
    assert FilePieces(u, c)[0] == Piece(TAG_SUMMARY, HeaderSize(BytesFormat(u.version)), 8);
  }

  /** Merging with any bytes that are taken for a file of the program: the counters read at their
      places add, the runs add, and the summary's largest is that of the sums. */
  lemma {:induction false} MergedWith(o: Order, u: Unit, c: seq<u64>, r: u32, x: u32, q: seq<byte>, d: seq<u64>)
    requires UnitOk(u, c) && Mergeable(FileBytes(o, u, c, r, x), q)
    requires |d| == |c| && UnitOk(u, d) && ReadsAs(o, u, d, q, 0, FirstRecord(u)) && FirstRecord(u) <= |q|
    ensures UnitOk(u, Sums(c, d))
    ensures Merged(FileBytes(o, u, c, r, x), q) ==
      FileBytes(o, u, Sums(c, d), AddRuns(r, RunsIn(o, u, q)), Clamped(FnLargest(u, Sums(c, d), 0, 0)))
  {
    hide WordBytes, AllBytes, Encoded, FnRecords, Walk, OrderOf, WordAt, BytesFormat, PiecesOf, SummaryBytes,
      MergePieces, MergePiece, Mergeable, FnLargest, Inside, HeaderBytes, PutAt, Sums, ReadsAs;
    var bytes, m := BytesFormat(u.version), FileBytes(o, u, c, r, x);
    var h, runs, s := HeaderBytes(o, u), AddRuns(r, RunsIn(o, u, q)), Sums(c, d);
    WalksWhole(o, u, c, r, x);
    MergeableHas(o, u, c, r, x, q);
    var ps := PiecesOf(FnRecords(u, c, 0), HeaderSize(bytes) + 16);
    MergeFirst(o, Acc(m, 0, 0), q, Piece(TAG_SUMMARY, HeaderSize(bytes), 8), ps);
    MergesSummary(o, bytes, h, r, x, Encoded(o, bytes, FnRecords(u, c, 0)), q);
    MergesFunctions(o, bytes, u, c, d, 0, h + SummaryBytes(o, bytes, runs, x), q, 0, |h| + 8);
    var max := Clamped(FnLargest(u, s, 0, 0));
    Finishes(o, bytes, h, runs, x, max, Encoded(o, bytes, FnRecords(u, s, 0)));
    MergedIs(m, q, o, bytes, FilePieces(u, c));
  }

  // ----- what a file of the unit reads as

  lemma {:induction false} ReadsBehind(o: Order, pre: seq<byte>, cs: seq<u64>, post: seq<byte>)
    ensures |pre| + 8 * |cs| <= |pre + (AllBytes(o, CounterWords(cs)) + post)|
    ensures ReadAt(o, pre + (AllBytes(o, CounterWords(cs)) + post), |pre|, |cs|) == cs
    decreases cs
  {
    hide AllBytes, CounterWords, CounterBytes, CounterAt;
    if cs != [] {
      var c, b := AllBytes(o, CounterWords(cs[1..])), CounterBytes(o, cs[0]);
      CountersFirst(o, cs);
      Assoc(b, c, post);
      CounterBehind(o, pre, cs[0], c + post);
      Assoc(pre, b, c + post);
      ReadsBehind(o, pre + b, cs[1..], post);
      assert cs == [cs[0]] + cs[1..];
    }
  }

  lemma {:induction false} FunctionsRead(o: Order, bytes: bool, u: Unit, d: seq<u64>, k: nat, pre: seq<byte>)
    requires UnitOk(u, d) && k <= |u.funcs|
    ensures ReadsAs(o, u, d, pre + Encoded(o, bytes, FnRecords(u, d, k)), k, |pre|)
    decreases |u.funcs| - k
  {
    hide AllBytes, Encoded, FnRecords, FnPart, ReadAt, CounterWords, FnHead;
    if k < |u.funcs| {
      var f := u.funcs[k];
      var y, ed := d[f.base..f.base + f.n], Encoded(o, bytes, FnRecords(u, d, k + 1));
      PartFirst(o, bytes, u, d, k, pre);
      PartSplits(o, bytes, f, y, pre, ed);
      HeadLength(o, bytes, f);
      ReadsBehind(o, pre + AllBytes(o, FnHead(bytes, f)), y, ed);
      FunctionsRead(o, bytes, u, d, k + 1, pre + FnPart(o, bytes, f, y));
    }
  }

  /** A file of the unit reads as its own counters and runs. */
  lemma {:induction false} FileReads(o: Order, u: Unit, d: seq<u64>, r: u32, x: u32)
    requires UnitOk(u, d)
    ensures var q := FileBytes(o, u, d, r, x);
      FirstRecord(u) <= |q| && ReadsAs(o, u, d, q, 0, FirstRecord(u)) && RunsIn(o, u, q) == r
  {
    hide WordBytes, AllBytes, Encoded, FnRecords, WordAt, BytesFormat, HeaderBytes, ReadsAs;
    var bytes, h := BytesFormat(u.version), HeaderBytes(o, u);
    var sm, e := SummaryBytes(o, bytes, r, x), Encoded(o, bytes, FnRecords(u, d, 0));
    WalksWhole(o, u, d, r, x);
    FunctionsRead(o, bytes, u, d, 0, h + sm);
    SummaryBehind(o, bytes, h, r, x, e);
    WordBehind(o, h + WordBytes(o, TAG_SUMMARY) + WordBytes(o, 2 * PerWord(bytes)), r, WordBytes(o, x) + e);
  }

  /** Merging the files of two runs: the counters add, the runs add, and the summary's
      largest is that of the sums. */
  lemma {:induction false} MergedFile(o: Order, u: Unit, c: seq<u64>, d: seq<u64>, r: u32, x: u32, r': u32, x': u32)
    requires UnitOk(u, c) && UnitOk(u, d) && |c| == |d|
    ensures UnitOk(u, Sums(c, d)) && Mergeable(FileBytes(o, u, c, r, x), FileBytes(o, u, d, r', x'))
    ensures Merged(FileBytes(o, u, c, r, x), FileBytes(o, u, d, r', x')) ==
      FileBytes(o, u, Sums(c, d), AddRuns(r, r'), Clamped(FnLargest(u, Sums(c, d), 0, 0)))
  {
    hide FileBytes, Mergeable, Merged, FnLargest, Sums, ReadsAs, RunsIn, SameFns;
    FilesMergeIff(o, u, c, r, x, o, u, d, r', x');
    SameItself(u);
    FileReads(o, u, d, r', x');
    MergedWith(o, u, c, r, x, FileBytes(o, u, d, r', x'), d);
  }

  lemma {:induction false} SameItself(u: Unit)
    ensures SameProgram(u, u)
  {
  }

  lemma {:induction false} Finishes(o: Order, bytes: bool, h: seq<byte>, runs: u32, x: u32, max: u32, e: seq<byte>)
    ensures PutAt(o, h + SummaryBytes(o, bytes, runs, x) + e, |h| + 12, max) ==
      h + SummaryBytes(o, bytes, runs, max) + e
  {
    hide WordBytes, PutAt;
    var t, l := WordBytes(o, TAG_SUMMARY), WordBytes(o, 2 * PerWord(bytes));
    SummaryBehind(o, bytes, h, runs, x, e);
    SummaryBehind(o, bytes, h, runs, max, e);
    PutBehind(o, h + t + l + WordBytes(o, runs), WordBytes(o, x), max, e);
  }

  lemma {:induction false} MergedIs(m: seq<byte>, q: seq<byte>, o: Order, bytes: bool, ps: seq<Piece>)
    requires Mergeable(m, q) && OrderOf(m) == Some(o) && bytes == BytesFormat(WordAt(o, m, 4))
    requires Walk(o, Unit4(bytes), m, HeaderSize(bytes)) == Some(ps)
    ensures Inside(ps, |m|) && Inside(ps, |q|)
    ensures Merged(m, q) == Finish(o, MergePieces(o, Acc(m, 0, 0), q, ps))
  {
    WalkInside(o, Unit4(bytes), m, HeaderSize(bytes));
    WalkInside(o, Unit4(bytes), q, HeaderSize(bytes));
  }

  // ----- the largest counter

  lemma {:induction false} LargestFromBounds(max: u64, cs: seq<u64>)
    ensures LargestFrom(max, cs) >= max && forall i :: 0 <= i < |cs| ==> LargestFrom(max, cs) >= cs[i]
    ensures LargestFrom(max, cs) == max || LargestFrom(max, cs) in cs
    decreases cs
  {
    if cs != [] {
      LargestFromBounds(Later(max, cs[0]), cs[1..]);
      forall i | 0 <= i < |cs|
        ensures LargestFrom(max, cs) >= cs[i]
      {
        assert i > 0 ==> cs[i] == cs[1..][i - 1];
      }
    }
  }

  lemma {:induction false} LargestBounds(cs: seq<u64>)
    ensures forall i :: 0 <= i < |cs| ==> Largest(cs) >= cs[i]
    ensures Largest(cs) == 0 || Largest(cs) in cs
  {
    if cs != [] {
      var k := |cs| - 1;
      LargestBounds(cs[..k]);
      forall i | 0 <= i < |cs|
        ensures Largest(cs) >= cs[i]
      {
        assert i < k ==> cs[i] == cs[..k][i];
      }
    }
  }

  lemma {:induction false} FnLargestBounds(u: Unit, c: seq<u64>, k: nat, max: u64)
    requires UnitOk(u, c) && k <= |u.funcs|
    ensures FnLargest(u, c, k, max) >= max
    ensures forall j, i :: k <= j < |u.funcs| && u.funcs[j].base <= i < u.funcs[j].base + u.funcs[j].n ==>
      FnLargest(u, c, k, max) >= c[i]
    ensures FnLargest(u, c, k, max) == max || FnLargest(u, c, k, max) in c
    decreases |u.funcs| - k
  {
    if k < |u.funcs| {
      var f := u.funcs[k];
      var cs := c[f.base..f.base + f.n];
      LargestFromBounds(max, cs);
      FnLargestBounds(u, c, k + 1, LargestFrom(max, cs));
      forall i | f.base <= i < f.base + f.n
        ensures FnLargest(u, c, k, max) >= c[i]
      {
        assert c[i] == cs[i - f.base];
      }
    }
  }

  /** Every counter of the unit belongs to a function. */
  predicate Covered(u: Unit, n: nat) {
    forall i :: 0 <= i < n ==> InSome(u, i)
  }

  predicate InSome(u: Unit, i: nat) {
    exists j :: 0 <= j < |u.funcs| && u.funcs[j].base <= i < u.funcs[j].base + u.funcs[j].n
  }

  lemma {:induction false} LargestAgree(u: Unit, c: seq<u64>)
    requires UnitOk(u, c) && Covered(u, |c|)
    ensures FnLargest(u, c, 0, 0) == Largest(c)
  {
    FnLargestBounds(u, c, 0, 0);
    LargestBounds(c);
    var a, b := FnLargest(u, c, 0, 0), Largest(c);
    if b != 0 {
      var i :| 0 <= i < |c| && c[i] == b;
      assert InSome(u, i);
    }
  }

  /** The file of one run merged into the file of another, in either byte order and either
      version of the format, is byte for byte the file of a run that made both runs' counts. */
  lemma {:induction false} RunsAccumulate(o: Order, u: Unit, c: seq<u64>, d: seq<u64>, r: u32, r': u32)
    requires UnitOk(u, c) && UnitOk(u, d) && |c| == |d| && Covered(u, |c|)
    ensures UnitOk(u, Sums(c, d)) && Mergeable(Image(o, u, c, r), Image(o, u, d, r'))
    ensures Merged(Image(o, u, c, r), Image(o, u, d, r')) == Image(o, u, Sums(c, d), AddRuns(r, r'))
  {
    hide Image, FileBytes, Mergeable, Merged, FnLargest, Largest, Sums;
    ImageIsFile(o, u, c, r);
    ImageIsFile(o, u, d, r');
    MergedFile(o, u, c, d, r, Clamped(Largest(c)), r', Clamped(Largest(d)));
    LargestAgree(u, Sums(c, d));
    ImageIsFile(o, u, Sums(c, d), AddRuns(r, r'));
  }
}
