/** Merging a .gcda file into another of the same program (src/ir/gcda.h): what makes runs
accumulate. First what the two passes do to bytes, whatever they are. */
module GcdaMerge {
  import opened Bytes
  import opened GcovFile
  import opened Prelude

  /** A word written in place. */
  function PutAt(o: Order, m: seq<byte>, a: nat, w: u32): (m': seq<byte>)
    requires a + 4 <= |m|
    ensures |m'| == |m|
  {
    m[..a] + WordBytes(o, w) + m[a + 4..]
  }

  function CounterAt(o: Order, m: seq<byte>, a: nat): u64
    requires a + 8 <= |m|
  {
    Combined(WordAt(o, m, a), WordAt(o, m, a + 4))
  }

  function PutCounter(o: Order, m: seq<byte>, a: nat, v: u64): (m': seq<byte>)
    requires a + 8 <= |m|
    ensures |m'| == |m|
  {
    PutAt(o, PutAt(o, m, a, v % 0x1_0000_0000), a + 4, v / 0x1_0000_0000)
  }

  /** Addition of 64-bit counters. */
  function Add64(a: u64, b: u64): u64 {
    var x: int, y: int := a, b;
    (x + y) % 0x1_0000_0000_0000_0000
  }

  // ----- records by offset

  /** A record whose tag is at `at`, with `len` bytes after its two words. */
  datatype Piece = Piece(tag: u32, at: nat, len: nat)

  function LengthAt(o: Order, unit: nat, m: seq<byte>, a: nat): nat
    requires a + 8 <= |m|
  {
    (WordAt(o, m, a + 4) * unit) % 0x1_0000_0000
  }

  /** The records from offset `a` to the zero tag, if they all lie inside. */
  function Walk(o: Order, unit: nat, m: seq<byte>, a: nat): Option<seq<Piece>>
    decreases |m| - a
  {
    if a + 4 > |m| then None
    else if WordAt(o, m, a) == 0 then Some([])
    else if a + 8 > |m| then None
    else
      var len := LengthAt(o, unit, m, a);
      if a + 8 + len > |m| then None else
      var rest := Walk(o, unit, m, a + 8 + len);
      if rest.None? then None else Some([Piece(WordAt(o, m, a), a, len)] + rest.value)
  }

  /** The function records are the same in both. */
  predicate SameFunctions(m: seq<byte>, q: seq<byte>, ps: seq<Piece>) {
    forall k :: 0 <= k < |ps| && ps[k].tag == TAG_FUNCTION ==>
      ps[k].at + 8 + ps[k].len <= |m| && ps[k].at + 8 + ps[k].len <= |q|
      && m[ps[k].at + 8..ps[k].at + 8 + ps[k].len] == q[ps[k].at + 8..ps[k].at + 8 + ps[k].len]
  }

  function Unit4(bytes: bool): nat { if bytes then 1 else 4 }

  function HeaderSize(bytes: bool): nat { if bytes then 16 else 12 }

  /** The two are files of the same program: the same header and the same records. */
  predicate Mergeable(m: seq<byte>, q: seq<byte>) {
    && OrderOf(m).Some? && OrderOf(q) == OrderOf(m)
    && m[4..12] == q[4..12]
    && var o, bytes := OrderOf(m).value, BytesFormat(WordAt(OrderOf(m).value, m, 4));
      && (bytes ==> m[12..16] == q[12..16])
      && var ps := Walk(o, Unit4(bytes), m, HeaderSize(bytes));
        ps.Some? && Walk(o, Unit4(bytes), q, HeaderSize(bytes)) == ps && SameFunctions(m, q, ps.value)
  }

  // ----- the second pass, on values

  /** The image so far, the largest sum and where the summary is (0: none seen). */
  datatype Acc = Acc(m: seq<byte>, max: u64, sumAt: nat)

  function Later(a: u64, b: u64): u64 { if b > a then b else a }

  /** Lines 108 to 120: counters from `c` on added. */
  function AddCounters(o: Order, a: Acc, q: seq<byte>, c: nat, end: nat): (r: Acc)
    requires end <= |a.m| && end <= |q|
    ensures |r.m| == |a.m| && r.sumAt == a.sumAt
    decreases end - c
  {
    if c + 8 > end then a
    else
      var v := Add64(CounterAt(o, a.m, c), CounterAt(o, q, c));
      AddCounters(o, Acc(PutCounter(o, a.m, c, v), Later(a.max, v), a.sumAt), q, c + 8, end)
  }

  /** Lines 107 to 125: one record. */
  function MergePiece(o: Order, a: Acc, q: seq<byte>, p: Piece): (r: Acc)
    requires p.at + 8 + p.len <= |a.m| && p.at + 8 + p.len <= |q|
    ensures |r.m| == |a.m| && (r.sumAt == a.sumAt || r.sumAt + 8 <= |a.m|)
  {
    if p.tag == TAG_ARCS then AddCounters(o, a, q, p.at + 8, p.at + 8 + p.len)
    else if p.tag == TAG_SUMMARY && p.len >= 8 then
      var runs: u32 := (WordAt(o, a.m, p.at + 8) + WordAt(o, q, p.at + 8)) % 0x1_0000_0000;
      Acc(PutAt(o, a.m, p.at + 8, runs), a.max, p.at + 8)
    else a
  }

  predicate Inside(ps: seq<Piece>, n: nat) {
    forall k :: 0 <= k < |ps| ==> ps[k].at + 8 + ps[k].len <= n
  }

  function MergePieces(o: Order, a: Acc, q: seq<byte>, ps: seq<Piece>): (r: Acc)
    requires Inside(ps, |a.m|) && Inside(ps, |q|)
    ensures |r.m| == |a.m| && (r.sumAt == a.sumAt || r.sumAt + 8 <= |a.m|)
    decreases ps
  {
    if ps == [] then a else MergePieces(o, MergePiece(o, a, q, ps[0]), q, ps[1..])
  }

  function Clamped(max: u64): u32 { if max > 0xffff_ffff then 0xffff_ffff else max }

  /** Lines 129 to 131: the summary's largest counter. */
  function Finish(o: Order, a: Acc): (m: seq<byte>)
    requires a.sumAt == 0 || a.sumAt + 8 <= |a.m|
    ensures |m| == |a.m|
  {
    if a.sumAt != 0 then PutAt(o, a.m, a.sumAt + 4, Clamped(a.max)) else a.m
  }

  lemma {:induction false} WalkInside(o: Order, unit: nat, m: seq<byte>, a: nat)
    ensures Walk(o, unit, m, a).Some? ==> Inside(Walk(o, unit, m, a).value, |m|)
    decreases |m| - a
  {
    hide WordAt;
    if a + 8 <= |m| && WordAt(o, m, a) != 0 {
      var len := LengthAt(o, unit, m, a);
      if a + 8 + len <= |m| {
        WalkInside(o, unit, m, a + 8 + len);
      }
    }
  }

  /** The merged image. */
  function Merged(m: seq<byte>, q: seq<byte>): (r: seq<byte>)
    requires Mergeable(m, q)
    ensures |r| == |m|
  {
    var o, bytes := OrderOf(m).value, BytesFormat(WordAt(OrderOf(m).value, m, 4));
    WalkInside(o, Unit4(bytes), m, HeaderSize(bytes));
    WalkInside(o, Unit4(bytes), q, HeaderSize(bytes));
    Finish(o, MergePieces(o, Acc(m, 0, 0), q, Walk(o, Unit4(bytes), m, HeaderSize(bytes)).value))
  }

  // ----- the first pass (lines 75 to 97)

  /** From offset `a` on the two have the same records. */
  predicate SameFrom(o: Order, unit: nat, m: seq<byte>, q: seq<byte>, a: nat) {
    var ps := Walk(o, unit, m, a);
    ps.Some? && Walk(o, unit, q, a) == ps && SameFunctions(m, q, ps.value)
  }

  /** Files that are merged with each other are merged with the same files: being of one program
      is an equivalence. */
  lemma {:induction false} MergeableAlike(m: seq<byte>, m': seq<byte>, q: seq<byte>)
    requires Mergeable(m, m')
    ensures Mergeable(m, q) <==> Mergeable(m', q)
  {
    hide Walk, OrderOf, BytesFormat, SameFunctions, WordAt;
    var o := OrderOf(m).value;
    OrderHas(m);
    OrderHas(m');
    SameVersion(o, m, m');
    var bytes := BytesFormat(WordAt(o, m, 4));
    var ps := Walk(o, Unit4(bytes), m, HeaderSize(bytes)).value;
    FunctionsAlike(m, m', q, ps);
  }

  lemma {:induction false} OrderHas(m: seq<byte>)
    ensures OrderOf(m).Some? ==> |m| >= 16
  {
  }

  lemma {:induction false} SameVersion(o: Order, m: seq<byte>, m': seq<byte>)
    requires |m| >= 16 && |m'| >= 16 && m[4..12] == m'[4..12]
    ensures WordAt(o, m, 4) == WordAt(o, m', 4)
  {
    hide Value;
    assert m[4..8] == m[4..12][..4] && m'[4..8] == m'[4..12][..4];
    assert forall k :: 4 <= k < 8 ==> m[k] == m[4..8][k - 4] && m'[k] == m'[4..8][k - 4];
  }

  lemma {:induction false} FunctionsAlike(m: seq<byte>, m': seq<byte>, q: seq<byte>, ps: seq<Piece>)
    requires SameFunctions(m, m', ps)
    ensures SameFunctions(m, q, ps) <==> SameFunctions(m', q, ps)
  {
  }

  /** What is written where `was` is: the image, merged with it where that is a file of the
      same program. */
  function Stored(was: Option<seq<byte>>, img: seq<byte>): seq<byte> {
    if was.Some? && Mergeable(img, was.value) then Merged(img, was.value) else img
  }

  /** Whether two byte strings agree on `[lo, hi)`. */
  method SameBytes(m: seq<byte>, q: seq<byte>, lo: nat, hi: nat) returns (same: bool)
    requires lo <= hi <= |m| && hi <= |q|
    ensures same <==> m[lo..hi] == q[lo..hi]
  {
    for k := lo to hi
      invariant m[lo..k] == q[lo..k]
    {
      if m[k] != q[k] {
        assert m[lo..hi][k - lo] != q[lo..hi][k - lo];
        return false;
      }
      assert m[lo..k + 1] == m[lo..k] + [m[k]] && q[lo..k + 1] == q[lo..k] + [q[k]];
    }
    return true;
  }

  lemma {:induction false} WalkFirst(o: Order, unit: nat, m: seq<byte>, a: nat)
    requires a + 4 <= |m| && WordAt(o, m, a) != 0
    ensures var w := Walk(o, unit, m, a);
      w.Some? ==> a + 8 <= |m| && w.value != [] && w.value[0] == Piece(WordAt(o, m, a), a, LengthAt(o, unit, m, a))
  {
  }

  lemma {:induction false} SameStep(o: Order, unit: nat, m: seq<byte>, q: seq<byte>, a: nat)
    requires a + 8 <= |m| && a + 8 <= |q| && WordAt(o, m, a) == WordAt(o, q, a) != 0
    ensures var la, lb := LengthAt(o, unit, m, a), LengthAt(o, unit, q, a);
      SameFrom(o, unit, m, q, a) <==>
      && la == lb && a + 8 + la <= |m| && a + 8 + lb <= |q|
      && (WordAt(o, m, a) == TAG_FUNCTION ==> m[a + 8..a + 8 + la] == q[a + 8..a + 8 + la])
      && SameFrom(o, unit, m, q, a + 8 + la)
  {
    hide WordAt, LengthAt;
    var la, lb := LengthAt(o, unit, m, a), LengthAt(o, unit, q, a);
    WalkFirst(o, unit, m, a);
    WalkFirst(o, unit, q, a);
    if la == lb && a + 8 + la <= |m| && a + 8 + lb <= |q| {
      var rm, rq := Walk(o, unit, m, a + 8 + la), Walk(o, unit, q, a + 8 + la);
      var p := Piece(WordAt(o, m, a), a, la);
      if rm.Some? && rq.Some? {
        assert ([p] + rm.value)[1..] == rm.value && ([p] + rq.value)[1..] == rq.value;
        ConsFunctions(m, q, p, rm.value);
      }
    }
  }

  lemma {:induction false} ConsFunctions(m: seq<byte>, q: seq<byte>, p: Piece, ps: seq<Piece>)
    requires p.at + 8 + p.len <= |m| && p.at + 8 + p.len <= |q|
    ensures SameFunctions(m, q, [p] + ps) <==>
      && SameFunctions(m, q, ps)
      && (p.tag == TAG_FUNCTION ==> m[p.at + 8..p.at + 8 + p.len] == q[p.at + 8..p.at + 8 + p.len])
  {
    var all := [p] + ps;
    assert all[0] == p && forall k :: 0 <= k < |ps| ==> all[k + 1] == ps[k];
  }

  method FirstPass(o: Order, unit: nat, m: seq<byte>, q: seq<byte>, h: nat) returns (same: bool)
    requires unit == 1 || unit == 4
    ensures same <==> SameFrom(o, unit, m, q, h)
  {
    hide WordAt, SameFunctions;
    var a := h;
    while true
      invariant SameFrom(o, unit, m, q, a) <==> SameFrom(o, unit, m, q, h)
      decreases |m| - a
    {
      if a + 4 > |m| || a + 4 > |q| {
        return false;
      }
      var ta, tb := WordAt(o, m, a), WordAt(o, q, a);
      if ta != tb {
        if ta != 0 { WalkFirst(o, unit, m, a); }
        if tb != 0 { WalkFirst(o, unit, q, a); }
        return false;
      }
      if ta == 0 {
        NoFunctions(m, q);
        return true;
      }
      if a + 8 > |m| || a + 8 > |q| {
        return false;
      }
      SameStep(o, unit, m, q, a);
      var la, lb := LengthAt(o, unit, m, a), LengthAt(o, unit, q, a);
      if la != lb || a + 8 + la > |m| || a + 8 + lb > |q| {
        return false;
      }
      if ta == TAG_FUNCTION {
        var eq := SameBytes(m, q, a + 8, a + 8 + la);
        if !eq {
          return false;
        }
      }
      a := a + 8 + la;
    }
  }

  lemma {:induction false} NoFunctions(m: seq<byte>, q: seq<byte>)
    ensures SameFunctions(m, q, [])
  {
  }

  // ----- the second pass (lines 98 to 132), in place

  /** gcda_wr. */
  method WriteWord(o: Order, img: array<byte>, a: nat, v: u32)
    requires a + 4 <= img.Length
    modifies img
    ensures img[..] == PutAt(o, old(img[..]), a, v)
  {
    var b := WordBytes(o, v);
    for k := 0 to 4
      invariant forall j :: 0 <= j < img.Length ==> img[j] == if a <= j < a + k then b[j - a] else old(img[j])
    {
      img[a + k] := b[k];
    }
  }

  /** Lines 108 to 120. */
  method AddAll(o: Order, img: array<byte>, q: seq<byte>, start: nat, end: nat, max0: u64,
                ghost sumAt: nat) returns (max: u64)
    requires end <= img.Length && end <= |q|
    modifies img
    ensures Acc(img[..], max, sumAt) == AddCounters(o, Acc(old(img[..]), max0, sumAt), q, start, end)
  {
    hide WordAt, PutAt;
    var c := start;
    max := max0;
    ghost var all := AddCounters(o, Acc(img[..], max, sumAt), q, start, end);
    while c + 8 <= end
      invariant AddCounters(o, Acc(img[..], max, sumAt), q, c, end) == all
      decreases end - c
    {
      ghost var m := img[..];
      var v := Add64(CounterAt(o, img[..], c), CounterAt(o, q, c));
      WriteWord(o, img, c, v % 0x1_0000_0000);
      WriteWord(o, img, c + 4, v / 0x1_0000_0000);
      assert img[..] == PutCounter(o, m, c, v);
      if v > max {
        max := v;
      }
      c := c + 8;
    }
  }

  /** The pieces not yet reached lie at or after `a`. */
  lemma {:induction false} WalkSuffix(o: Order, unit: nat, m: seq<byte>, m': seq<byte>, a: nat)
    requires |m| == |m'| && a <= |m| && m[a..] == m'[a..]
    ensures Walk(o, unit, m, a) == Walk(o, unit, m', a)
    decreases |m| - a
  {
    hide WordAt;
    if a + 4 <= |m| {
      SameWordAt(o, m, m', a, a);
      if a + 8 <= |m| && WordAt(o, m, a) != 0 {
        SameWordAt(o, m, m', a, a + 4);
        var len := LengthAt(o, unit, m, a);
        if a + 8 + len <= |m| {
          assert m[a + 8 + len..] == m[a..][8 + len..] && m'[a + 8 + len..] == m'[a..][8 + len..];
          WalkSuffix(o, unit, m, m', a + 8 + len);
        }
      }
    }
  }

  lemma {:induction false} SameWordAt(o: Order, m: seq<byte>, m': seq<byte>, a: nat, b: nat)
    requires |m| == |m'| && a <= b && b + 4 <= |m| && m[a..] == m'[a..]
    ensures WordAt(o, m, b) == WordAt(o, m', b)
  {
    hide Value;
    forall j | b <= j < b + 4
      ensures m[j] == m'[j]
    {
      assert m[j] == m[a..][j - a] && m'[j] == m'[a..][j - a];
    }
    assert m[b..b + 4] == m'[b..b + 4];
  }

  lemma {:induction false} AddKeepsAfter(o: Order, a: Acc, q: seq<byte>, c: nat, end: nat)
    requires end <= |a.m| && end <= |q|
    ensures AddCounters(o, a, q, c, end).m[end..] == a.m[end..]
    decreases end - c
  {
    if c + 8 <= end {
      hide WordAt, PutCounter, CounterAt, Add64;
      var v := Add64(CounterAt(o, a.m, c), CounterAt(o, q, c));
      var m1 := PutCounter(o, a.m, c, v);
      PutKeepsAfter(o, a.m, c, v, end);
      AddKeepsAfter(o, Acc(m1, Later(a.max, v), a.sumAt), q, c + 8, end);
    }
  }

  lemma {:induction false} PutKeepsAfter(o: Order, m: seq<byte>, c: nat, v: u64, end: nat)
    requires c + 8 <= end <= |m|
    ensures PutCounter(o, m, c, v)[end..] == m[end..]
  {
    hide WordBytes;
  }

  lemma {:induction false} PutAtKeepsAfter(o: Order, m: seq<byte>, c: nat, end: nat, v: u32)
    requires c + 4 <= end <= |m|
    ensures PutAt(o, m, c, v)[end..] == m[end..]
  {
    hide WordBytes;
  }

  /** A record's merge changes nothing after the record. */
  lemma {:induction false} MergeKeepsAfter(o: Order, a: Acc, q: seq<byte>, p: Piece)
    requires p.at + 8 + p.len <= |a.m| && p.at + 8 + p.len <= |q|
    ensures MergePiece(o, a, q, p).m[p.at + 8 + p.len..] == a.m[p.at + 8 + p.len..]
  {
    hide AddCounters, WordAt, PutAt;
    if p.tag == TAG_SUMMARY && p.len >= 8 {
      PutAtKeepsAfter(o, a.m, p.at + 8, p.at + 8 + p.len,
        (WordAt(o, a.m, p.at + 8) + WordAt(o, q, p.at + 8)) % 0x1_0000_0000);
    }
    if p.tag == TAG_ARCS {
      AddKeepsAfter(o, a, q, p.at + 8, p.at + 8 + p.len);
    }
  }

  /** One record of the second pass. */
  method MergeOne(o: Order, img: array<byte>, q: seq<byte>, a: nat, tag: u32, len: nat, max0: u64, sumAt0: nat)
    returns (max: u64, sumAt: nat)
    requires a + 8 + len <= img.Length && a + 8 + len <= |q|
    modifies img
    ensures Acc(img[..], max, sumAt) == MergePiece(o, Acc(old(img[..]), max0, sumAt0), q, Piece(tag, a, len))
  {
    hide WordAt, PutAt, AddCounters;
    max, sumAt := max0, sumAt0;
    if tag == TAG_ARCS {
      max := AddAll(o, img, q, a + 8, a + 8 + len, max0, sumAt0);
    } else if tag == TAG_SUMMARY && len >= 8 {
      sumAt := a + 8;
      var runs: u32 := (WordAt(o, img[..], a + 8) + WordAt(o, q, a + 8)) % 0x1_0000_0000;
      WriteWord(o, img, a + 8, runs);
    }
  }

  lemma {:induction false} WalkEnds(o: Order, unit: nat, m: seq<byte>, a: nat)
    requires Walk(o, unit, m, a).Some?
    ensures a + 4 <= |m| && (WordAt(o, m, a) == 0 ==> Walk(o, unit, m, a).value == [])
  {
  }

  /** After its first record is merged, the walk of what is left finds the other records. */
  lemma {:induction false} MergedOne(o: Order, unit: nat, x: Acc, q: seq<byte>, a: nat, ps: seq<Piece>)
    requires a + 4 <= |x.m| && WordAt(o, x.m, a) != 0 && Walk(o, unit, x.m, a) == Some(ps)
    requires Inside(ps, |x.m|) && Inside(ps, |q|)
    ensures ps != [] && a + 8 <= |x.m| && Inside(ps[1..], |x.m|) && Inside(ps[1..], |q|)
    ensures ps[0] == Piece(WordAt(o, x.m, a), a, LengthAt(o, unit, x.m, a)) && ps[0].at + 8 + ps[0].len <= |x.m| &&
      ps[0].at + 8 + ps[0].len <= |q|
    ensures var y := MergePiece(o, x, q, ps[0]);
      && Walk(o, unit, y.m, a + 8 + ps[0].len) == Some(ps[1..])
      && MergePieces(o, y, q, ps[1..]) == MergePieces(o, x, q, ps)
  {
    hide WordAt, MergePiece, LengthAt, Walk;
    WalkFirst(o, unit, x.m, a);
    InsideRest(ps, |x.m|);
    InsideRest(ps, |q|);
    WalkRest(o, unit, x.m, a);
    MergeKeepsAfter(o, x, q, ps[0]);
    WalkSuffix(o, unit, x.m, MergePiece(o, x, q, ps[0]).m, a + 8 + ps[0].len);
  }

  method SecondPass(o: Order, unit: nat, img: array<byte>, q: seq<byte>, h: nat, ghost ps: seq<Piece>)
    requires Walk(o, unit, img[..], h) == Some(ps) && Inside(ps, img.Length) && Inside(ps, |q|)
    modifies img
    ensures img[..] == Finish(o, MergePieces(o, Acc(old(img[..]), 0, 0), q, ps))
  {
    hide WordAt, MergePiece, LengthAt, Walk, Inside;
    ghost var all, left := MergePieces(o, Acc(img[..], 0, 0), q, ps), ps;
    var a, max: u64, sumAt := h, 0, 0;
    while true
      invariant 0 <= sumAt && (sumAt == 0 || sumAt + 8 <= img.Length)
      invariant Walk(o, unit, img[..], a) == Some(left) && Inside(left, img.Length) && Inside(left, |q|)
      invariant MergePieces(o, Acc(img[..], max, sumAt), q, left) == all
      decreases |left|
    {
      WalkEnds(o, unit, img[..], a);
      var t := WordAt(o, img[..], a);
      if t == 0 {
        break;
      }
      MergedOne(o, unit, Acc(img[..], max, sumAt), q, a, left);
      var l := LengthAt(o, unit, img[..], a);
      max, sumAt := MergeOne(o, img, q, a, t, l, max, sumAt);
      a, left := a + 8 + l, left[1..];
    }
    if sumAt != 0 {
      WriteWord(o, img, sumAt + 4, Clamped(max));
    }
  }

  lemma {:induction false} WalkRest(o: Order, unit: nat, m: seq<byte>, a: nat)
    requires Walk(o, unit, m, a).Some? && a + 8 <= |m| && WordAt(o, m, a) != 0
    ensures var l := LengthAt(o, unit, m, a);
      a + 8 + l <= |m| && Walk(o, unit, m, a + 8 + l) == Some(Walk(o, unit, m, a).value[1..])
  {
    hide WordAt;
    var l := LengthAt(o, unit, m, a);
    var rest := Walk(o, unit, m, a + 8 + l);
    assert ([Piece(WordAt(o, m, a), a, l)] + rest.value)[1..] == rest.value;
  }

  lemma {:induction false} InsideRest(ps: seq<Piece>, n: nat)
    requires ps != [] && Inside(ps, n)
    ensures Inside(ps[1..], n)
  {
  }

  /** gcda_merge: merges exactly when the two are files of one program, and otherwise leaves
      the image alone. It reads neither past its end, whatever the bytes. */
  method Merge(img: array<byte>, q: seq<byte>) returns (merged: bool)
    modifies img
    ensures merged <==> Mergeable(old(img[..]), q)
    ensures merged ==> img[..] == Merged(old(img[..]), q)
    ensures !merged ==> img[..] == old(img[..])
  {
    hide WordAt, Walk, SameFunctions, MergePieces;
    ghost var m := img[..];
    var order := OrderOf(img[..]);
    if order.None? || OrderOf(q) != order {
      return false;
    }
    var o := order.value;
    var same := SameBytes(img[..], q, 4, 12);
    if !same {
      return false;
    }
    var bytes := BytesFormat(WordAt(o, img[..], 4));
    if bytes {
      same := SameBytes(img[..], q, 12, 16);
      if !same {
        return false;
      }
    }
    same := FirstPass(o, Unit4(bytes), img[..], q, HeaderSize(bytes));
    if !same {
      return false;
    }
    ghost var ps := Walk(o, Unit4(bytes), m, HeaderSize(bytes)).value;
    WalkInside(o, Unit4(bytes), m, HeaderSize(bytes));
    WalkInside(o, Unit4(bytes), q, HeaderSize(bytes));
    SecondPass(o, Unit4(bytes), img, q, HeaderSize(bytes), ps);
    return true;
  }
}
