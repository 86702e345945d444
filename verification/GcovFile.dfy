/** The .gcda file that lib/gcov/gcov.c writes: a header, tagged and length-prefixed records
and a final zero word, in either byte order and in either of two versions of the format; and
a reader that knows only tags and lengths. */
module GcovFile {
  import opened Bytes
  import opened Arith
  import opened Prelude

  const MAGIC: u32 := 0x67636461
  const TAG_FUNCTION: u32 := 0x01000000
  const TAG_ARCS: u32 := 0x01a10000
  const TAG_SUMMARY: u32 := 0xa1000000

  /** One function's part of a unit's record: its counters are `ctrs[base..base + n]`. */
  datatype Fn = Fn(ident: u32, lineno: u32, cfg: u32, n: nat, base: nat)

  /** What an instrumented unit registers. */
  datatype Unit = Unit(version: u32, stamp: u32, checksum: u32, funcs: seq<Fn>, path: string)

  /** The functions' counters are among the unit's, and a function's counter bytes fit a
      32-bit length. */
  predicate UnitOk(u: Unit, ctrs: seq<u64>) {
    forall k :: 0 <= k < |u.funcs| ==> u.funcs[k].base + u.funcs[k].n <= |ctrs| && 8 * u.funcs[k].n < 0x1_0000_0000
  }

  /** Version "B2" and later: lengths in bytes, a checksum in the header. */
  predicate BytesFormat(v: u32) {
    var c0, c1 := v / 0x1000000 % 256, v / 0x10000 % 256;
    c0 > 66 || (c0 == 66 && c1 >= 50)
  }

  // ----- words

  datatype Record = Record(tag: u32, payload: seq<u32>)

  /** What a record's length field counts per word. */
  function PerWord(bytes: bool): nat { if bytes then 4 else 1 }

  predicate RecordOk(r: Record) { r.tag != 0 && 4 * |r.payload| < 0x1_0000_0000 }

  predicate RecordsOk(rs: seq<Record>) { forall k :: 0 <= k < |rs| ==> RecordOk(rs[k]) }

  function Encode(bytes: bool, rs: seq<Record>): seq<u32>
    requires RecordsOk(rs)
  {
    if rs == [] then []
    else [rs[0].tag, |rs[0].payload| * PerWord(bytes)] + rs[0].payload + Encode(bytes, rs[1..])
  }

  function CounterWords(cs: seq<u64>): (ws: seq<u32>)
    ensures |ws| == 2 * |cs|
  {
    if cs == [] then [] else [cs[0] % 0x1_0000_0000, cs[0] / 0x1_0000_0000] + CounterWords(cs[1..])
  }

  /** The records of the functions from the `k`-th on. */
  function FnRecords(u: Unit, ctrs: seq<u64>, k: nat): (rs: seq<Record>)
    requires UnitOk(u, ctrs) && k <= |u.funcs|
    ensures RecordsOk(rs)
    decreases |u.funcs| - k
  {
    if k == |u.funcs| then [] else
    var f := u.funcs[k];
    [Record(TAG_FUNCTION, [f.ident, f.lineno, f.cfg]), Record(TAG_ARCS, CounterWords(ctrs[f.base..f.base + f.n]))]
    + FnRecords(u, ctrs, k + 1)
  }

  /** The summary: how many runs, and the largest counter, clamped to 32 bits. */
  function Summary(runs: u32, max: u64): Record {
    Record(TAG_SUMMARY, [runs, if max > 0xffff_ffff then 0xffff_ffff else max])
  }

  function Largest(cs: seq<u64>): u64 {
    if cs == [] then 0 else var m := Largest(cs[..|cs| - 1]); if cs[|cs| - 1] > m then cs[|cs| - 1] else m
  }

  function Header(version: u32, stamp: u32, checksum: u32): seq<u32> {
    [MAGIC, version, stamp] + if BytesFormat(version) then [checksum] else []
  }

  /** The whole file of a unit. */
  function FileWords(u: Unit, ctrs: seq<u64>, runs: u32): seq<u32>
    requires UnitOk(u, ctrs)
  {
    Header(u.version, u.stamp, u.checksum)
    + Encode(BytesFormat(u.version), [Summary(runs, Largest(ctrs))] + FnRecords(u, ctrs, 0)) + [0]
  }

  // ----- bytes

  datatype Order = Little | Big

  function WordBytes(o: Order, w: u32): (bs: seq<byte>)
    ensures |bs| == 4
  {
    var b := ToBytes(w, 4);
    if o.Little? then b else [b[3], b[2], b[1], b[0]]
  }

  function AllBytes(o: Order, ws: seq<u32>): (bs: seq<byte>)
    ensures |bs| == 4 * |ws|
  {
    if ws == [] then [] else WordBytes(o, ws[0]) + AllBytes(o, ws[1..])
  }

  /** The file as the target writes it. */
  function Image(o: Order, u: Unit, ctrs: seq<u64>, runs: u32): seq<byte>
    requires UnitOk(u, ctrs)
  {
    AllBytes(o, FileWords(u, ctrs, runs))
  }

  lemma {:induction false} AllBytesAppend(o: Order, a: seq<u32>, b: seq<u32>)
    ensures AllBytes(o, a + b) == AllBytes(o, a) + AllBytes(o, b)
  {
    if a == [] {
      assert a + b == b;
    } else {
      assert (a + b)[1..] == a[1..] + b;
      AllBytesAppend(o, a[1..], b);
    }
  }

  lemma {:induction false} EncodeAppend(bytes: bool, a: seq<Record>, b: seq<Record>)
    requires RecordsOk(a) && RecordsOk(b)
    ensures RecordsOk(a + b) && Encode(bytes, a + b) == Encode(bytes, a) + Encode(bytes, b)
  {
    if a == [] {
      assert a + b == b;
    } else {
      hide PerWord;
      assert (a + b)[1..] == a[1..] + b && (a + b)[0] == a[0];
      EncodeAppend(bytes, a[1..], b);
      var first := [a[0].tag, |a[0].payload| * PerWord(bytes)] + a[0].payload;
      Assoc(first, Encode(bytes, a[1..]), Encode(bytes, b));
    }
  }

  // ----- the reader

  function WordAt(o: Order, bs: seq<byte>, a: nat): (w: u32)
    requires a + 4 <= |bs|
  {
    var s := if o.Little? then bs[a..a + 4] else [bs[a + 3], bs[a + 2], bs[a + 1], bs[a]];
    FourBytes(s);
    Value(s)
  }

  lemma {:induction false} FourBytes(s: seq<byte>)
    requires |s| == 4
    ensures Value(s) < 0x1_0000_0000
  {
    ValueBound(s);
    assert Pow256(2) == 0x10000;
    assert Pow256(4) == 256 * Pow256(3) && Pow256(3) == 256 * Pow256(2);
  }

  function ToWords(o: Order, bs: seq<byte>): seq<u32> {
    if |bs| < 4 then [] else [WordAt(o, bs, 0)] + ToWords(o, bs[4..])
  }

  /** Which order a file is in, from its magic. */
  function OrderOf(bs: seq<byte>): Option<Order> {
    if |bs| < 16 then None
    else if WordAt(Little, bs, 0) == MAGIC then Some(Little)
    else if WordAt(Big, bs, 0) == MAGIC then Some(Big)
    else None
  }

  /** The records up to the zero word, by their lengths alone. */
  function Decode(bytes: bool, ws: seq<u32>): Option<seq<Record>> {
    if ws == [] then None
    else if ws[0] == 0 then Some([])
    else if |ws| < 2 then None
    else
      var n := ws[1] / PerWord(bytes);
      if ws[1] % PerWord(bytes) != 0 || 2 + n > |ws| then None else
      var rest := Decode(bytes, ws[2 + n..]);
      if rest.None? then None else Some([Record(ws[0], ws[2..2 + n])] + rest.value)
  }

  datatype FnData = FnData(ident: u32, lineno: u32, cfg: u32, counters: seq<u64>)

  function Counters(ws: seq<u32>): seq<u64> {
    if |ws| < 2 then [] else [Combined(ws[0], ws[1])] + Counters(ws[2..])
  }

  function Combined(lo: u32, hi: u32): u64 {
    lo + 0x1_0000_0000 * hi
  }

  /** The functions the records tell of: a function record starts one, a counter record adds
      to the one before it, any other is passed over. */
  function Functions(rs: seq<Record>, done: seq<FnData>): seq<FnData>
    decreases rs
  {
    if rs == [] then done
    else if rs[0].tag == TAG_FUNCTION && |rs[0].payload| == 3 then
      Functions(rs[1..], done + [FnData(rs[0].payload[0], rs[0].payload[1], rs[0].payload[2], [])])
    else if rs[0].tag == TAG_ARCS && done != [] then
      var f := done[|done| - 1];
      Functions(rs[1..], done[..|done| - 1] + [f.(counters := f.counters + Counters(rs[0].payload))])
    else Functions(rs[1..], done)
  }

  datatype File = File(version: u32, stamp: u32, checksum: u32, functions: seq<FnData>)

  function ReadWords(ws: seq<u32>): Option<File> {
    if |ws| < 4 || ws[0] != MAGIC then None
    else
      var bytes := BytesFormat(ws[1]);
      var rs := Decode(bytes, if bytes then ws[4..] else ws[3..]);
      if rs.None? then None else Some(File(ws[1], ws[2], if bytes then ws[3] else 0, Functions(rs.value, [])))
  }

  function ReadImage(bs: seq<byte>): Option<File> {
    var o := OrderOf(bs);
    if o.None? then None else ReadWords(ToWords(o.value, bs))
  }

  // ----- what was written reads back

  lemma {:induction false} WordBack(o: Order, w: u32, rest: seq<byte>)
    ensures WordAt(o, WordBytes(o, w) + rest, 0) == w
  {
    hide ToBytes, Value;
    var b, bs := ToBytes(w, 4), WordBytes(o, w) + rest;
    Pow256Of4();
    ValueOfBytes(w, 4);
    assert o.Little? ==> bs[0..4] == b;
    assert o.Big? ==> [bs[3], bs[2], bs[1], bs[0]] == b;
  }

  lemma {:induction false} Pow256Of4()
    ensures Pow256(4) == 0x1_0000_0000
  {
    assert Pow256(2) == 0x10000;
    assert Pow256(4) == 256 * Pow256(3) && Pow256(3) == 256 * Pow256(2);
  }

  lemma {:induction false} WordsBack(o: Order, ws: seq<u32>)
    ensures ToWords(o, AllBytes(o, ws)) == ws
  {
    if ws != [] {
      WordBack(o, ws[0], AllBytes(o, ws[1..]));
      assert AllBytes(o, ws)[4..] == AllBytes(o, ws[1..]);
      WordsBack(o, ws[1..]);
    }
  }

  /** The magic tells the order. */
  lemma {:induction false} OrderBack(o: Order, ws: seq<u32>)
    requires |ws| >= 4 && ws[0] == MAGIC
    ensures OrderOf(AllBytes(o, ws)) == Some(o)
  {
    var bs := AllBytes(o, ws);
    WordBack(o, MAGIC, AllBytes(o, ws[1..]));
    if o.Big? {
      MagicBytes();
      assert bs[0..4] == [0x67, 0x63, 0x64, 0x61];
      assert Value([0x67, 0x63, 0x64, 0x61]) == 0x61646367 by { MagicReversed(); }
    }
  }

  lemma {:induction false} MagicBytes()
    ensures ToBytes(MAGIC, 4) == [0x61, 0x64, 0x63, 0x67]
  {
    assert ToBytes(0x67, 1) == [0x67];
    assert ToBytes(0x6763, 2) == [0x63, 0x67];
    assert ToBytes(0x676364, 3) == [0x64, 0x63, 0x67];
  }

  lemma {:induction false} MagicReversed()
    ensures Value([0x67, 0x63, 0x64, 0x61]) == 0x61646367
  {
    assert [0x67, 0x63, 0x64, 0x61][1..] == [0x63, 0x64, 0x61];
    assert [0x63, 0x64, 0x61][1..] == [0x64, 0x61];
    assert [0x64, 0x61][1..] == [0x61];
  }

  /** Tags and lengths alone find every record again, in both versions of the format. */
  lemma {:induction false} DecodeBack(bytes: bool, rs: seq<Record>, tail: seq<u32>)
    requires RecordsOk(rs)
    ensures Decode(bytes, Encode(bytes, rs) + ([0] + tail)) == Some(rs)
  {
    var ws := Encode(bytes, rs) + ([0] + tail);
    if rs == [] {
      assert ws == [0] + tail;
    } else {
      hide Decode, Encode;
      var rest := Encode(bytes, rs[1..]) + ([0] + tail);
      assert RecordOk(rs[0]);
      FirstEncoded(bytes, rs);
      DecodeBack(bytes, rs[1..], tail);
      DecodeFirst(bytes, rs[0], rest);
      hide PerWord;
      Assoc([rs[0].tag, |rs[0].payload| * PerWord(bytes)] + rs[0].payload, Encode(bytes, rs[1..]), [0] + tail);
      assert rs == [rs[0]] + rs[1..];
    }
  }

  lemma {:induction false} FirstEncoded(bytes: bool, rs: seq<Record>)
    requires RecordsOk(rs) && rs != []
    ensures Encode(bytes, rs) == [rs[0].tag, |rs[0].payload| * PerWord(bytes)] + rs[0].payload + Encode(bytes, rs[1..])
  {
  }

  lemma {:induction false} DecodeFirst(bytes: bool, r: Record, rest: seq<u32>)
    requires RecordOk(r)
    ensures var d := Decode(bytes, rest);
      Decode(bytes, [r.tag, |r.payload| * PerWord(bytes)] + r.payload + rest) ==
      if d.None? then None else Some([r] + d.value)
  {
    var n := |r.payload|;
    var ws := [r.tag, n * PerWord(bytes)] + r.payload + rest;
    LengthField(bytes, n);
    assert ws[2..2 + n] == r.payload && ws[2 + n..] == rest;
  }

  lemma {:induction false} LengthField(bytes: bool, n: nat)
    ensures n * PerWord(bytes) / PerWord(bytes) == n && n * PerWord(bytes) % PerWord(bytes) == 0
  {
  }

  lemma {:induction false} CountersBack(cs: seq<u64>)
    ensures Counters(CounterWords(cs)) == cs
  {
    if cs != [] {
      assert CounterWords(cs)[2..] == CounterWords(cs[1..]);
      CountersBack(cs[1..]);
    }
  }

  /** What the file should tell of the functions from the `k`-th on. */
  function FnDataFrom(u: Unit, ctrs: seq<u64>, k: nat): seq<FnData>
    requires UnitOk(u, ctrs) && k <= |u.funcs|
    decreases |u.funcs| - k
  {
    if k == |u.funcs| then [] else
    var f := u.funcs[k];
    [FnData(f.ident, f.lineno, f.cfg, ctrs[f.base..f.base + f.n])] + FnDataFrom(u, ctrs, k + 1)
  }

  lemma {:induction false} FunctionsBack(u: Unit, ctrs: seq<u64>, k: nat, done: seq<FnData>)
    requires UnitOk(u, ctrs) && k <= |u.funcs|
    ensures Functions(FnRecords(u, ctrs, k), done) == done + FnDataFrom(u, ctrs, k)
    decreases |u.funcs| - k
  {
    if k < |u.funcs| {
      hide Functions, Counters, CounterWords;
      var f := u.funcs[k];
      var cs, whole := ctrs[f.base..f.base + f.n], FnData(f.ident, f.lineno, f.cfg, ctrs[f.base..f.base + f.n]);
      OneFunction(f, cs, FnRecords(u, ctrs, k + 1), done);
      FunctionsBack(u, ctrs, k + 1, done + [whole]);
      Assoc(done, [whole], FnDataFrom(u, ctrs, k + 1));
    }
  }

  lemma {:induction false} OneFunction(f: Fn, cs: seq<u64>, rest: seq<Record>, done: seq<FnData>)
    ensures Functions([Record(TAG_FUNCTION, [f.ident, f.lineno, f.cfg]), Record(TAG_ARCS, CounterWords(cs))] + rest,
      done)
      == Functions(rest, done + [FnData(f.ident, f.lineno, f.cfg, cs)])
  {
    hide Counters, CounterWords;
    CountersBack(cs);
    var a, b := Record(TAG_FUNCTION, [f.ident, f.lineno, f.cfg]), Record(TAG_ARCS, CounterWords(cs));
    var start := FnData(f.ident, f.lineno, f.cfg, []);
    assert ([a, b] + rest)[1..] == [b] + rest && ([b] + rest)[1..] == rest;
    assert (done + [start])[..|done|] == done && [] + cs == cs;
  }

  /** In both versions and both byte orders, the generic reader finds every function's ident,
      checksums and 64-bit counters, in order, from the bytes. */
  lemma {:induction false} ImageReadsBack(o: Order, u: Unit, ctrs: seq<u64>, runs: u32)
    requires UnitOk(u, ctrs)
    ensures ReadImage(Image(o, u, ctrs, runs)) ==
      Some(File(u.version, u.stamp, if BytesFormat(u.version) then u.checksum else 0, FnDataFrom(u, ctrs, 0)))
  {
    hide AllBytes, ToWords, Decode, Encode, FnRecords, Functions, Largest, OrderOf;
    var ws, bytes := FileWords(u, ctrs, runs), BytesFormat(u.version);
    var rs, h := [Summary(runs, Largest(ctrs))] + FnRecords(u, ctrs, 0), Header(u.version, u.stamp, u.checksum);
    FileLength(u, ctrs, runs);
    OrderBack(o, ws);
    WordsBack(o, ws);
    assert ws == h + (Encode(bytes, rs) + [0]);
    if bytes {
      assert ws[4..] == Encode(bytes, rs) + ([0] + []);
    } else {
      assert ws[3..] == Encode(bytes, rs) + ([0] + []);
    }
    DecodeBack(bytes, rs, []);
    SummarySkipped(runs, Largest(ctrs), FnRecords(u, ctrs, 0));
    FunctionsBack(u, ctrs, 0, []);
    assert [] + FnDataFrom(u, ctrs, 0) == FnDataFrom(u, ctrs, 0);
  }

  lemma {:induction false} SummarySkipped(runs: u32, max: u64, rs: seq<Record>)
    ensures Functions([Summary(runs, max)] + rs, []) == Functions(rs, [])
  {
    assert ([Summary(runs, max)] + rs)[1..] == rs;
  }

  // ----- the size

  /** The bytes of the functions from the `k`-th on, as image_size adds them up. */
  function FnSize(u: Unit, k: nat): nat
    requires k <= |u.funcs|
    decreases |u.funcs| - k
  {
    if k == |u.funcs| then 0 else 8 + 12 + 8 + 8 * u.funcs[k].n + FnSize(u, k + 1)
  }

  function ImageSize(u: Unit): nat {
    (if BytesFormat(u.version) then 16 else 12) + 16 + 4 + FnSize(u, 0)
  }

  lemma {:induction false} FnLength(bytes: bool, u: Unit, ctrs: seq<u64>, k: nat)
    requires UnitOk(u, ctrs) && k <= |u.funcs|
    ensures 4 * |Encode(bytes, FnRecords(u, ctrs, k))| == FnSize(u, k)
    decreases |u.funcs| - k
  {
    if k < |u.funcs| {
      var rs := FnRecords(u, ctrs, k);
      assert rs[1..][1..] == FnRecords(u, ctrs, k + 1);
      FnLength(bytes, u, ctrs, k + 1);
      assert |Encode(bytes, rs)| == 5 + |Encode(bytes, rs[1..])|;
    }
  }

  lemma {:induction false} FileLength(u: Unit, ctrs: seq<u64>, runs: u32)
    requires UnitOk(u, ctrs)
    ensures 4 * |FileWords(u, ctrs, runs)| == ImageSize(u)
    ensures |FileWords(u, ctrs, runs)| >= 8 && FileWords(u, ctrs, runs)[0] == MAGIC
  {
    var bytes, rs := BytesFormat(u.version), FnRecords(u, ctrs, 0);
    FnLength(bytes, u, ctrs, 0);
    EncodeAppend(bytes, [Summary(runs, Largest(ctrs))], rs);
    assert [Summary(runs, Largest(ctrs))][1..] == [];
  }

  /** The separately computed size is the size of what is written. */
  lemma {:induction false} SizeIsExact(o: Order, u: Unit, ctrs: seq<u64>, runs: u32)
    requires UnitOk(u, ctrs)
    ensures |Image(o, u, ctrs, runs)| == ImageSize(u)
  {
    FileLength(u, ctrs, runs);
  }
}
