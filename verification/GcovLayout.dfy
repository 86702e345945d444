/** The words of a .gcda file one by one, with the numbers of the format written out: what a
reader of version 0x42320000 (the characters "B2") or later expects, and what one of an earlier
version does. */
module GcovLayout {
  import opened Bytes
  import opened GcovFile
  import opened Prelude

  /** The versions are ordered as their numbers are, and lengths count bytes from one number on. */
  lemma {:induction false} BytesFromB2(v: u32)
    ensures BytesFormat(v) <==> v >= 0x42320000
  {
  }

  /** The largest of the counters, zero if there is none. */
  predicate IsLargest(cs: seq<u64>, m: u64) {
    && (forall k :: 0 <= k < |cs| ==> cs[k] <= m)
    && (if cs == [] then m == 0 else m in cs)
  }

  lemma {:induction false} LargestIsLargest(cs: seq<u64>)
    ensures IsLargest(cs, Largest(cs))
  {
    if cs != [] {
      var n := |cs| - 1;
      LargestIsLargest(cs[..n]);
      assert forall k :: 0 <= k < n ==> cs[k] == cs[..n][k];
      if n == 0 {
        assert Largest(cs[..n]) == 0;
        assert cs[0] in cs;
      }
    }
  }

  /** One function: its record and its counters' record, the counters as two words each, low word
      first. */
  predicate FunctionLaid(ws: seq<u32>, version: u32, f: Fn, cs: seq<u64>) {
    && |ws| >= 7 + 2 * |cs|
    && ws[0] == 0x01000000
    && ws[1] == (if version >= 0x42320000 then 12 else 3)
    && ws[2] == f.ident && ws[3] == f.lineno && ws[4] == f.cfg
    && ws[5] == 0x01a10000
    && ws[6] == (if version >= 0x42320000 then 8 * |cs| else 2 * |cs|)
    && (forall i :: 0 <= i < |cs| ==> ws[7 + 2 * i] == cs[i] % 0x1_0000_0000)
    && (forall i :: 0 <= i < |cs| ==> ws[8 + 2 * i] == cs[i] / 0x1_0000_0000)
  }

  /** The functions from the `k`-th on, each with its own counters, and a zero after the last. */
  predicate FunctionsLaid(ws: seq<u32>, u: Unit, ctrs: seq<u64>, k: nat)
    requires UnitOk(u, ctrs) && k <= |u.funcs|
    decreases |u.funcs| - k
  {
    if k == |u.funcs| then ws == [0]
    else
      var f := u.funcs[k];
      && FunctionLaid(ws, u.version, f, ctrs[f.base..f.base + f.n])
      && FunctionsLaid(ws[7 + 2 * f.n..], u, ctrs, k + 1)
  }

  /** The whole file: the header, with the checksum in the later format alone; the summary of
      `runs` runs and the largest counter, as much of it as a word holds; the functions. */
  ghost predicate FileLaid(ws: seq<u32>, u: Unit, ctrs: seq<u64>, runs: u32)
    requires UnitOk(u, ctrs)
  {
    var h := if u.version >= 0x42320000 then 4 else 3;
    && |ws| >= h + 4
    && ws[0] == 0x67636461 && ws[1] == u.version && ws[2] == u.stamp
    && (u.version >= 0x42320000 ==> ws[3] == u.checksum)
    && ws[h] == 0xa1000000
    && ws[h + 1] == (if u.version >= 0x42320000 then 8 else 2)
    && ws[h + 2] == runs
    && (exists m: u64 :: IsLargest(ctrs, m) && ws[h + 3] == if m < 0x1_0000_0000 then m else 0xffff_ffff)
    && FunctionsLaid(ws[h + 4..], u, ctrs, 0)
  }

  lemma {:induction false} CounterWordsAt(cs: seq<u64>, i: nat)
    requires i < |cs|
    ensures CounterWords(cs)[2 * i] == cs[i] % 0x1_0000_0000
    ensures CounterWords(cs)[2 * i + 1] == cs[i] / 0x1_0000_0000
  {
    if i > 0 {
      CounterWordsAt(cs[1..], i - 1);
    }
  }

  /** A function's words. */
  function FnWords(bytes: bool, f: Fn, cs: seq<u64>): seq<u32>
    requires 8 * |cs| < 0x1_0000_0000
  {
    [TAG_FUNCTION, 3 * PerWord(bytes), f.ident, f.lineno, f.cfg, TAG_ARCS, 2 * |cs| * PerWord(bytes)] + CounterWords(cs)
  }

  lemma {:induction false} FnFirst(bytes: bool, u: Unit, ctrs: seq<u64>, k: nat)
    requires UnitOk(u, ctrs) && k < |u.funcs|
    ensures var f := u.funcs[k];
      Encode(bytes, FnRecords(u, ctrs, k)) ==
      FnWords(bytes, f, ctrs[f.base..f.base + f.n]) + Encode(bytes, FnRecords(u, ctrs, k + 1))
  {
    hide Encode, CounterWords;
    var f, rest := u.funcs[k], FnRecords(u, ctrs, k + 1);
    var a, b := Record(TAG_FUNCTION, [f.ident, f.lineno, f.cfg]),
      Record(TAG_ARCS, CounterWords(ctrs[f.base..f.base + f.n]));
    assert FnRecords(u, ctrs, k) == [a] + ([b] + rest);
    assert ([a] + ([b] + rest))[1..] == [b] + rest && ([b] + rest)[1..] == rest;
    FirstEncoded(bytes, [a] + ([b] + rest));
    FirstEncoded(bytes, [b] + rest);
  }

  lemma {:induction false} FunctionIsLaid(version: u32, f: Fn, cs: seq<u64>, rest: seq<u32>)
    requires 8 * |cs| < 0x1_0000_0000
    ensures FunctionLaid(FnWords(BytesFormat(version), f, cs) + rest, version, f, cs)
  {
    hide CounterWords, BytesFormat;
    BytesFromB2(version);
    var ws := FnWords(BytesFormat(version), f, cs) + rest;
    forall i | 0 <= i < |cs|
      ensures ws[7 + 2 * i] == cs[i] % 0x1_0000_0000 && ws[8 + 2 * i] == cs[i] / 0x1_0000_0000
    {
      CounterWordsAt(cs, i);
    }
  }

  lemma {:induction false} FunctionsAreLaid(u: Unit, ctrs: seq<u64>, k: nat)
    requires UnitOk(u, ctrs) && k <= |u.funcs|
    ensures FunctionsLaid(Encode(BytesFormat(u.version), FnRecords(u, ctrs, k)) + [0], u, ctrs, k)
    decreases |u.funcs| - k
  {
    var bytes := BytesFormat(u.version);
    if k < |u.funcs| {
      hide Encode, CounterWords, BytesFormat, FunctionLaid, PerWord, FnRecords;
      var f, rest := u.funcs[k], Encode(bytes, FnRecords(u, ctrs, k + 1)) + [0];
      var cs := ctrs[f.base..f.base + f.n];
      FunctionsAreLaid(u, ctrs, k + 1);
      FnFirst(bytes, u, ctrs, k);
      FunctionIsLaid(u.version, f, cs, rest);
      var ws, first := Encode(bytes, FnRecords(u, ctrs, k)) + [0], FnWords(bytes, f, cs);
      assert ws == first + rest;
      assert ws[7 + 2 * f.n..] == rest;
    }
  }

  /** The file is laid out word by word as the format of its version asks. */
  lemma {:induction false} FileIsLaid(u: Unit, ctrs: seq<u64>, runs: u32)
    requires UnitOk(u, ctrs)
    ensures FileLaid(FileWords(u, ctrs, runs), u, ctrs, runs)
  {
    hide Encode, FnRecords, Largest, FunctionsLaid, BytesFormat, IsLargest;
    var bytes, s, rs := BytesFormat(u.version), Summary(runs, Largest(ctrs)), FnRecords(u, ctrs, 0);
    var ws, h := FileWords(u, ctrs, runs), Header(u.version, u.stamp, u.checksum);
    BytesFromB2(u.version);
    LargestIsLargest(ctrs);
    FunctionsAreLaid(u, ctrs, 0);
    assert ([s] + rs)[1..] == rs;
    FirstEncoded(bytes, [s] + rs);
    var sum := [TAG_SUMMARY, 2 * PerWord(bytes)] + s.payload;
    assert ws == h + sum + (Encode(bytes, rs) + [0]);
    assert ws[|h| + 4..] == Encode(bytes, rs) + [0];
  }

  /** The layout leaves nothing open: there is one file of a unit and its counters. */
  lemma {:induction false} FileLaidOnce(ws: seq<u32>, ws': seq<u32>, u: Unit, ctrs: seq<u64>, runs: u32)
    requires UnitOk(u, ctrs) && FileLaid(ws, u, ctrs, runs) && FileLaid(ws', u, ctrs, runs)
    ensures ws == ws'
  {
    hide FunctionsLaid;
    var h := if u.version >= 0x42320000 then 8 else 7;
    FunctionsLaidOnce(ws[h..], ws'[h..], u, ctrs, 0);
    assert ws == ws[..h] + ws[h..] && ws' == ws'[..h] + ws'[h..];
    assert ws[..h] == ws'[..h];
  }

  lemma {:induction false} FunctionsLaidOnce(ws: seq<u32>, ws': seq<u32>, u: Unit, ctrs: seq<u64>, k: nat)
    requires UnitOk(u, ctrs) && k <= |u.funcs|
    requires FunctionsLaid(ws, u, ctrs, k) && FunctionsLaid(ws', u, ctrs, k)
    ensures ws == ws'
    decreases |u.funcs| - k
  {
    hide FunctionLaid;
    if k < |u.funcs| {
      var f := u.funcs[k];
      var h := 7 + 2 * f.n;
      FunctionLaidOnce(ws, ws', u.version, f, ctrs[f.base..f.base + f.n]);
      FunctionsLaidOnce(ws[h..], ws'[h..], u, ctrs, k + 1);
      assert ws == ws[..h] + ws[h..] && ws' == ws'[..h] + ws'[h..];
    }
  }

  lemma {:induction false} FunctionLaidOnce(ws: seq<u32>, ws': seq<u32>, version: u32, f: Fn, cs: seq<u64>)
    requires FunctionLaid(ws, version, f, cs) && FunctionLaid(ws', version, f, cs)
    ensures |ws| >= 7 + 2 * |cs| && |ws'| >= 7 + 2 * |cs| && ws[..7 + 2 * |cs|] == ws'[..7 + 2 * |cs|]
  {
    forall j | 0 <= j < 7 + 2 * |cs|
      ensures ws[j] == ws'[j]
    {
      if j >= 7 {
        var i := (j - 7) / 2;
        assert j == 7 + 2 * i || j == 8 + 2 * i;
        assert ws[7 + 2 * i] == cs[i] % 0x1_0000_0000 == ws'[7 + 2 * i];
        assert ws[8 + 2 * i] == cs[i] / 0x1_0000_0000 == ws'[8 + 2 * i];
      }
    }
  }

  // ----- bytes

  /** A word's bytes: least first in the little order, most first in the big one. */
  lemma {:induction false} WordBytesAre(w: u32)
    ensures var b := [w % 0x100, w / 0x100 % 0x100, w / 0x10000 % 0x100, w / 0x1000000];
      WordBytes(Little, w) == b && WordBytes(Big, w) == [b[3], b[2], b[1], b[0]]
  {
    assert ToBytes(w, 4) == [w % 256] + ToBytes(w / 256, 3);
    assert ToBytes(w / 256, 3) == [w / 256 % 256] + ToBytes(w / 256 / 256, 2);
    assert ToBytes(w / 256 / 256, 2) == [w / 256 / 256 % 256] + ToBytes(w / 256 / 256 / 256, 1);
    assert ToBytes(w / 256 / 256 / 256, 1) == [w / 256 / 256 / 256 % 256] + [];
    assert w / 256 / 256 == w / 0x10000 && w / 256 / 256 / 256 == w / 0x1000000;
  }

  /** Each word's bytes stand at four times its place. */
  lemma {:induction false} BytesAt(o: Order, ws: seq<u32>, k: nat)
    requires k < |ws|
    ensures AllBytes(o, ws)[4 * k..4 * k + 4] == WordBytes(o, ws[k])
  {
    hide WordBytes;
    if k > 0 {
      BytesAt(o, ws[1..], k - 1);
      assert AllBytes(o, ws)[4..] == AllBytes(o, ws[1..]);
      assert AllBytes(o, ws)[4 * k..4 * k + 4] == AllBytes(o, ws[1..])[4 * (k - 1)..4 * (k - 1) + 4];
    }
  }

  /** The order is read off the first four bytes of a file that is long enough for a header. */
  lemma {:induction false} OrderFromBytes(bs: seq<byte>)
    ensures OrderOf(bs) == Some(Little) <==> |bs| >= 16 && bs[..4] == [0x61, 0x64, 0x63, 0x67]
    ensures OrderOf(bs) == Some(Big) <==> |bs| >= 16 && bs[..4] == [0x67, 0x63, 0x64, 0x61]
  {
    hide Value, ToBytes;
    if |bs| >= 16 {
      var l, b := bs[0..4], [bs[3], bs[2], bs[1], bs[0]];
      MagicBytes();
      Pow256Of4();
      ValueOfBytes(MAGIC, 4);
      MagicReversed();
      BytesOfValue(l);
      BytesOfValue(b);
      assert bs[..4] == l;
      assert bs[..4] == [0x67, 0x63, 0x64, 0x61] <==> b == [0x61, 0x64, 0x63, 0x67];
    }
  }
}
