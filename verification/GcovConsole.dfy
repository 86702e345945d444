/** A .gcda file on the console (lib/gcov/gcov.c, lines 95 to 170) and back: the marker
lines, the hex between them, and the host's `--gcov-extract` (src/ir/gcov.c) that finds the
files again in a board's whole output. */
module GcovConsole {
  import Arith
  import opened Bytes
  import opened FormatNumbers
  import opened FormatSpec
  import opened FormatReader
  import opened GcovFile
  import opened Prelude

  function HexByte(b: byte): (s: string)
    ensures |s| == 2
  {
    [LOWER[b / 16], LOWER[b % 16]]
  }

  /** Two digits a byte, a new line after every 32 bytes; `at` bytes came before. */
  function Hex(bs: seq<byte>, at: nat): string {
    if bs == [] then "" else HexByte(bs[0]) + NewLine(at) + Hex(bs[1..], at + 1)
  }

  function NewLine(at: nat): string { if (at + 1) % 32 == 0 then "\n" else "" }

  /** A file as it is printed. */
  function Printed(path: string, bs: seq<byte>): string {
    "\n@gcda " + path + " " + Decimal(|bs|) + "\n" + Hex(bs, 0) + "\n@end\n"
  }

  lemma {:induction false} HexFirst(bs: seq<byte>, at: nat)
    requires bs != []
    ensures Hex(bs, at) == HexByte(bs[0]) + NewLine(at) + Hex(bs[1..], at + 1)
  {
  }

  lemma {:induction false} HexAppend(a: seq<byte>, b: seq<byte>, at: nat)
    ensures Hex(a + b, at) == Hex(a, at) + Hex(b, at + |a|)
  {
    if a == [] {
      assert a + b == b;
    } else {
      hide HexByte, NewLine, Hex;
      assert (a + b)[1..] == a[1..] + b;
      HexFirst(a, at);
      HexFirst(a + b, at);
      HexAppend(a[1..], b, at + 1);
      Arith.Assoc(HexByte(a[0]) + NewLine(at), Hex(a[1..], at + 1), Hex(b, at + |a|));
    }
  }

  function HexDigit(n: nat): char
    requires n < 16
  {
    if n < 10 then (('0' as int) + n) as char else (('a' as int) + n - 10) as char
  }

  lemma {:induction false} HexByteIs(b: byte)
    ensures HexByte(b) == [HexDigit(b / 16), HexDigit(b % 16)]
  {
  }

  /** One more byte at the end. */
  lemma {:induction false} HexOne(bs: seq<byte>, b: byte)
    ensures Hex(bs + [b], 0) == Hex(bs, 0) + HexByte(b) + NewLine(|bs|)
  {
    hide HexByte, NewLine;
    HexAppend(bs, [b], 0);
    assert [b][1..] == [];
    assert Hex([b], |bs|) == HexByte(b) + NewLine(|bs|) + "";
  }

  /** Byte `k` is two small hexadecimal digits, the high one first, after `k` bytes and a line end
      for each 32 of them; a line ends after each 32 bytes. */
  lemma {:induction false} HexShows(bs: seq<byte>, k: nat)
    requires k < |bs|
    ensures |Hex(bs, 0)| == 2 * |bs| + |bs| / 32
    ensures var h, i := Hex(bs, 0), 2 * k + k / 32;
      && h[i] == HexDigit(bs[k] / 16) && h[i + 1] == HexDigit(bs[k] % 16)
      && ((k + 1) % 32 == 0 ==> h[i + 2] == '\n')
    decreases |bs|
  {
    hide HexByte, HexDigit, Hex;
    var n := |bs| - 1;
    var a, b := bs[..n], bs[n];
    assert bs == a + [b];
    HexOne(a, b);
    HexByteIs(b);
    if k < n {
      HexShows(a, k);
    } else if n > 0 {
      HexShows(a, n - 1);
    } else {
      HexNone();
      assert a == [];
    }
  }

  lemma {:induction false} HexNone()
    ensures Hex([], 0) == ""
  {
  }

  // ----- the extractor, on what is left of the log

  const MARKER := "@gcda "

  /** What follows the first marker. */
  function AfterMarker(s: string): Option<string> {
    if MARKER <= s then Some(s[6..]) else if s == "" then None else AfterMarker(s[1..])
  }

  predicate EndsPath(c: char) { c == ' ' || c == '\n' || c == '\r' }

  function PathOf(s: string): (p: string)
    ensures |p| <= |s|
  {
    if s == "" || EndsPath(s[0]) then "" else [s[0]] + PathOf(s[1..])
  }

  function AfterLine(s: string): (r: string)
    ensures |r| <= |s|
  {
    if s == "" || s[0] == '\n' then s else AfterLine(s[1..])
  }

  predicate IsBlank(c: char) { c == ' ' || 9 as char <= c <= 13 as char }

  function SkipBlanks(s: string): string {
    if s != "" && IsBlank(s[0]) then SkipBlanks(s[1..]) else s
  }

  function DecimalOf(s: string, acc: nat): nat {
    if s != "" && '0' <= s[0] <= '9' then DecimalOf(s[1..], acc * 10 + DigitVal(s[0])) else acc
  }

  const ULONG_MAX := 0xffff_ffff_ffff_ffff

  /** strtoul, base 10. */
  function Strtoul(s: string): nat {
    var t := SkipBlanks(s);
    var signed := t != "" && (t[0] == '-' || t[0] == '+');
    var v := DecimalOf(if signed then t[1..] else t, 0);
    if v > ULONG_MAX then ULONG_MAX
    else if signed && t[0] == '-' && v > 0 then ULONG_MAX + 1 - v
    else v
  }

  /** The bytes collected from hex digits, anything else but `@` passed over, and what is
      left of the text. `hi` is a digit that waits for its second half. */
  function Collect(s: string, want: nat, hi: Option<nat>, img: seq<byte>): (r: (seq<byte>, string))
    requires hi.Some? ==> hi.value < 16
    ensures |r.1| <= |s|
  {
    if s == "" || |img| >= want || s[0] == '@' then (img, s)
    else
      var v := DigitVal(s[0]);
      if v >= 16 then Collect(s[1..], want, hi, img)
      else if hi.None? then Collect(s[1..], want, Some(v), img)
      else Collect(s[1..], want, None, img + [hi.value * 16 + v])
  }

  datatype Entry = Got(path: string, img: seq<byte>) | CutShort(path: string)

  /** One file, from after its marker. */
  function EntryOf(s: string): (Entry, string) {
    var path := PathOf(s);
    var rest := s[|path|..];
    var want := Strtoul(rest);
    var (img, left) := Collect(AfterLine(rest), want, None, []);
    (if |img| == want && OrderOf(img).Some? then Got(path, img) else CutShort(path), left)
  }

  lemma {:induction false} AfterMarkerShorter(s: string)
    ensures AfterMarker(s).Some? ==> |AfterMarker(s).value| < |s|
  {
    if !(MARKER <= s) && s != "" {
      AfterMarkerShorter(s[1..]);
    }
  }

  /** Every file in the log. */
  function Extract(s: string): seq<Entry>
    decreases |s|
  {
    var m := AfterMarker(s);
    AfterMarkerShorter(s);
    if m.None? then [] else
    var (e, left) := EntryOf(m.value);
    [e] + Extract(left)
  }

  // ----- what was printed is extracted

  lemma {:induction false} DigitOfHex(d: nat)
    requires d < 16
    ensures DigitVal(LOWER[d]) == d && LOWER[d] != '@'
  {
  }

  lemma {:induction false} CollectByte(b: byte, s: string, want: nat, img: seq<byte>)
    requires |img| < want
    ensures Collect(HexByte(b) + s, want, None, img) == Collect(s, want, None, img + [b])
  {
    var t := HexByte(b) + s;
    DigitOfHex(b / 16);
    DigitOfHex(b % 16);
    assert t[1..] == [LOWER[b % 16]] + s && t[1..][1..] == s;
    assert Collect(t, want, None, img) == Collect(t[1..], want, Some(b / 16), img);
    assert b / 16 * 16 + b % 16 == b;
  }

  /** A new line that the last byte's digits leave behind. */
  function LastLine(bs: seq<byte>, at: nat): string {
    if bs == [] then "" else NewLine(at + |bs| - 1)
  }

  /** Hex digits, new lines and all, give the bytes back. */
  lemma {:induction false} CollectHex(bs: seq<byte>, at: nat, tail: string, img: seq<byte>)
    ensures Collect(Hex(bs, at) + tail, |img| + |bs|, None, img) == (img + bs, LastLine(bs, at) + tail)
  {
    hide Collect, HexByte, NewLine;
    var want := |img| + |bs|;
    if bs == [] {
      assert Hex(bs, at) + tail == tail && img + bs == img;
      CollectDone(tail, want, img);
    } else {
      var rest := Hex(bs[1..], at + 1);
      assert Hex(bs, at) + tail == HexByte(bs[0]) + (NewLine(at) + (rest + tail));
      CollectByte(bs[0], NewLine(at) + (rest + tail), want, img);
      if bs[1..] == [] {
        assert rest + tail == tail && img + [bs[0]] == img + bs;
        CollectDone(NewLine(at) + tail, want, img + bs);
      } else {
        SkipNewLine(at, rest + tail, want, img + [bs[0]]);
        CollectHex(bs[1..], at + 1, tail, img + [bs[0]]);
        assert img + [bs[0]] + bs[1..] == img + bs;
      }
    }
  }

  lemma {:induction false} CollectDone(s: string, want: nat, img: seq<byte>)
    requires |img| >= want
    ensures Collect(s, want, None, img) == (img, s)
  {
  }

  lemma {:induction false} SkipNewLine(at: nat, s: string, want: nat, img: seq<byte>)
    requires |img| < want
    ensures Collect(NewLine(at) + s, want, None, img) == Collect(s, want, None, img)
  {
    if (at + 1) % 32 == 0 {
      assert ("\n" + s)[1..] == s;
    } else {
      assert "" + s == s;
    }
  }

  // ----- markers and other text

  /** No marker starts in the text. */
  predicate Quiet(s: string) { forall k :: 0 <= k <= |s| ==> !(MARKER <= s[k..]) }

  /** A quiet text with a line end after it is passed over. */
  lemma {:induction false} QuietSkipped(s: string, rest: string)
    requires Quiet(s)
    ensures AfterMarker(s + "\n" + rest) == AfterMarker(rest)
  {
    var t := s + "\n" + rest;
    if s == "" {
      assert t[0] == '\n' && t[1..] == rest;
      assert !(MARKER <= t);
    } else {
      assert t[1..] == s[1..] + "\n" + rest;
      QuietTail(s, 1);
      NoMarkerAcross(s, rest);
      QuietSkipped(s[1..], rest);
    }
  }

  lemma {:induction false} NoMarkerAcross(s: string, rest: string)
    requires Quiet(s)
    ensures !(MARKER <= s + "\n" + rest)
  {
    var t := s + "\n" + rest;
    assert s[0..] == s && t[|s|] == '\n';
  }

  /** Quiet texts with a line end between them are quiet together. */
  lemma {:induction false} QuietJoin(a: string, b: string)
    requires Quiet(a) && Quiet(b)
    ensures Quiet(a + "\n" + b)
  {
    var t := a + "\n" + b;
    forall k | 0 <= k <= |t|
      ensures !(MARKER <= t[k..])
    {
      if k <= |a| {
        assert t[k..] == a[k..] + "\n" + b;
        assert Quiet(a[k..]) by { QuietTail(a, k); }
        NoMarkerAcross(a[k..], b);
      } else {
        assert t[k..] == b[k - |a| - 1..];
      }
    }
  }

  lemma {:induction false} QuietTail(a: string, k: nat)
    requires Quiet(a) && k <= |a|
    ensures Quiet(a[k..])
  {
    forall j | 0 <= j <= |a[k..]|
      ensures !(MARKER <= a[k..][j..])
    {
      assert a[k..][j..] == a[k + j..];
    }
  }

  // ----- the marker line

  predicate PlainPath(p: string) { forall k :: 0 <= k < |p| ==> !EndsPath(p[k]) }

  /** A path ends before the first space or line end, or where the text does. */
  lemma {:induction false} PathEnds(s: string)
    ensures var p := PathOf(s);
      && p <= s
      && ' ' !in p && '\n' !in p && '\r' !in p
      && (|p| < |s| ==> s[|p|] == ' ' || s[|p|] == '\n' || s[|p|] == '\r')
  {
    if s != "" && !EndsPath(s[0]) {
      PathEnds(s[1..]);
      assert s == [s[0]] + s[1..];
    }
  }

  /** The marker line ends at the first line end, which is still to be read. */
  lemma {:induction false} LineEnds(s: string)
    ensures var r := AfterLine(s);
      && |r| <= |s| && s[|s| - |r|..] == r && '\n' !in s[..|s| - |r|]
      && (r != "" ==> r[0] == '\n')
  {
    if s != "" && s[0] != '\n' {
      LineEnds(s[1..]);
      var r := AfterLine(s[1..]);
      var n := |s| - |r|;
      assert s[..n] == [s[0]] + s[1..][..n - 1];
    }
  }

  lemma {:induction false} PathBack(p: string, rest: string)
    requires PlainPath(p)
    ensures PathOf(p + (" " + rest)) == p
  {
    var t := p + (" " + rest);
    if p != "" {
      assert t[1..] == p[1..] + (" " + rest);
      PathBack(p[1..], rest);
      assert p == [p[0]] + p[1..];
    }
  }

  lemma {:induction false} LineSkipped(s: string, rest: string)
    requires forall k :: 0 <= k < |s| ==> s[k] != '\n'
    ensures AfterLine(s + ("\n" + rest)) == "\n" + rest
  {
    var t := s + ("\n" + rest);
    if s == "" {
      assert t == "\n" + rest;
    } else {
      assert t[1..] == s[1..] + ("\n" + rest);
      LineSkipped(s[1..], rest);
    }
  }

  /** The digits of a number, up to a character that is none. */
  lemma {:induction false} DecimalScan(s: string, k: nat, rest: string)
    requires k <= |s| && AllDecimal(s) && (rest == "" || !('0' <= rest[0] <= '9'))
    ensures DecimalOf(s[k..] + rest, ReadDigits(10, s[..k])) == ReadDigits(10, s)
    decreases |s| - k
  {
    var t := s[k..] + rest;
    if k == |s| {
      assert t == rest && s[..k] == s;
    } else {
      assert t[1..] == s[k + 1..] + rest && t[0] == s[k];
      assert s[..k + 1][..k] == s[..k];
      DecimalScan(s, k + 1, rest);
    }
  }

  lemma {:induction false} DecimalBack(n: nat, rest: string)
    requires n <= ULONG_MAX && (rest == "" || !('0' <= rest[0] <= '9'))
    ensures Strtoul(" " + Decimal(n) + rest) == n
    ensures AllDecimal(Decimal(n))
  {
    hide DecimalOf, ReadDigits, Digits, DigitText, NumberOf, Reversed;
    var d := Decimal(n);
    DecimalReads(n);
    DecimalScan(d, 0, rest);
    assert d[0..] == d && d[..0] == "";
    NoDigit();
    var s := " " + d + rest;
    assert s[1..] == d + rest && (d + rest)[0] == d[0];
    assert SkipBlanks(s) == d + rest;
  }

  // ----- the whole log

  /** A file printed, and what else the console said before the next. */
  datatype Dump = Dump(path: string, img: seq<byte>, after: string)

  predicate DumpOk(d: Dump) {
    PlainPath(d.path) && OrderOf(d.img).Some? && |d.img| <= ULONG_MAX && Quiet(d.after)
  }

  function LogOf(first: string, ds: seq<Dump>): string
    decreases ds
  {
    if ds == [] then first else first + Printed(ds[0].path, ds[0].img) + LogOf(ds[0].after, ds[1..])
  }

  function Entries(ds: seq<Dump>): seq<Entry> {
    if ds == [] then [] else [Got(ds[0].path, ds[0].img)] + Entries(ds[1..])
  }

  /** The marker line, the digits and what follows them. */
  function Body(path: string, bs: seq<byte>, tail: string): string {
    path + (" " + (Decimal(|bs|) + ("\n" + (Hex(bs, 0) + tail))))
  }

  /** Blanks as strtoul takes them: the space and the five control characters from 9 on. */
  predicate AllBlank(b: string) { forall k :: 0 <= k < |b| ==> (b[k] as int) == 32 || 9 <= (b[k] as int) <= 13 }

  /** Blanks, a sign or none, and digits: the number if it fits 64 bits, its negative modulo 2^64
      after `-`, and the largest number if it does not fit. */
  lemma {:induction false} StrtoulReads(b: string, sign: string, t: string, rest: string)
    requires AllBlank(b) && sign in {"", "+", "-"} && t != "" && AllDecimal(t)
    requires rest == "" || !('0' <= rest[0] <= '9')
    ensures var v := ReadDigits(10, t);
      Strtoul(b + (sign + (t + rest))) ==
      if v >= 0x1_0000_0000_0000_0000 then 0xffff_ffff_ffff_ffff
      else if sign == "-" && v > 0 then 0x1_0000_0000_0000_0000 - v
      else v
  {
    hide ReadDigits, DecimalOf;
    var u := sign + (t + rest);
    BlanksSkipped(b, u);
    DecimalScan(t, 0, rest);
    assert t[0..] == t && t[..0] == "";
    NoDigit();
    if sign != "" {
      assert u[1..] == t + rest;
    } else {
      assert u == t + rest;
    }
  }

  lemma {:induction false} BlanksSkipped(b: string, u: string)
    requires AllBlank(b) && u != "" && !IsBlank(u[0])
    ensures SkipBlanks(b + u) == u
    decreases b
  {
    if b == "" {
      assert b + u == u;
    } else {
      assert (b + u)[1..] == b[1..] + u;
      BlanksSkipped(b[1..], u);
    }
  }

  lemma {:induction false} EntryBack(path: string, bs: seq<byte>, tail: string)
    requires PlainPath(path) && OrderOf(bs).Some? && |bs| <= ULONG_MAX
    ensures EntryOf(Body(path, bs, tail)) == (Got(path, bs), LastLine(bs, 0) + tail)
  {
    hide Decimal, Hex, Strtoul, Collect, PathOf, AfterLine, LastLine, WordAt;
    var s, d, hex := Body(path, bs, tail), Decimal(|bs|), Hex(bs, 0);
    PathBack(path, d + ("\n" + (hex + tail)));
    var rest := " " + (d + ("\n" + (hex + tail)));
    assert s[|path|..] == rest;
    DecimalBack(|bs|, "\n" + (hex + tail));
    assert rest == " " + d + ("\n" + (hex + tail));
    LineSkipped(" " + d, hex + tail);
    CollectHex(bs, 0, tail, []);
    assert [] + bs == bs;
    LeadingLine(hex + tail, |bs|);
  }

  lemma {:induction false} LeadingLine(s: string, want: nat)
    requires want > 0
    ensures Collect("\n" + s, want, None, []) == Collect(s, want, None, [])
  {
    assert ("\n" + s)[1..] == s;
  }

  lemma {:induction false} MarkerFound(s: string)
    ensures AfterMarker(MARKER + s) == Some(s)
  {
  }

  /** The text after a file's digits is quiet up to the next file. */
  lemma {:induction false} EndIsQuiet(bs: seq<byte>, after: string)
    requires Quiet(after)
    ensures Quiet(LastLine(bs, 0) + "\n@end" + "\n" + after)
  {
    ShortIsQuiet(LastLine(bs, 0) + "\n@end");
    QuietJoin(LastLine(bs, 0) + "\n@end", after);
  }

  lemma {:induction false} ShortIsQuiet(s: string)
    requires |s| < 6 || (|s| == 6 && s[0] != '@')
    ensures Quiet(s)
  {
    forall k | 0 <= k <= |s|
      ensures !(MARKER <= s[k..])
    {
      assert |s[k..]| < 6 || s[k..][0] != '@';
    }
  }

  /** A board's whole output, dumps among other text, gives back exactly the files dumped:
      their paths and every byte of their images, in order. */
  lemma {:induction false} ExtractsWhatWasPrinted(first: string, ds: seq<Dump>)
    requires Quiet(first) && forall k :: 0 <= k < |ds| ==> DumpOk(ds[k])
    ensures Extract(LogOf(first, ds)) == Entries(ds)
    decreases ds
  {
    hide EntryOf, AfterMarker, Quiet, Body, PlainPath, OrderOf;
    if ds == [] {
      QuietNone(first);
    } else {
      var d, rest := ds[0], LogOf(ds[0].after, ds[1..]);
      assert DumpOk(d);
      var tail := "\n@end\n" + rest;
      LogSplits(first, d, rest);
      QuietSkipped(first, MARKER + Body(d.path, d.img, tail));
      MarkerFound(Body(d.path, d.img, tail));
      EntryBack(d.path, d.img, tail);
      var next := LastLine(d.img, 0) + "\n@end" + "\n" + d.after;
      EndIsQuiet(d.img, d.after);
      LogPrefix(LastLine(d.img, 0) + "\n@end" + "\n", d.after, ds[1..]);
      assert LastLine(d.img, 0) + tail == LastLine(d.img, 0) + "\n@end" + "\n" + rest;
      ExtractsWhatWasPrinted(next, ds[1..]);
    }
  }

  lemma {:induction false} QuietNone(s: string)
    requires Quiet(s)
    ensures AfterMarker(s) == None
  {
    assert s[0..] == s;
    if s != "" {
      QuietTail(s, 1);
      QuietNone(s[1..]);
    }
  }

  lemma {:induction false} LogPrefix(a: string, b: string, ds: seq<Dump>)
    ensures LogOf(a + b, ds) == a + LogOf(b, ds)
  {
    if ds != [] {
      var p, r := Printed(ds[0].path, ds[0].img), LogOf(ds[0].after, ds[1..]);
      assert (a + b) + p + r == a + (b + p + r);
    }
  }

  lemma {:induction false} LogSplits(first: string, d: Dump, rest: string)
    ensures first + Printed(d.path, d.img) + rest
      == first + "\n" + (MARKER + Body(d.path, d.img, "\n@end\n" + rest))
  {
    hide Decimal, Hex;
    var n, h := Decimal(|d.img|), Hex(d.img, 0);
    assert "\n@gcda " == "\n" + MARKER;
    assert Printed(d.path, d.img) + rest == "\n" + (MARKER + Body(d.path, d.img, "\n@end\n" + rest));
  }

  // ----- which paths survive

  lemma {:induction false} PathIsPlain(s: string)
    ensures PlainPath(PathOf(s))
  {
    if s != "" && !EndsPath(s[0]) {
      PathIsPlain(s[1..]);
    }
  }

  /** A file comes back under its own path exactly when the path has no space or line end in
      it: the extractor takes the path to end there. */
  lemma {:induction false} PathSurvives(path: string, bs: seq<byte>)
    requires OrderOf(bs).Some? && |bs| <= ULONG_MAX
    ensures Extract(Printed(path, bs)) == [Got(path, bs)] <==> PlainPath(path)
  {
    hide EntryOf, AfterMarker, Quiet, Body, OrderOf, PlainPath;
    if PlainPath(path) {
      ShortIsQuiet("");
      var d := Dump(path, bs, "");
      assert "" + Printed(path, bs) + "" == Printed(path, bs);
      assert LogOf("", [d]) == Printed(path, bs);
      assert [d][1..] == [];
      ExtractsWhatWasPrinted("", [d]);
    } else if Extract(Printed(path, bs)) == [Got(path, bs)] {
      FirstIsPlain(Printed(path, bs));
    }
  }

  lemma {:induction false} FirstIsPlain(s: string)
    requires Extract(s) != []
    ensures PlainPath(Extract(s)[0].path)
  {
    hide PlainPath;
    PathIsPlain(AfterMarker(s).value);
  }

  /** A path with a space in it is cut there. */
  lemma {:induction false} SpacedPathIsCut(bs: seq<byte>)
    requires OrderOf(bs).Some? && |bs| <= ULONG_MAX
    ensures Extract(Printed("my prog.gcda", bs)) != [Got("my prog.gcda", bs)]
  {
    assert EndsPath("my prog.gcda"[2]);
    PathSurvives("my prog.gcda", bs);
  }
}
