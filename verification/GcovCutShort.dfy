/** A dump that breaks off in the log, as when a board resets while it prints: what the
extractor makes of it (src/ir/gcov.c, lines 1301 to 1317). It collects hex digits up to the
next `@`, whether they are the dump's or not. */
module GcovCutShort {
  import Arith
  import opened Bytes
  import opened FormatReader
  import opened FormatSpec
  import opened GcovFile
  import opened GcovConsole
  import opened Prelude

  // ----- what the digits say

  predicate Small(ns: seq<nat>) { forall k :: 0 <= k < |ns| ==> ns[k] < 16 }

  /** The hex digits before the first `@`. */
  function Nibbles(s: string): (ns: seq<nat>)
    ensures Small(ns)
  {
    if s == "" || s[0] == '@' then []
    else if DigitVal(s[0]) < 16 then [DigitVal(s[0])] + Nibbles(s[1..])
    else Nibbles(s[1..])
  }

  /** Two digits a byte; an odd one is left over. */
  function Paired(ns: seq<nat>): (bs: seq<byte>)
    requires Small(ns)
    ensures |bs| == |ns| / 2
  {
    if |ns| < 2 then [] else [ns[0] * 16 + ns[1]] + Paired(ns[2..])
  }

  function Waiting(hi: Option<nat>): (ns: seq<nat>)
    requires hi.Some? ==> hi.value < 16
    ensures Small(ns)
  {
    if hi.Some? then [hi.value] else []
  }

  lemma {:induction false} SmallJoin(a: seq<nat>, b: seq<nat>)
    requires Small(a) && Small(b)
    ensures Small(a + b)
  {
  }

  lemma {:induction false} NoText()
    ensures Nibbles("") == []
  {
  }

  lemma {:induction false} NibbleFirst(c: char, s: string)
    requires c != '@'
    ensures Nibbles([c] + s) == if DigitVal(c) < 16 then [DigitVal(c)] + Nibbles(s) else Nibbles(s)
  {
    assert ([c] + s)[1..] == s;
  }

  lemma {:induction false} NoneLeft(s: string)
    requires s == "" || s[0] == '@'
    ensures Nibbles(s) == []
  {
  }

  lemma {:induction false} CollectFirst(c: char, s: string, want: nat, hi: Option<nat>, img: seq<byte>)
    requires |img| < want && c != '@' && (hi.Some? ==> hi.value < 16)
    ensures Collect([c] + s, want, hi, img) ==
      if DigitVal(c) >= 16 then Collect(s, want, hi, img)
      else if hi.None? then Collect(s, want, Some(DigitVal(c)), img)
      else Collect(s, want, None, img + [hi.value * 16 + DigitVal(c)])
  {
    assert ([c] + s)[1..] == s;
  }

  lemma {:induction false} CollectStops(s: string, want: nat, hi: Option<nat>, img: seq<byte>)
    requires (s == "" || |img| >= want || s[0] == '@') && (hi.Some? ==> hi.value < 16)
    ensures Collect(s, want, hi, img).0 == img
  {
  }

  /** As many of `all` as are wanted. */
  function Front(all: seq<byte>, want: nat): seq<byte> { all[..if want < |all| then want else |all|] }

  lemma {:induction false} FrontWhole(img: seq<byte>, more: seq<byte>, want: nat)
    requires |img| <= want && (|img| == want || more == [])
    ensures Front(img + more, want) == img
  {
  }

  /** The bytes there are, and those of the digits to come. */
  function Coming(img: seq<byte>, hi: Option<nat>, ns: seq<nat>): seq<byte>
    requires (hi.Some? ==> hi.value < 16) && Small(ns)
  {
    SmallJoin(Waiting(hi), ns);
    img + Paired(Waiting(hi) + ns)
  }

  lemma {:induction false} ComingDigit(img: seq<byte>, hi: Option<nat>, v: nat, ns: seq<nat>)
    requires (hi.Some? ==> hi.value < 16) && v < 16 && Small(ns)
    ensures Small([v] + ns)
    ensures Coming(img, hi, [v] + ns) ==
      if hi.None? then Coming(img, Some(v), ns) else Coming(img + [hi.value * 16 + v], None, ns)
  {
    hide Paired;
    if hi.None? {
      assert Waiting(hi) + ([v] + ns) == Waiting(Some(v)) + ns;
    } else {
      assert Waiting(hi) + ([v] + ns) == [hi.value, v] + ns && Waiting(None) + ns == ns;
      PairedTwo(hi.value, v, ns);
      Arith.Assoc(img, [hi.value * 16 + v], Paired(ns));
    }
  }

  lemma {:induction false} ComingNone(img: seq<byte>, hi: Option<nat>, ns: seq<nat>, want: nat)
    requires (hi.Some? ==> hi.value < 16) && Small(ns) && |img| <= want && (|img| == want || ns == [])
    ensures Front(Coming(img, hi, ns), want) == img
  {
    hide Paired, Front;
    SmallJoin(Waiting(hi), ns);
    FrontWhole(img, Paired(Waiting(hi) + ns), want);
  }

  /** Collecting takes the bytes of the digits before the first `@`, as many as are wanted. */
  lemma {:induction false} CollectTakes(s: string, want: nat, hi: Option<nat>, img: seq<byte>)
    requires |img| <= want && (hi.Some? ==> hi.value < 16)
    ensures Collect(s, want, hi, img).0 == Front(Coming(img, hi, Nibbles(s)), want)
    decreases |s|
  {
    hide DigitVal, Nibbles, Collect, Front, Coming, Small;
    if s == "" || |img| >= want || s[0] == '@' {
      CollectStops(s, want, hi, img);
      if |img| < want {
        NoneLeft(s);
      }
      ComingNone(img, hi, Nibbles(s), want);
    } else {
      var c, t := s[0], s[1..];
      assert s == [c] + t;
      NibbleFirst(c, t);
      CollectFirst(c, t, want, hi, img);
      if DigitVal(c) >= 16 {
        CollectTakes(t, want, hi, img);
      } else {
        ComingDigit(img, hi, DigitVal(c), Nibbles(t));
        if hi.None? {
          CollectTakes(t, want, Some(DigitVal(c)), img);
        } else {
          CollectTakes(t, want, None, img + [hi.value * 16 + DigitVal(c)]);
        }
      }
    }
  }

  lemma {:induction false} PairedTwo(x: nat, y: nat, ns: seq<nat>)
    requires x < 16 && y < 16 && Small(ns)
    ensures Paired([x, y] + ns) == [x * 16 + y] + Paired(ns)
  {
    assert ([x, y] + ns)[2..] == ns;
  }

  /** A file is told to be cut short if and only if the digits before the next `@` are too few
      for its size, or those there are do not start as a .gcda file does. */
  lemma {:induction false} CutShortIff(s: string)
    ensures var rest := s[|PathOf(s)|..];
      var want, ns := Strtoul(rest), Nibbles(AfterLine(rest));
      EntryOf(s).0.CutShort? <==> |ns| < 2 * want || OrderOf(Paired(ns)[..want]).None?
  {
    hide Strtoul, AfterLine, PathOf, Collect, OrderOf, Paired, Nibbles;
    var rest := s[|PathOf(s)|..];
    var want, ns := Strtoul(rest), Nibbles(AfterLine(rest));
    CollectTakes(AfterLine(rest), want, None, []);
    assert Waiting(None) + ns == ns && [] + Paired(ns) == Paired(ns);
  }

  // ----- the digits of a dump

  predicate NoAt(s: string) { forall k :: 0 <= k < |s| ==> s[k] != '@' }

  lemma {:induction false} NibblesAppend(a: string, b: string)
    requires NoAt(a)
    ensures Nibbles(a + b) == Nibbles(a) + Nibbles(b)
  {
    hide DigitVal;
    if a == "" {
      assert a + b == b;
    } else {
      assert (a + b)[1..] == a[1..] + b;
      NibblesAppend(a[1..], b);
    }
  }

  lemma {:induction false} PairedAppend(a: seq<nat>, b: seq<nat>)
    requires |a| % 2 == 0
    requires Small(a) && Small(b)
    ensures Paired(a + b) == Paired(a) + Paired(b)
  {
    if a == [] {
      assert a + b == b;
    } else {
      assert (a + b)[2..] == a[2..] + b;
      PairedAppend(a[2..], b);
    }
  }

  lemma {:induction false} HexNibbles(bs: seq<byte>, at: nat)
    ensures NoAt(Hex(bs, at)) && |Nibbles(Hex(bs, at))| == 2 * |bs| && Paired(Nibbles(Hex(bs, at))) == bs
  {
    if bs != [] {
      hide Hex;
      var h := HexByte(bs[0]) + NewLine(at);
      HexFirst(bs, at);
      HexNibbles(bs[1..], at + 1);
      OneByte(bs[0], at);
      NibblesAppend(h, Hex(bs[1..], at + 1));
      PairedAppend(Nibbles(h), Nibbles(Hex(bs[1..], at + 1)));
    }
  }

  lemma {:induction false} OneByte(b: byte, at: nat)
    ensures var h := HexByte(b) + NewLine(at);
      NoAt(h) && |Nibbles(h)| == 2 && Paired(Nibbles(h)) == [b]
  {
    hide Nibbles, Paired, NewLine;
    DigitOfHex(b / 16);
    DigitOfHex(b % 16);
    NoDigits(at);
    assert HexByte(b) + NewLine(at) == [LOWER[b / 16], LOWER[b % 16]] + NewLine(at);
    TwoDigits(b / 16, b % 16, NewLine(at));
  }

  lemma {:induction false} TwoDigits(x: nat, y: nat, n: string)
    requires x < 16 && y < 16 && NoAt(n) && Nibbles(n) == []
    ensures NoAt([LOWER[x], LOWER[y]] + n)
    ensures Nibbles([LOWER[x], LOWER[y]] + n) == [x, y] && Paired([x, y]) == [x * 16 + y]
  {
    hide Nibbles, Paired, DigitVal;
    DigitOfHex(x);
    DigitOfHex(y);
    assert [LOWER[x], LOWER[y]] + n == [LOWER[x]] + ([LOWER[y]] + n);
    NibbleFirst(LOWER[y], n);
    NibbleFirst(LOWER[x], [LOWER[y]] + n);
    assert [x, y] == [x, y] + [];
    PairedTwo(x, y, []);
    PairedNone();
  }

  lemma {:induction false} PairedNone()
    ensures Paired([]) == []
  {
  }

  lemma {:induction false} NoDigits(at: nat)
    ensures Nibbles(NewLine(at)) == [] && NoAt(NewLine(at))
  {
    assert "\n"[1..] == "";
  }

  // ----- a dump that breaks off

  /** The marker line's text after the marker, a dump of which `j` characters were printed, and
      what the log says next. */
  function CutBody(path: string, bs: seq<byte>, j: nat, after: string): string
    requires j <= |Hex(bs, 0)|
  {
    path + (" " + (Decimal(|bs|) + ("\n" + (Hex(bs, 0)[..j] + after))))
  }

  /** What is collected for such a dump. */
  lemma {:induction false} CutReads(path: string, bs: seq<byte>, j: nat, after: string)
    requires PlainPath(path) && |bs| <= ULONG_MAX && j <= |Hex(bs, 0)|
    ensures var s := CutBody(path, bs, j, after);
      && PathOf(s) == path && Strtoul(s[|path|..]) == |bs|
      && Nibbles(AfterLine(s[|path|..])) == Nibbles(Hex(bs, 0)[..j]) + Nibbles(after)
  {
    hide Decimal, Hex, Strtoul, PathOf, AfterLine, Nibbles;
    var s, d, hex := CutBody(path, bs, j, after), Decimal(|bs|), Hex(bs, 0)[..j];
    PathBack(path, d + ("\n" + (hex + after)));
    var rest := " " + (d + ("\n" + (hex + after)));
    assert s[|path|..] == rest;
    DecimalBack(|bs|, "\n" + (hex + after));
    assert rest == " " + d + ("\n" + (hex + after));
    LineSkipped(" " + d, hex + after);
    HexNibbles(bs, 0);
    assert NoAt(hex);
    NewLineFirst(hex + after);
    NibblesAppend(hex, after);
  }

  lemma {:induction false} NewLineFirst(s: string)
    ensures Nibbles("\n" + s) == Nibbles(s)
  {
    assert ("\n" + s)[1..] == s;
  }

  /** The digits printed are the image's first ones. */
  lemma {:induction false} CutDigits(bs: seq<byte>, j: nat)
    requires j <= |Hex(bs, 0)|
    ensures var got := Nibbles(Hex(bs, 0)[..j]);
      |got| <= 2 * |bs| && got <= Nibbles(Hex(bs, 0))
  {
    hide Hex, Nibbles;
    var hex := Hex(bs, 0);
    HexNibbles(bs, 0);
    assert hex == hex[..j] + hex[j..] && NoAt(hex[..j]);
    NibblesAppend(hex[..j], hex[j..]);
  }

  lemma {:induction false} PairedPrefix(ns: seq<nat>, n: nat)
    requires 2 * n <= |ns| && Small(ns)
    ensures Paired(ns)[..n] == Paired(ns[..2 * n])
  {
    hide Paired;
    assert ns == ns[..2 * n] + ns[2 * n..];
    PairedAppend(ns[..2 * n], ns[2 * n..]);
  }

  lemma {:induction false} SameMagic(a: seq<byte>, b: seq<byte>)
    requires |a| == |b| >= 4 && a[..4] == b[..4]
    ensures OrderOf(a) == OrderOf(b)
  {
    hide Value;
    assert a[0..4] == b[0..4];
    assert forall k :: 0 <= k < 4 ==> a[k] == a[..4][k] && b[k] == b[..4][k];
  }

  /** A dump that breaks off after its magic is told to be cut short if and only if the digits in
      the text up to the next `@` are fewer than those it misses. If they are not, the entry is
      taken as whole, its end made of that text's digits. */
  lemma {:induction false} CutDump(path: string, bs: seq<byte>, j: nat, after: string)
    requires PlainPath(path) && OrderOf(bs).Some? && |bs| <= ULONG_MAX && j <= |Hex(bs, 0)|
    requires |Nibbles(Hex(bs, 0)[..j])| >= 8
    ensures var missing, e := 2 * |bs| - |Nibbles(Hex(bs, 0)[..j])|, EntryOf(CutBody(path, bs, j, after)).0;
      && missing >= 0
      && (e == CutShort(path) <==> |Nibbles(after)| < missing)
      && (e != CutShort(path) ==>
            e == Got(path, Paired(Nibbles(Hex(bs, 0)[..j]) + Nibbles(after)[..missing])))
  {
    hide Hex, Nibbles, CutBody, OrderOf, PathOf, Strtoul, AfterLine, Paired, Collect, PlainPath;
    var s, got, more := CutBody(path, bs, j, after), Nibbles(Hex(bs, 0)[..j]), Nibbles(after);
    var all, want := got + more, |bs|;
    CutReads(path, bs, j, after);
    CutDigits(bs, j);
    CutShortIff(s);
    if |all| >= 2 * want {
      PairedPrefix(all, want);
      assert all[..2 * want] == got + more[..2 * want - |got|];
      assert all[..8] == got[..8] == Nibbles(Hex(bs, 0))[..8];
      StartsAlike(bs, all);
      SameMagic(bs, Paired(all)[..want]);
    }
    EntryIs(s);
  }

  lemma {:induction false} EntryIs(s: string)
    ensures var e, rest := EntryOf(s).0, s[|PathOf(s)|..];
      var want, ns := Strtoul(rest), Nibbles(AfterLine(rest));
      e.path == PathOf(s) && (e.Got? ==> |ns| >= 2 * want && e.img == Paired(ns)[..want])
  {
    hide Strtoul, AfterLine, PathOf, Collect, OrderOf, Paired, Nibbles;
    var rest := s[|PathOf(s)|..];
    var want, ns := Strtoul(rest), Nibbles(AfterLine(rest));
    CollectTakes(AfterLine(rest), want, None, []);
    assert Waiting(None) + ns == ns && [] + Paired(ns) == Paired(ns);
  }

  /** Four bytes of the magic, then anything. */
  lemma {:induction false} StartsAlike(bs: seq<byte>, all: seq<nat>)
    requires |bs| >= 4 && |all| >= 2 * |bs| && Small(all)
    requires |Nibbles(Hex(bs, 0))| >= 8 && all[..8] == Nibbles(Hex(bs, 0))[..8]
    ensures Paired(all)[..|bs|][..4] == bs[..4]
  {
    hide Hex, Nibbles, Paired;
    HexNibbles(bs, 0);
    PairedPrefix(all, 4);
    PairedPrefix(Nibbles(Hex(bs, 0)), 4);
    assert Paired(all)[..|bs|][..4] == Paired(all)[..4];
  }

  /** A failing log: a dump one byte short of its end, and the board says "reset". The two hex
      digits of that word are taken for the missing byte. */
  lemma {:induction false} ResetIsTakenForAByte(path: string, bs: seq<byte>)
    requires PlainPath(path) && OrderOf(bs).Some? && |bs| <= ULONG_MAX && bs[|bs| - 1] != 0xee
    ensures |bs| >= 16
    ensures var j := |Hex(bs[..|bs| - 1], 0)|;
      && j <= |Hex(bs, 0)|
      && EntryOf(CutBody(path, bs, j, "\nreset")).0 == Got(path, bs[..|bs| - 1] + [0xee]) != Got(path, bs)
  {
    hide Hex, Nibbles, CutBody, OrderOf, Paired, PlainPath;
    SixteenBytes(bs);
    var n := |bs| - 1;
    var a, j := bs[..n], |Hex(bs[..n], 0)|;
    assert bs == a + [bs[n]];
    HexAppend(a, [bs[n]], 0);
    assert Hex(bs, 0)[..j] == Hex(a, 0);
    HexNibbles(a, 0);
    ResetDigits();
    CutDump(path, bs, j, "\nreset");
    PairedAppend(Nibbles(Hex(a, 0)), [14, 14]);
    OneMore();
    assert (a + [0xee])[n] == 0xee;
  }

  lemma {:induction false} SixteenBytes(bs: seq<byte>)
    requires OrderOf(bs).Some?
    ensures |bs| >= 16
  {
  }

  lemma {:induction false} ResetDigits()
    ensures Nibbles("\nreset") == [14, 14] && [14, 14][..2] == [14, 14]
  {
    hide Nibbles, DigitVal;
    ResetValues();
    NibbleFirst('t', "");
    NibbleFirst('e', "t");
    NibbleFirst('s', "et");
    NibbleFirst('e', "set");
    NibbleFirst('r', "eset");
    NibbleFirst('\n', "reset");
    assert "\nreset" == ['\n'] + "reset" && "reset" == ['r'] + "eset" && "eset" == ['e'] + "set";
    assert "set" == ['s'] + "et" && "et" == ['e'] + "t" && "t" == ['t'] + "";
    NoText();
  }

  lemma {:induction false} ResetValues()
    ensures DigitVal('e') == 14
    ensures DigitVal('t') == DigitVal('s') == DigitVal('r') == DigitVal('\n') == 16
  {
  }

  lemma {:induction false} OneMore()
    ensures Paired([14, 14]) == [0xee]
  {
    assert [14, 14][2..] == [];
  }
}
