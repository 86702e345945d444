/** The host's reading of a log (src/ir/gcov.c, lines 1271 to 1344, without its files), loop
for loop; what it finds is `GcovConsole.Extract`. */
module GcovExtract {
  import Arith
  import opened Bytes
  import opened FormatReader
  import opened GcovFile
  import opened Prelude
  import opened GcovConsole

  lemma {:induction false} TooShort(s: string)
    requires |s| < 6
    ensures AfterMarker(s) == None
  {
    if s != "" {
      TooShort(s[1..]);
    }
  }

  /** The first marker at or after `p`. */
  method FindMarker(t: string, p: nat) returns (m: Option<nat>)
    requires p <= |t|
    ensures m.None? ==> AfterMarker(t[p..]) == None
    ensures m.Some? ==> p <= m.value && m.value + 6 <= |t| && AfterMarker(t[p..]) == Some(t[m.value + 6..])
  {
    var q := p;
    while q + 6 <= |t|
      invariant p <= q <= |t| && AfterMarker(t[q..]) == AfterMarker(t[p..])
    {
      if t[q..q + 6] == MARKER {
        assert MARKER <= t[q..] && t[q..][6..] == t[q + 6..];
        return Some(q);
      }
      assert t[q..][1..] == t[q + 1..] && t[q..][..6] == t[q..q + 6];
      q := q + 1;
    }
    TooShort(t[q..]);
    return None;
  }

  /** The end of the path that starts at `p`. */
  method FindPathEnd(t: string, p: nat) returns (sp: nat)
    requires p <= |t|
    ensures p <= sp <= |t| && PathOf(t[p..]) == t[p..sp]
  {
    hide PathOf, EndsPath;
    sp := p;
    while sp < |t| && !EndsPath(t[sp])
      invariant p <= sp <= |t| && PathOf(t[p..]) == t[p..sp] + PathOf(t[sp..])
    {
      PathStep(t, sp);
      assert t[p..sp + 1] == t[p..sp] + [t[sp]];
      Arith.Assoc(t[p..sp], [t[sp]], PathOf(t[sp + 1..]));
      sp := sp + 1;
    }
    PathStep(t, sp);
  }

  lemma {:induction false} PathStep(t: string, sp: nat)
    requires sp <= |t|
    ensures PathOf(t[sp..]) == if sp == |t| || EndsPath(t[sp]) then "" else [t[sp]] + PathOf(t[sp + 1..])
  {
    assert sp < |t| ==> t[sp..][1..] == t[sp + 1..];
  }

  /** The line end at or after `p`. */
  method FindLineEnd(t: string, p: nat) returns (nl: nat)
    requires p <= |t|
    ensures p <= nl <= |t| && AfterLine(t[p..]) == t[nl..]
  {
    nl := p;
    while nl < |t| && t[nl] != '\n'
      invariant p <= nl <= |t| && AfterLine(t[nl..]) == AfterLine(t[p..])
    {
      assert t[nl..][1..] == t[nl + 1..];
      nl := nl + 1;
    }
  }

  /** The image's bytes from the hex digits at `p` on. */
  method CollectImage(t: string, p: nat, want: nat) returns (img: seq<byte>, q: nat)
    requires p <= |t|
    ensures p <= q <= |t| && Collect(t[p..], want, None, []) == (img, t[q..])
  {
    var hi: Option<nat> := None;
    img, q := [], p;
    while q < |t| && |img| < want
      invariant p <= q <= |t| && (hi.Some? ==> hi.value < 16)
      invariant Collect(t[q..], want, hi, img) == Collect(t[p..], want, None, [])
    {
      if t[q] == '@' {
        break;
      }
      assert t[q..][1..] == t[q + 1..];
      var v := DigitVal(t[q]);
      if v < 16 {
        if hi.None? {
          hi := Some(v);
        } else {
          img := img + [hi.value * 16 + v];
          hi := None;
        }
      }
      q := q + 1;
    }
  }

  /** Every file in the log `t`. */
  method ExtractLog(t: string) returns (es: seq<Entry>)
    ensures es == Extract(t)
  {
    hide AfterMarker, PathOf, AfterLine, Collect, Strtoul, OrderOf;
    var p := 0;
    es := [];
    assert t[0..] == t;
    while p < |t|
      invariant 0 <= p <= |t| && es + Extract(t[p..]) == Extract(t)
      decreases |t| - p
    {
      var m := FindMarker(t, p);
      if m.None? {
        assert es + [] == es;
        return;
      }
      var path := m.value + 6;
      var sp := FindPathEnd(t, path);
      var want := Strtoul(t[sp..]);
      var nl := FindLineEnd(t, sp);
      var img, q := CollectImage(t, nl, want);
      assert t[path..][sp - path..] == t[sp..];
      var e := if |img| == want && OrderOf(img).Some? then Got(t[path..sp], img) else CutShort(t[path..sp]);
      assert Extract(t[p..]) == [e] + Extract(t[q..]);
      assert es + ([e] + Extract(t[q..])) == (es + [e]) + Extract(t[q..]);
      es := es + [e];
      p := q;
    }
    ExtractNothing(t[p..]);
    assert es + [] == es;
  }

  lemma {:induction false} ExtractNothing(s: string)
    requires s == ""
    ensures Extract(s) == []
  {
    TooShort(s);
  }
}
