/** What a whole format means, in terms of how it is written: plain text stands for itself, and
each conversion specification for one conversion of the arguments that are left. `RunIsMeaning`
says that `Run`, which walks the format by position as lib/avr/printf.c does, gives every
written format that meaning. */
module FormatMeaning {
  import opened Bytes
  import opened Prelude
  import opened FormatReader
  import opened FormatRun
  import opened FormatSpec
  import opened FormatSpelling

  /** Text with no `%` and no terminator. */
  predicate Plain(a: string) { forall k :: 0 <= k < |a| ==> a[k] != '%' && a[k] != '\0' }

  datatype Item = Text(s: string) | Conv(spec: Spec)

  /** A format ends at its terminator, or in a specification that the terminator cuts off. */
  datatype Ending = Ends | CutOff(spec: Spec)

  function FormatOf(items: seq<Item>, e: Ending): (f: string)
    ensures f != ""
  {
    if items == [] then
      match e
      case Ends => "\0"
      case CutOff(s) => "%" + Spell(s)
    else
      match items[0]
      case Text(s) => s + FormatOf(items[1..], e)
      case Conv(s) => "%" + Spell(s) + FormatOf(items[1..], e)
  }

  predicate ItemsOk(items: seq<Item>, e: Ending) {
    && (forall k :: 0 <= k < |items| ==>
          match items[k]
          case Text(s) => Plain(s)
          case Conv(s) => SpecOk(s) && s.conv != '\0')
    && (e.CutOff? ==> SpecOk(e.spec) && e.spec.conv == '\0')
  }

  /** Text is copied; a conversion writes its own text, takes its arguments and leaves the memory
      it leaves; a specification that is cut off writes nothing. */
  function Means(items: seq<Item>, e: Ending, args: seq<Arg>, out: string, mem: seq<byte>): Result {
    if |out| > 0xffff then Undefined
    else if items == [] then
      if e.CutOff? && Meaning(e.spec, 0, args).BadSpec? then Undefined else Done(out, mem)
    else
      match items[0]
      case Text(s) => Means(items[1..], e, args, out + s, mem)
      case Conv(s) =>
        var m := Meaning(s, 0, args);
        if m.BadSpec? then Undefined else
        var c := Convert(m.d, m.args, |out|, mem);
        if c.BadConversion? then Undefined else Means(items[1..], e, c.args, out + c.out, c.mem)
  }

  /** Only the end of a written format is a terminator. */
  lemma {:induction false} FormatTerminated(items: seq<Item>, e: Ending)
    requires ItemsOk(items, e)
    ensures Terminated(FormatOf(items, e))
    decreases items
  {
    hide Spell, SpecOk;
    if items == [] {
      if e.CutOff? {
        SpellingPlain(e.spec);
      }
    } else {
      FormatTerminated(items[1..], e);
      if items[0].Conv? {
        SpellingPlain(items[0].spec);
      }
    }
  }

  lemma {:induction false} SpellingPlain(s: Spec)
    requires SpecOk(s)
    ensures Spell(s) != "" && Spell(s)[|Spell(s)| - 1] == s.conv
    ensures forall k :: 0 <= k < |Spell(s)| - 1 ==> Spell(s)[k] != '\0'
  {
    hide Decimal;
    if s.width.WidthNumber? {
      DecimalReads(s.width.w);
    }
    if s.prec.PrecNumber? {
      DecimalReads(s.prec.p);
    }
  }

  // ----- a format read on from a place is the rest of it read from the start

  lemma {:induction false} FlagsOfRest(p: string, g: string, i: nat, fl: Flags)
    requires Terminated(p + g) && Terminated(g) && i < |g|
    ensures var r := FlagsAt(g, i, fl); FlagsAt(p + g, |p| + i, fl) == (r.0, |p| + r.1)
    decreases |g| - i
  {
    hide Terminated, AddFlag;
    var f := p + g;
    assert f[|p| + i] == g[i];
    FlagStep(g, i, fl);
    FlagStep(f, |p| + i, fl);
    if IsFlag(g[i]) {
      FlagsOfRest(p, g, i + 1, AddFlag(fl, g[i]));
    }
  }

  lemma {:induction false} FlagStep(f: string, i: nat, fl: Flags)
    requires Terminated(f) && i < |f|
    ensures IsFlag(f[i]) ==> i + 1 < |f| && FlagsAt(f, i, fl) == FlagsAt(f, i + 1, AddFlag(fl, f[i]))
    ensures !IsFlag(f[i]) ==> FlagsAt(f, i, fl) == (fl, i)
  {
  }

  lemma {:induction false} NumberOfRest(p: string, g: string, i: nat, acc: nat)
    requires Terminated(p + g) && Terminated(g) && i < |g|
    ensures var r := NumberAt(g, i, acc); NumberAt(p + g, |p| + i, acc) == (r.0, |p| + r.1)
    decreases |g| - i
  {
    var f := p + g;
    assert f[|p| + i] == g[i];
    if IsDecimal(g[i]) {
      NumberOfRest(p, g, i + 1, acc * 10 + ((g[i] as int) - ('0' as int)));
    }
  }

  lemma {:induction false} LengthOfRest(p: string, g: string, i: nat, len: int)
    requires Terminated(p + g) && Terminated(g) && i < |g|
    ensures var r := LengthAt(g, i, len); LengthAt(p + g, |p| + i, len) == (r.0, |p| + r.1)
    decreases |g| - i
  {
    hide Terminated, AddLength;
    var f := p + g;
    assert f[|p| + i] == g[i];
    LengthStep(g, i, len);
    LengthStep(f, |p| + i, len);
    if IsLength(g[i]) {
      LengthOfRest(p, g, i + 1, AddLength(len, g[i]));
    }
  }

  function Moved(w: Field, n: nat): Field {
    if w.BadField? then w else w.(next := n + w.next)
  }

  lemma {:induction false} WidthOfRest(p: string, g: string, i: nat, args: seq<Arg>)
    requires Terminated(p + g) && Terminated(g) && i < |g|
    ensures WidthAt(p + g, |p| + i, args) == Moved(WidthAt(g, i, args), |p|)
  {
    hide NumberAt, ToSigned;
    var f := p + g;
    assert f[|p| + i] == g[i];
    NumberOfRest(p, g, i, 0);
  }

  lemma {:induction false} PrecOfRest(p: string, g: string, i: nat, args: seq<Arg>)
    requires Terminated(p + g) && Terminated(g) && i < |g|
    ensures PrecAt(p + g, |p| + i, args) == Moved(PrecAt(g, i, args), |p|)
  {
    hide NumberAt, ToSigned;
    var f := p + g;
    assert f[|p| + i] == g[i];
    if g[i] == '.' {
      assert f[|p| + i + 1] == g[i + 1];
      NumberOfRest(p, g, i + 1, 0);
    }
  }

  lemma {:induction false} ParseOfRest(p: string, g: string, i: nat, args: seq<Arg>)
    requires Terminated(p + g) && Terminated(g) && i < |g|
    ensures var r := Parse(g, i, args);
      Parse(p + g, |p| + i, args) == if r.BadSpec? then r else r.(next := |p| + r.next)
  {
    hide Terminated, FlagsAt, WidthAt, PrecAt, LengthAt;
    FlagsOfRest(p, g, i, NO_FLAGS);
    var j := FlagsAt(g, i, NO_FLAGS).1;
    WidthOfRest(p, g, j, args);
    var w := WidthAt(g, j, args);
    if w.Field? {
      PrecOfRest(p, g, w.next, w.args);
      var q := PrecAt(g, w.next, w.args);
      if q.Field? {
        LengthOfRest(p, g, q.next, 0);
        var k := LengthAt(g, q.next, 0).1;
        assert (p + g)[|p| + k] == g[k];
      }
    }
  }

  lemma {:induction false} RunOfRest(p: string, g: string, i: nat, args: seq<Arg>, out: string, mem: seq<byte>)
    requires Terminated(p + g) && Terminated(g) && i < |g|
    ensures Run(p + g, |p| + i, args, out, mem) == Run(g, i, args, out, mem)
    decreases |g| - i
  {
    hide Terminated, Parse, Convert;
    var f := p + g;
    assert f[|p| + i] == g[i];
    EndStays(p, g, i);
    if |out| <= 0xffff && g[i] != '\0' {
      if g[i] != '%' {
        RunOfRest(p, g, i + 1, args, out + [g[i]], mem);
      } else {
        ParseOfRest(p, g, i + 1, args);
        var s := Parse(g, i + 1, args);
        if s.Parsed? && s.d.conv != '\0' {
          EndStays(p, g, s.next);
          var c := Convert(s.d, s.args, |out|, mem);
          if c.Converted? {
            RunOfRest(p, g, s.next + 1, c.args, out + c.out, c.mem);
          }
        }
      }
    }
  }

  /** No terminator, more to read. */
  lemma {:induction false} EndStays(p: string, g: string, i: nat)
    requires Terminated(p + g) && Terminated(g) && i < |g|
    ensures g[i] != '\0' ==> i + 1 < |g| && |p| + i + 1 < |p + g|
  {
  }

  // ----- text

  /** Plain text goes to the output as it is, while the count fits. */
  lemma {:induction false} TextIsCopied(a: string, g: string, args: seq<Arg>, out: string, mem: seq<byte>)
    requires Plain(a) && Terminated(g)
    ensures Terminated(a + g)
    ensures Run(a + g, 0, args, out, mem) == if |out + a| > 0xffff then Undefined else Run(g, 0, args, out + a, mem)
    decreases a
  {
    hide Parse, Convert;
    if a == "" {
      assert a + g == g && out + a == out;
    } else {
      var f, b := a + g, a[1..];
      assert f == [a[0]] + (b + g);
      TextIsCopied(b, g, args, out + [a[0]], mem);
      assert out + [a[0]] + b == out + a;
      RunOfRest([a[0]], b + g, 0, args, out + [a[0]], mem);
    }
  }

  /** Text alone is the output. */
  lemma {:induction false} TextAlone(a: string, args: seq<Arg>, mem: seq<byte>)
    requires Plain(a) && |a| <= 0xffff
    ensures Terminated(a + "\0") && Run(a + "\0", 0, args, "", mem) == Done(a, mem)
  {
    hide Parse, Convert;
    TextIsCopied(a, "\0", args, "", mem);
    assert "" + a == a;
  }

  // ----- one conversion

  /** A specification that ends in a conversion character, then the rest: the conversion's text,
      and the rest on the arguments that are left. */
  lemma {:induction false} ConversionThenRest(s: Spec, g: string, args: seq<Arg>, out: string, mem: seq<byte>)
    requires SpecOk(s) && s.conv != '\0' && |out| <= 0xffff && Terminated(g)
    ensures Terminated("%" + Spell(s) + g)
    ensures var m := Meaning(s, 0, args);
      Run("%" + Spell(s) + g, 0, args, out, mem) ==
      if m.BadSpec? then Undefined else
      var c := Convert(m.d, m.args, |out|, mem);
      if c.BadConversion? then Undefined else Run(g, 0, c.args, out + c.out, c.mem)
  {
    hide Parse, Convert, Spell, SpecOk, WidthValue, PrecValue;
    var p := "%" + Spell(s);
    var f := p + g;
    SpellingPlain(s);
    assert f[1..1 + |Spell(s)|] == Spell(s);
    ParseReadsSpelling(f, 1, s, args);
    var m := Meaning(s, 0, args);
    assert Parse(f, 1, args) == if m.BadSpec? then m else m.(next := |Spell(s)|);
    if m.Parsed? {
      var c := Convert(m.d, m.args, |out|, mem);
      if c.Converted? {
        RunOfRest(p, g, 0, c.args, out + c.out, c.mem);
      }
    }
  }

  /** Text, one conversion and a rest. */
  lemma {:induction false} TextConversionRest(a: string, s: Spec, g: string, args: seq<Arg>, out: string,
                                              mem: seq<byte>)
    requires Plain(a) && SpecOk(s) && s.conv != '\0' && |out + a| <= 0xffff && Terminated(g)
    ensures Terminated("%" + Spell(s) + g) && Terminated(a + ("%" + Spell(s) + g))
    ensures var m := Meaning(s, 0, args);
      Run(a + ("%" + Spell(s) + g), 0, args, out, mem) ==
      if m.BadSpec? then Undefined else
      var c := Convert(m.d, m.args, |out + a|, mem);
      if c.BadConversion? then Undefined else Run(g, 0, c.args, out + a + c.out, c.mem)
  {
    hide Convert, Run, Meaning, Spell, SpecOk, Plain;
    ConversionThenRest(s, g, args, out + a, mem);
    TextIsCopied(a, "%" + Spell(s) + g, args, out, mem);
  }

  /** A specification that the terminator cuts off writes nothing, and the format ends there. */
  lemma {:induction false} CutOffWritesNothing(s: Spec, args: seq<Arg>, out: string, mem: seq<byte>)
    requires SpecOk(s) && s.conv == '\0' && |out| <= 0xffff && Terminated("%" + Spell(s))
    ensures Run("%" + Spell(s), 0, args, out, mem) ==
      if Meaning(s, 0, args).BadSpec? then Undefined else Done(out, mem)
  {
    hide Parse, Convert, Spell, SpecOk, WidthValue, PrecValue;
    var f := "%" + Spell(s);
    assert f[1..1 + |Spell(s)|] == Spell(s);
    ParseReadsSpelling(f, 1, s, args);
    SpellingPlain(s);
  }

  // ----- the whole format

  /** The walk over a written format gives it its meaning. */
  lemma {:induction false} RunIsMeaning(items: seq<Item>, e: Ending, args: seq<Arg>, out: string, mem: seq<byte>)
    requires ItemsOk(items, e)
    ensures Terminated(FormatOf(items, e))
    ensures Run(FormatOf(items, e), 0, args, out, mem) == Means(items, e, args, out, mem)
    decreases items
  {
    hide Run, Convert, Spell, SpecOk, Meaning, Plain, Terminated;
    FormatTerminated(items, e);
    if |out| > 0xffff {
      RunTooLong(FormatOf(items, e), args, out, mem);
    } else if items == [] {
      match e
      case Ends => RunEnds(args, out, mem);
      case CutOff(s) => CutOffWritesNothing(s, args, out, mem);
    } else {
      var rest := items[1..];
      var g := FormatOf(rest, e);
      match items[0]
      case Text(s) =>
        FormatTerminated(rest, e);
        TextIsCopied(s, g, args, out, mem);
        RunIsMeaning(rest, e, args, out + s, mem);
        RunTooLong(g, args, out + s, mem);
      case Conv(s) =>
        FormatTerminated(rest, e);
        ConversionThenRest(s, g, args, out, mem);
        var m := Meaning(s, 0, args);
        if m.Parsed? {
          var c := Convert(m.d, m.args, |out|, mem);
          if c.Converted? {
            RunIsMeaning(rest, e, c.args, out + c.out, c.mem);
          }
        }
    }
  }

  lemma {:induction false} RunTooLong(f: string, args: seq<Arg>, out: string, mem: seq<byte>)
    requires Terminated(f)
    ensures |out| > 0xffff ==> Run(f, 0, args, out, mem) == Undefined
  {
  }

  lemma {:induction false} RunEnds(args: seq<Arg>, out: string, mem: seq<byte>)
    requires |out| <= 0xffff
    ensures Terminated("\0") && Run("\0", 0, args, out, mem) == Done(out, mem)
  {
  }
}
