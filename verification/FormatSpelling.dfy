/** How a conversion specification is written (section 7.21.6.1 of C11), apart from how
lib/avr/printf.c reads it, and that reading gives back what was written: for flags in any
order, a width and a precision as a number or `*`, every length modifier and conversion. */
module FormatSpelling {
  import opened Prelude
  import opened FormatSpec
  import opened FormatReader
  import opened FormatRun

  datatype WidthText = NoWidth | WidthNumber(w: nat) | WidthStar
  datatype PrecText = NoPrec | EmptyPrec | PrecNumber(p: nat) | PrecStar
  datatype LengthText = NoLength | CharLength | ShortLength | LongLength | LongLongLength | MaxLength | SizeLength
    | PtrdiffLength

  datatype Spec = Spec(flags: string, width: WidthText, prec: PrecText, length: LengthText, conv: char)

  // ----- what is written

  function SpellWidth(w: WidthText): string {
    match w
    case NoWidth => ""
    case WidthNumber(n) => Decimal(n)
    case WidthStar => "*"
  }

  function SpellPrec(p: PrecText): string {
    match p
    case NoPrec => ""
    case EmptyPrec => "."
    case PrecNumber(n) => "." + Decimal(n)
    case PrecStar => ".*"
  }

  function SpellLength(l: LengthText): string {
    match l
    case NoLength => ""
    case CharLength => "hh"
    case ShortLength => "h"
    case LongLength => "l"
    case LongLongLength => "ll"
    case MaxLength => "j"
    case SizeLength => "z"
    case PtrdiffLength => "t"
  }

  function Spell(s: Spec): string {
    s.flags + (SpellWidth(s.width) + (SpellPrec(s.prec) + (SpellLength(s.length) + [s.conv])))
  }

  /** Flags are flags, a width number does not start with the `0` flag, and the conversion is no
      character that belongs to what is before it. */
  predicate SpecOk(s: Spec) {
    && (forall k :: 0 <= k < |s.flags| ==> IsFlag(s.flags[k]))
    && (s.width.WidthNumber? ==> s.width.w > 0)
    && !IsFlag(s.conv) && !IsDecimal(s.conv) && !IsLength(s.conv) && s.conv != '*' && s.conv != '.'
  }

  // ----- what it means

  function WidthValue(w: WidthText, args: seq<Arg>): Option<(int, seq<Arg>)> {
    match w
    case NoWidth => Some((0, args))
    case WidthNumber(n) => if n <= 32767 then Some((n, args)) else None
    case WidthStar =>
      if args != [] && args[0].IntArg? && -32768 < ToSigned(args[0].u, 0x10000) <= 32767
      then Some((ToSigned(args[0].u, 0x10000), args[1..])) else None
  }

  function PrecValue(p: PrecText, args: seq<Arg>): Option<(int, seq<Arg>)> {
    match p
    case NoPrec => Some((-1, args))
    case EmptyPrec => Some((0, args))
    case PrecNumber(n) => if n <= 32767 then Some((n, args)) else None
    case PrecStar =>
      if args != [] && args[0].IntArg? && ToSigned(args[0].u, 0x10000) <= 32767
      then Some((if ToSigned(args[0].u, 0x10000) < 0 then -1 else ToSigned(args[0].u, 0x10000), args[1..])) else None
  }

  /** size_t and ptrdiff_t are ints here, and intmax_t a long long. */
  function LengthValue(l: LengthText): int {
    match l
    case CharLength => -2
    case ShortLength => -1
    case NoLength | SizeLength | PtrdiffLength => 0
    case LongLength => 1
    case LongLongLength | MaxLength => 2
  }

  /** A negative `*` width is the `-` flag and its magnitude; a negative `*` precision is none. */
  function Meaning(s: Spec, next: nat, args: seq<Arg>): Parsed {
    var w := WidthValue(s.width, args);
    if w.None? then BadSpec else
    var p := PrecValue(s.prec, w.value.1);
    if p.None? then BadSpec else
    var fl := Flags(w.value.0 < 0 || '-' in s.flags, '+' in s.flags, ' ' in s.flags, '#' in s.flags, '0' in s.flags);
    Parsed(Directive(fl, Abs(w.value.0), p.value.0, LengthValue(s.length), s.conv), next, p.value.1)
  }

  // ----- reading it

  /** The flags in a text, besides those there are. */
  function FlagsIn(fl: Flags, t: string): Flags {
    Flags(fl.minus || '-' in t, fl.plus || '+' in t, fl.space || ' ' in t, fl.hash || '#' in t, fl.zero || '0' in t)
  }

  /** `t` stands at `i`. */
  predicate At(f: string, i: nat, t: string) { i + |t| <= |f| && f[i..i + |t|] == t }

  lemma {:induction false} AtSplit(f: string, i: nat, a: string, b: string)
    requires At(f, i, a + b)
    ensures At(f, i, a) && At(f, i + |a|, b)
  {
    var t := f[i..i + |a| + |b|];
    assert f[i..i + |a|] == t[..|a|] && f[i + |a|..i + |a| + |b|] == t[|a|..];
  }

  lemma {:induction false} AtFirst(f: string, i: nat, t: string)
    requires At(f, i, t) && t != ""
    ensures i < |f| && f[i] == t[0] && At(f, i + 1, t[1..])
  {
    assert t == [t[0]] + t[1..];
    AtSplit(f, i, [t[0]], t[1..]);
    assert f[i..i + 1][0] == t[0];
  }

  lemma {:induction false} FlagsRead(f: string, i: nat, t: string, fl: Flags)
    requires Terminated(f) && At(f, i, t) && i + |t| < |f| && !IsFlag(f[i + |t|])
    requires forall k :: 0 <= k < |t| ==> IsFlag(t[k])
    ensures FlagsAt(f, i, fl) == (FlagsIn(fl, t), i + |t|)
    decreases t
  {
    hide Terminated, At, FlagsIn, IsFlag, AddFlag;
    if t == "" {
      NoFlag(fl);
    } else {
      AtFirst(f, i, t);
      FlagsRead(f, i + 1, t[1..], AddFlag(fl, t[0]));
      OneMoreFlag(fl, t);
    }
  }

  lemma {:induction false} NoFlag(fl: Flags)
    ensures FlagsIn(fl, "") == fl
  {
  }

  lemma {:induction false} OneMoreFlag(fl: Flags, t: string)
    requires t != "" && IsFlag(t[0])
    ensures FlagsIn(AddFlag(fl, t[0]), t[1..]) == FlagsIn(fl, t)
  {
    InFirst(t, '-');
    InFirst(t, '+');
    InFirst(t, ' ');
    InFirst(t, '#');
    InFirst(t, '0');
  }

  lemma {:induction false} InFirst(t: string, c: char)
    requires t != ""
    ensures c in t <==> c == t[0] || c in t[1..]
  {
    assert t == [t[0]] + t[1..];
  }

  /** Reading the digits from the `k`-th on, the ones before it read. */
  lemma {:induction false} NumberRead(f: string, i: nat, t: string, k: nat)
    requires Terminated(f) && At(f, i, t) && i + |t| < |f| && !IsDecimal(f[i + |t|]) && AllDecimal(t) && k <= |t|
    ensures NumberAt(f, i + k, ReadDigits(10, t[..k])) == (ReadDigits(10, t), i + |t|)
    decreases |t| - k
  {
    hide Terminated;
    if k == |t| {
      assert t[..k] == t;
    } else {
      assert f[i + k] == f[i..i + |t|][k] == t[k];
      assert t[..k + 1][..k] == t[..k];
      NumberRead(f, i, t, k + 1);
    }
  }

  lemma {:induction false} DecimalRead(f: string, i: nat, n: nat)
    requires Terminated(f) && At(f, i, Decimal(n)) && i + |Decimal(n)| < |f| && !IsDecimal(f[i + |Decimal(n)|])
    ensures NumberAt(f, i, 0) == (n, i + |Decimal(n)|)
  {
    hide Terminated, NumberAt, Decimal;
    DecimalReads(n);
    NumberRead(f, i, Decimal(n), 0);
    NoDigit();
    assert Decimal(n)[..0] == "";
  }

  lemma {:induction false} LengthRead(f: string, i: nat, l: LengthText)
    requires Terminated(f) && At(f, i, SpellLength(l)) && i + |SpellLength(l)| < |f| &&
      !IsLength(f[i + |SpellLength(l)|])
    ensures LengthAt(f, i, 0) == (LengthValue(l), i + |SpellLength(l)|)
  {
    hide Terminated, At, LengthAt;
    var t := SpellLength(l);
    LengthStep(f, i, 0);
    if t != "" {
      AtFirst(f, i, t);
      LengthStep(f, i + 1, AddLength(0, t[0]));
      if |t| == 2 {
        AtFirst(f, i + 1, t[1..]);
        LengthStep(f, i + 2, AddLength(AddLength(0, t[0]), t[1]));
      }
    }
  }

  lemma {:induction false} LengthStep(f: string, i: nat, len: int)
    requires Terminated(f) && i < |f|
    ensures IsLength(f[i]) ==> i + 1 < |f| && LengthAt(f, i, len) == LengthAt(f, i + 1, AddLength(len, f[i]))
    ensures !IsLength(f[i]) ==> LengthAt(f, i, len) == (len, i)
  {
  }

  lemma {:induction false} WidthRead(f: string, i: nat, w: WidthText, args: seq<Arg>)
    requires Terminated(f) && At(f, i, SpellWidth(w)) && i + |SpellWidth(w)| < |f|
    requires var c := f[i + |SpellWidth(w)|]; !IsDecimal(c) && c != '*'
    ensures var r, v := WidthAt(f, i, args), WidthValue(w, args);
      if v.None? then r == BadField else r == Field(v.value.0, i + |SpellWidth(w)|, v.value.1)
  {
    hide Terminated, At, Decimal, ToSigned;
    match w
    case NoWidth =>
    case WidthStar => AtFirst(f, i, "*");
    case WidthNumber(n) =>
      DecimalRead(f, i, n);
      DecimalReads(n);
      AtFirst(f, i, Decimal(n));
  }

  lemma {:induction false} PrecRead(f: string, i: nat, p: PrecText, args: seq<Arg>)
    requires Terminated(f) && At(f, i, SpellPrec(p)) && i + |SpellPrec(p)| < |f|
    requires var c := f[i + |SpellPrec(p)|]; !IsDecimal(c) && c != '.' && c != '*'
    ensures var r, v := PrecAt(f, i, args), PrecValue(p, args);
      if v.None? then r == BadField else r == Field(v.value.0, i + |SpellPrec(p)|, v.value.1)
  {
    hide Terminated, At, Decimal, ToSigned;
    var t := SpellPrec(p);
    if t != "" {
      AtFirst(f, i, t);
    }
    match p
    case NoPrec =>
    case EmptyPrec =>
    case PrecStar => AtFirst(f, i + 1, t[1..]);
    case PrecNumber(n) =>
      assert t[1..] == Decimal(n);
      DecimalReads(n);
      DecimalRead(f, i + 1, n);
      AtFirst(f, i + 1, Decimal(n));
  }

  /** The first character of each part, which ends the part before it. */
  lemma {:induction false} Starts(s: Spec)
    requires SpecOk(s)
    ensures var c := (SpellLength(s.length) + [s.conv])[0]; !IsFlag(c) && !IsDecimal(c) && c != '.' && c != '*'
    ensures var c := (SpellPrec(s.prec) + (SpellLength(s.length) + [s.conv]))[0];
      !IsFlag(c) && !IsDecimal(c) && c != '*'
    ensures var c := (SpellWidth(s.width) + (SpellPrec(s.prec) + (SpellLength(s.length) + [s.conv])))[0]; !IsFlag(c)
  {
    hide Decimal;
    if s.width.WidthNumber? {
      DecimalReads(s.width.w);
    }
  }

  function WidthStart(i: nat, s: Spec): nat { i + |s.flags| }

  function PrecStart(i: nat, s: Spec): nat { WidthStart(i, s) + |SpellWidth(s.width)| }

  function LengthStart(i: nat, s: Spec): nat { PrecStart(i, s) + |SpellPrec(s.prec)| }

  /** Where the parts stand, and the characters that end them. */
  lemma {:induction false} Parts(f: string, i: nat, s: Spec)
    requires At(f, i, Spell(s)) && SpecOk(s)
    ensures var iw, ip, il, ic := WidthStart(i, s), PrecStart(i, s), LengthStart(i, s), i + |Spell(s)| - 1;
      && ic == il + |SpellLength(s.length)| < |f| && f[ic] == s.conv
      && At(f, i, s.flags) && At(f, iw, SpellWidth(s.width)) && At(f, ip, SpellPrec(s.prec))
      && At(f, il, SpellLength(s.length))
      && !IsFlag(f[iw]) && !IsDecimal(f[ip]) && f[ip] != '*' && !IsDecimal(f[il]) && f[il] != '.' && f[il] != '*'
  {
    hide At, SpellWidth, SpellPrec, SpellLength, IsFlag, IsLength, IsDecimal;
    var l := SpellLength(s.length) + [s.conv];
    var p := SpellPrec(s.prec) + l;
    var w := SpellWidth(s.width) + p;
    var iw, ip, il := WidthStart(i, s), PrecStart(i, s), LengthStart(i, s);
    Starts(s);
    AtSplit(f, i, s.flags, w);
    AtSplit(f, iw, SpellWidth(s.width), p);
    AtSplit(f, ip, SpellPrec(s.prec), l);
    AtSplit(f, il, SpellLength(s.length), [s.conv]);
    AtFirst(f, iw, w);
    AtFirst(f, ip, p);
    AtFirst(f, il, l);
    AtFirst(f, il + |SpellLength(s.length)|, [s.conv]);
  }

  /** The parser gives every specification its meaning, and finds its conversion character,
      wherever it stands in a format; a number that does not fit an int, or an argument of the
      wrong kind for `*`, is what it refuses. */
  lemma {:induction false} ParseReadsSpelling(f: string, i: nat, s: Spec, args: seq<Arg>)
    requires Terminated(f) && At(f, i, Spell(s)) && SpecOk(s)
    ensures i < |f| && Parse(f, i, args) == Meaning(s, i + |Spell(s)| - 1, args)
  {
    hide Terminated, At, FlagsAt, WidthAt, PrecAt, LengthAt, WidthValue, PrecValue, LengthValue, SpellWidth, SpellPrec,
      SpellLength, IsFlag, IsLength, IsDecimal, Spell;
    Parts(f, i, s);
    var iw, ip, il := WidthStart(i, s), PrecStart(i, s), LengthStart(i, s);
    FlagsRead(f, i, s.flags, NO_FLAGS);
    WidthRead(f, iw, s.width, args);
    var v := WidthValue(s.width, args);
    if v.Some? {
      PrecRead(f, ip, s.prec, v.value.1);
      LengthRead(f, il, s.length);
    }
  }
}
