/** What each conversion of lib/avr/printf.c does with its argument, apart from how `Convert`
gets there: which argument it takes and when it is defined at all, the number an integer
conversion prints, how a character, a string or a floating conversion stands in its field, and
what `%n` leaves in memory. */
module FormatConversions {
  import Arith
  import opened Bytes
  import opened Prelude
  import opened FormatC11
  import opened FormatCounts
  import opened FormatRun
  import opened FormatSpec

  // ----- integers

  /** The bits of the number that a length modifier names; a pointer has 16. */
  function Modulus(d: Directive): nat {
    if d.conv == 'p' then 0x10000
    else if d.len == -2 then 0x100
    else if d.len == 1 then 0x1_0000_0000
    else if d.len == 2 then 0x1_0000_0000_0000_0000
    else 0x10000
  }

  /** The argument's type is the one that the modifier names; hh and h take an int. */
  predicate TypeFits(d: Directive, a: Arg) {
    match a
    case PtrArg(_) => d.conv == 'p'
    case LongLongArg(_) => d.conv != 'p' && d.len == 2
    case LongArg(_) => d.conv != 'p' && d.len == 1
    case IntArg(_) => d.conv != 'p' && d.len != 1 && d.len != 2
    case _ => false
  }

  /** The numbers that an argument of the modifier's type can be. */
  lemma {:induction false} ArgRange(d: Directive, a: Arg)
    requires TypeFits(d, a) && d.len != -2
    ensures ArgOk(a) <==> a.u < Modulus(d)
  {
  }

  /** The number that an integer conversion prints is the argument's residue at the modifier's
      width, in the signed range for d and i and in the unsigned range for the others. */
  lemma {:induction false} NumberPrinted(d: Directive, a: Arg)
    requires IsInt(d.conv) && ArgOk(a)
    ensures IntValue(d, a).Some? <==> TypeFits(d, a)
    ensures IntValue(d, a).Some? ==>
      var v, p := IntValue(d, a).value, Modulus(d);
      && v % p == a.u % p
      && (if d.conv == 'd' || d.conv == 'i' then 0 <= 2 * v + p < 2 * p else 0 <= v < p)
  {
    hide ToSigned;
    if a.IntArg? || a.LongArg? || a.LongLongArg? || a.PtrArg? {
      var p := Modulus(d);
      Residue(a.u % p, p);
      SameResidue(a.u, p);
    }
  }

  lemma {:induction false} Residue(u: nat, p: nat)
    requires u < p
    ensures ToSigned(u, p) % p == u
  {
    if ToSigned(u, p) != u {
      Arith.DivModUnique(u - p, p, -1, u);
    }
  }

  lemma {:induction false} SameResidue(u: nat, p: nat)
    requires p > 0
    ensures u % p % p == u % p && (u < p ==> u % p == u)
  {
  }

  /** An integer conversion is defined when its argument has the right type and the text without
      its field is no longer than an int can count. It takes that argument, leaves memory alone
      and, but for the octal cases, prints what C11 asks for. */
  lemma {:induction false} IntegerConverts(d: Directive, args: seq<Arg>, made: nat, mem: seq<byte>)
    requires d.conv in "diuoxXp" && d.prec >= -1 && ArgsOk(args)
    ensures var c := Convert(d, args, made, mem);
      && (c.Converted? <==>
            && args != [] && TypeFits(d, args[0])
            && |CodeLayout(d.(width := 0), IntValue(d, args[0]).value).Text()| <= 32767)
      && (c.Converted? ==>
            var x := IntValue(d, args[0]).value;
            && c.args == args[1..] && c.mem == mem && c.out == CodeLayout(d, x).Text()
            && (!Deviates(d, x) ==> c.out == C11Text(d, x)))
  {
    hide CodeLayout, C11Text, Deviates, IntValue;
    if args != [] {
      NumberPrinted(d, args[0]);
      if TypeFits(d, args[0]) {
        var x := IntValue(d, args[0]).value;
        AgreesWithC11(d, x);
        TotalIsLength(d, x);
      }
    }
  }

  /** The parts of a conversion are what it writes with no field width. */
  lemma {:induction false} TotalIsLength(d: Directive, x: int)
    requires d.prec >= -1
    ensures Total(d, x) == |CodeLayout(d.(width := 0), x).Text()|
  {
    IntLength(d.(width := 0), x);
  }

  // ----- fields

  /** `out` is `s` in a field of `width`: at its left end or its right, spaces in the rest; a
      longer text is not cut. */
  predicate InField(out: string, s: string, width: nat, left: bool) {
    && |out| == (if |s| < width then width else |s|)
    && if left then out[..|s|] == s && forall k :: |s| <= k < |out| ==> out[k] == ' '
       else out[|out| - |s|..] == s && forall k :: 0 <= k < |out| - |s| ==> out[k] == ' '
  }

  /** A field leaves nothing open. */
  lemma {:induction false} FieldOnce(out: string, out': string, s: string, width: nat, left: bool)
    requires InField(out, s, width, left) && InField(out', s, width, left)
    ensures out == out'
  {
    if left {
      assert out == out[..|s|] + out[|s|..] && out' == out'[..|s|] + out'[|s|..];
      assert out[|s|..] == out'[|s|..];
    } else {
      var n := |out| - |s|;
      assert out == out[..n] + out[n..] && out' == out'[..n] + out'[n..];
      assert out[..n] == out'[..n];
    }
  }

  lemma {:induction false} PaddedStands(d: Directive, s: string)
    ensures InField(Padded(d, s), s, d.width, d.flags.minus)
  {
  }

  /** `%c` prints one character, its code the argument modulo 256. */
  lemma {:induction false} CharacterConverts(d: Directive, args: seq<Arg>, made: nat, mem: seq<byte>)
    requires d.conv == 'c'
    ensures var c := Convert(d, args, made, mem);
      && (c.Converted? <==> args != [] && args[0].IntArg?)
      && (c.Converted? ==>
            && c.args == args[1..] && c.mem == mem
            && exists x: char :: (x as int) == args[0].u % 256 && InField(c.out, [x], d.width, d.flags.minus))
  {
    hide Padded, InField;
    if args != [] && args[0].IntArg? {
      var x := (args[0].u % 256) as char;
      PaddedStands(d, [x]);
    }
  }

  /** `t` is what `%s` prints of `s`: all before the terminator, or as many characters as the
      precision allows. */
  predicate Shown(s: string, prec: int, t: string) {
    && t <= s && '\0' !in t
    && (prec >= 0 ==> |t| <= prec)
    && ((prec >= 0 && |t| == prec) || (|t| < |s| && s[|t|] == '\0'))
  }

  lemma {:induction false} MeasureShows(s: string, prec: int, n: nat)
    requires n <= |s| && '\0' !in s[..n] && (prec >= 0 ==> n <= prec)
    ensures var r := PrintLength(s, prec, n);
      && (r.Some? ==> Shown(s, prec, s[..r.value]))
      && (r.None? ==> '\0' !in s && (prec < 0 || prec > |s|))
    decreases |s| - n
  {
    if !(prec >= 0 && n >= prec) && n < |s| && s[n] != '\0' {
      assert s[..n + 1] == s[..n] + [s[n]];
      MeasureShows(s, prec, n + 1);
    } else if n == |s| {
      assert s[..n] == s;
    }
  }

  /** `%s` prints the string up to its terminator or its precision, `(null)` for a null pointer;
      a string that has neither end is undefined. */
  lemma {:induction false} StringConverts(d: Directive, args: seq<Arg>, made: nat, mem: seq<byte>)
    requires d.conv == 's' || d.conv == 'S'
    ensures var c := Convert(d, args, made, mem);
      && (c.Converted? ==>
            && args != [] && args[0].StrArg? && c.args == args[1..] && c.mem == mem
            && var s := match args[0].s case None => "(null)\0" case Some(t) => t;
            exists t: string :: |t| <= 32767 && Shown(s, d.prec, t) && InField(c.out, t, d.width, d.flags.minus))
      && (c.BadConversion? && args != [] && args[0].StrArg? ==>
            var s := match args[0].s case None => "(null)\0" case Some(t) => t;
            forall t: string :: Shown(s, d.prec, t) ==> |t| > 32767)
  {
    hide Padded, InField, PrintLength, Shown;
    if args != [] && args[0].StrArg? {
      var s := match args[0].s case None => "(null)\0" case Some(t) => t;
      assert s[..0] == "";
      MeasureShows(s, d.prec, 0);
      var n := PrintLength(s, d.prec, 0);
      if n.Some? {
        PaddedStands(d, s[..n.value]);
        forall t: string | Shown(s, d.prec, t)
          ensures t == s[..n.value]
        {
          ShownOnce(s, d.prec, t, s[..n.value]);
        }
      } else {
        forall t: string
          ensures !Shown(s, d.prec, t)
        {
          NeverShown(s, d.prec, t);
        }
      }
    }
  }

  lemma {:induction false} ShownOnce(s: string, prec: int, t: string, u: string)
    requires Shown(s, prec, t) && Shown(s, prec, u)
    ensures t == u
  {
    assert t == s[..|t|] && u == s[..|u|];
  }

  lemma {:induction false} NeverShown(s: string, prec: int, t: string)
    requires '\0' !in s && (prec < 0 || prec > |s|)
    ensures !Shown(s, prec, t)
  {
  }

  /** The floating conversions take their argument and print a question mark in its place. */
  lemma {:induction false} FloatingConverts(d: Directive, args: seq<Arg>, made: nat, mem: seq<byte>)
    requires d.conv in "eEfFgGaA"
    ensures var c := Convert(d, args, made, mem);
      && (c.Converted? <==> args != [] && args[0].DoubleArg?)
      && (c.Converted? ==> c.args == args[1..] && c.mem == mem && InField(c.out, "?", d.width, d.flags.minus))
  {
    hide Padded, InField;
    PaddedStands(d, "?");
  }

  /** Any other character is printed as it is and takes no argument; `%%` is one. */
  lemma {:induction false} OthersConvert(d: Directive, args: seq<Arg>, made: nat, mem: seq<byte>)
    requires d.conv !in "diuoxXpcsSneEfFgGaA"
    ensures Convert(d, args, made, mem) == Converted([d.conv], args, mem)
  {
    var all := "diuoxXp" + "csSn" + "eEfFgGaA";
    assert all == "diuoxXpcsSneEfFgGaA";
    assert d.conv !in "diuoxXp" && d.conv !in "csSn" && d.conv !in "eEfFgGaA";
  }

  // ----- the count

  /** `%n` takes a pointer and prints nothing. A null one stores nothing; the count goes as an int
      into the two bytes there, low byte first, and nothing else changes. */
  lemma {:induction false} CountConverts(d: Directive, args: seq<Arg>, made: nat, mem: seq<byte>)
    requires d.conv == 'n'
    ensures var c := Convert(d, args, made, mem);
      && (c.Converted? <==>
            args != [] && args[0].CountArg? && (args[0].at.Some? ==> args[0].at.value + 2 <= |mem|))
      && (c.Converted? ==> c.args == args[1..] && c.out == "" && |c.mem| == |mem|)
      && (c.Converted? && args[0].at.None? ==> c.mem == mem)
      && (c.Converted? && args[0].at.Some? ==>
            var at := args[0].at.value;
            && c.mem[at] == made % 256 && c.mem[at + 1] == made / 256 % 256
            && forall k :: 0 <= k < |mem| && k != at && k != at + 1 ==> c.mem[k] == mem[k])
  {
  }

  /** The object that `%n` should store in is as wide as the number that the same modifier gives
      an integer conversion. */
  lemma {:induction false} CountWidth(d: Directive)
    requires d.conv != 'p'
    ensures Pow256(CountSize(d.len)) == Modulus(d)
  {
    Powers();
  }
}
