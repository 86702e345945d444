/** Reading a formatted integer back: spaces, a sign, a hexadecimal prefix and digits, as
strtol reads them. Every integer conversion of lib/avr/printf.c reads back as its argument,
whatever the flags, width and precision. */
module FormatReader {
  import opened FormatNumbers
  import opened FormatSpec

  /** What a character is worth as a digit; 16 when it is none. */
  function DigitVal(c: char): (v: nat)
    ensures v <= 16
  {
    if '0' <= c <= '9' then (c as int) - ('0' as int)
    else if 'a' <= c <= 'f' then (c as int) - ('a' as int) + 10
    else if 'A' <= c <= 'F' then (c as int) - ('A' as int) + 10
    else 16
  }

  predicate AllDigits(s: string) { forall k :: 0 <= k < |s| ==> DigitVal(s[k]) < 16 }

  function ReadDigits(base: nat, s: string): nat {
    if s == "" then 0 else ReadDigits(base, s[..|s| - 1]) * base + DigitVal(s[|s| - 1])
  }

  function SkipSpaces(s: string): string {
    if s != "" && s[0] == ' ' then SkipSpaces(s[1..]) else s
  }

  /** The digits a text starts with. */
  function TakeDigits(s: string): string {
    if s != "" && DigitVal(s[0]) < 16 then [s[0]] + TakeDigits(s[1..]) else ""
  }

  function SkipPrefix(base: nat, s: string): string {
    if base == 16 && |s| >= 2 && s[0] == '0' && (s[1] == 'x' || s[1] == 'X') then s[2..] else s
  }

  function ReadMagnitude(base: nat, s: string): int {
    ReadDigits(base, TakeDigits(SkipPrefix(base, s)))
  }

  function Read(base: nat, s: string): int {
    var t := SkipSpaces(s);
    if t != "" && t[0] == '-' then -ReadMagnitude(base, t[1..])
    else if t != "" && t[0] == '+' then ReadMagnitude(base, t[1..])
    else ReadMagnitude(base, t)
  }

  // ----- digits

  lemma {:induction false} DigitCharVal(d: nat, upper: bool)
    requires d < 16
    ensures DigitVal(DigitChar(d, upper)) == d
  {
  }

  lemma {:induction false} ReadDigitText(base: nat, ds: seq<nat>, upper: bool)
    requires forall k :: 0 <= k < |ds| ==> ds[k] < 16
    ensures ReadDigits(base, DigitText(ds, upper)) == NumberOf(base, Reversed(ds))
    ensures AllDigits(DigitText(ds, upper))
  {
    if ds != [] {
      ReadDigitText(base, ds[1..], upper);
      DigitCharVal(ds[0], upper);
      var s := DigitText(ds, upper);
      assert s[..|s| - 1] == DigitText(ds[1..], upper);
      assert Reversed(ds)[..|ds| - 1] == Reversed(ds[1..]);
    }
  }

  /** A number in decimal. */
  function Decimal(n: nat): string { DigitText(Digits(10, n), false) }

  predicate AllDecimal(s: string) { forall k :: 0 <= k < |s| ==> '0' <= s[k] <= '9' }

  lemma {:induction false} DecimalDigits(ds: seq<nat>)
    requires forall k :: 0 <= k < |ds| ==> ds[k] < 10
    ensures AllDecimal(DigitText(ds, false))
  {
    if ds != [] {
      DecimalDigits(ds[1..]);
    }
  }

  /** It has digits only, reads back, and starts with a zero only if it is zero. */
  lemma {:induction false} DecimalReads(n: nat)
    ensures AllDecimal(Decimal(n)) && Decimal(n) != "" && ReadDigits(10, Decimal(n)) == n
    ensures Decimal(n)[0] == '0' <==> n == 0
  {
    hide NumberOf, Reversed, Digits, ReadDigits, DigitText;
    var ds := Digits(10, n);
    DecimalDigits(ds);
    ReadDigitText(10, ds, false);
    DigitsNumber(10, n);
    TopDigit(10, n);
    FirstChar(ds, false);
  }

  lemma {:induction false} NoDigit()
    ensures ReadDigits(10, "") == 0
  {
  }

  lemma {:induction false} LeadingZeros(base: nat, n: int, s: string)
    ensures ReadDigits(base, Repeat('0', n) + s) == ReadDigits(base, s)
    decreases |s|, n
  {
    var z := Repeat('0', n);
    if s != "" {
      assert (z + s)[..|z + s| - 1] == z + s[..|s| - 1];
      LeadingZeros(base, n, s[..|s| - 1]);
    } else if n > 0 {
      assert z + s == z;
      assert z[..|z| - 1] == Repeat('0', n - 1) + "";
      LeadingZeros(base, n - 1, "");
    }
  }

  lemma {:induction false} TakesAll(s: string, n: int)
    requires AllDigits(s)
    ensures TakeDigits(s + Repeat(' ', n)) == s
  {
    var t := s + Repeat(' ', n);
    if s != "" {
      assert t[1..] == s[1..] + Repeat(' ', n);
      TakesAll(s[1..], n);
    }
  }

  lemma {:induction false} SkipsAll(n: int, s: string)
    ensures SkipSpaces(Repeat(' ', n) + s) == SkipSpaces(s)
  {
    if n > 0 {
      assert (Repeat(' ', n) + s)[1..] == Repeat(' ', n - 1) + s;
      SkipsAll(n - 1, s);
    } else {
      assert Repeat(' ', n) + s == s;
    }
  }

  // ----- the pieces

  /** Prefix, zeros, digits and the spaces after them. */
  function Tail(p: Pieces): string {
    p.prefix + (Repeat('0', p.zeros) + p.digits + Repeat(' ', p.right))
  }

  /** The zeros and digits of every integer conversion stand for the argument's magnitude. */
  lemma {:induction false} DigitsAreMagnitude(d: Directive, x: int)
    ensures var p := CodeLayout(d, x);
      && AllDigits(Repeat('0', p.zeros) + p.digits)
      && ReadDigits(Base(d.conv), Repeat('0', p.zeros) + p.digits) == Abs(x)
  {
    hide Base, Repeat, ReadDigits, DigitText, Digits, Reversed, NumberOf, DigitVal;
    var p, b := CodeLayout(d, x), Base(d.conv);
    ReadDigitText(b, DigitsOf(d, x), d.conv == 'X');
    LeadingZeros(b, p.zeros, p.digits);
    DigitsNumber(b, Abs(x));
    ZeroIsDigit(p.zeros, p.digits);
    NumberOfNone(b);
  }

  lemma {:induction false} ZeroIsDigit(n: int, s: string)
    requires AllDigits(s)
    ensures AllDigits(Repeat('0', n) + s)
  {
  }


  lemma {:induction false} TailReads(d: Directive, x: int)
    requires Proper(d, x)
    ensures var p := CodeLayout(d, x);
      && ReadMagnitude(Base(d.conv), Tail(p)) == Abs(x)
      && (Tail(p) != "" && Tail(p)[0] != ' ' ==> DigitVal(Tail(p)[0]) < 16)
      && (Tail(p) == "" || Tail(p)[0] == ' ' ==> x == 0 && SkipSpaces(Tail(p)) == "")
  {
    hide CodeLayout, Base, Repeat, ReadMagnitude;
    var p := CodeLayout(d, x);
    DigitsAreMagnitude(d, x);
    PrefixOnlyIfNonzero(d, x);
    TailOf(Base(d.conv), p.prefix, Repeat('0', p.zeros) + p.digits, p.right);
  }

  lemma {:induction false} PrefixOnlyIfNonzero(d: Directive, x: int)
    requires Proper(d, x)
    ensures var p := CodeLayout(d, x);
      && (p.prefix == "" || (Base(d.conv) == 16 && p.prefix[0] == '0' && |p.prefix| == 2 && p.prefix[1] in "xX"))
      && (p.digits == "" ==> x == 0)
  {
  }

  lemma {:induction false} TailOf(base: nat, prefix: string, body: string, right: int)
    requires AllDigits(body)
    requires prefix == "" || (base == 16 && |prefix| == 2 && prefix[0] == '0' && prefix[1] in "xX")
    ensures var t := prefix + (body + Repeat(' ', right));
      && ReadMagnitude(base, t) == ReadDigits(base, body)
      && (t != "" && t[0] != ' ' ==> DigitVal(t[0]) < 16)
      && (t == "" || t[0] == ' ' ==> body == "" && SkipSpaces(t) == "")
  {
    hide ReadDigits, Repeat;
    var t := prefix + (body + Repeat(' ', right));
    TakesAll(body, right);
    if prefix != "" {
      assert t[2..] == body + Repeat(' ', right);
    } else {
      assert t == body + Repeat(' ', right);
      NoPrefix(base, body, right);
      if body == "" {
        assert t == Repeat(' ', right) + "";
        SkipsAll(right, "");
      } else {
        assert t[0] == body[0];
      }
    }
  }

  lemma {:induction false} NoPrefix(base: nat, s: string, n: int)
    requires AllDigits(s)
    ensures SkipPrefix(base, s + Repeat(' ', n)) == s + Repeat(' ', n)
  {
    var t := s + Repeat(' ', n);
    if |t| >= 2 {
      assert t[1] == if |s| > 1 then s[1] else ' ';
    }
  }

  /** Every integer conversion reads back as its argument, for every flag, width, precision
      and base, the least negative numbers included. */
  lemma {:induction false} ReadBack(d: Directive, x: int)
    requires Proper(d, x)
    ensures Read(Base(d.conv), CodeLayout(d, x).Text()) == x
  {
    hide Repeat, CodeLayout, ReadMagnitude, Tail;
    var p := CodeLayout(d, x);
    TailReads(d, x);
    TextIsTail(p);
    SkipsAll(p.left, p.sign + Tail(p));
    SignIsSign(d, x);
    var t := p.sign + Tail(p);
    if p.sign == "" {
      assert t == Tail(p);
    } else {
      assert t[1..] == Tail(p) && t[0] == p.sign[0];
    }
    ReadSigned(d, x, p.sign, Tail(p));
  }

  lemma {:induction false} TextIsTail(p: Pieces)
    ensures p.Text() == Repeat(' ', p.left) + (p.sign + Tail(p))
  {
  }

  lemma {:induction false} SignIsSign(d: Directive, x: int)
    ensures CodeLayout(d, x).sign == SignOf(d, x)
  {
  }

  lemma {:induction false} ReadSigned(d: Directive, x: int, sign: string, tail: string)
    requires Proper(d, x) && sign == SignOf(d, x)
    requires ReadMagnitude(Base(d.conv), tail) == Abs(x)
    requires tail != "" && tail[0] != ' ' ==> DigitVal(tail[0]) < 16
    requires tail == "" || tail[0] == ' ' ==> x == 0 && SkipSpaces(tail) == ""
    ensures Read(Base(d.conv), sign + tail) == x
  {
    hide ReadMagnitude, Base;
    var t := sign + tail;
    if sign == "" {
      assert t == tail;
    } else {
      assert t[1..] == tail && t[0] == sign[0];
      assert sign == " " ==> SkipSpaces(t) == SkipSpaces(tail);
    }
    ReadNothing(Base(d.conv));
  }

  lemma {:induction false} ReadNothing(base: nat)
    ensures ReadMagnitude(base, "") == 0
  {
  }
}
