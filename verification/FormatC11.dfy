/** What section 7.21.6.1 of C11 asks an integer conversion to write, in the standard's own
terms and apart from how lib/avr/printf.c gets there, and where the two agree. */
module FormatC11 {
  import opened FormatNumbers
  import opened FormatSpec
  import Arith

  function Fill(c: char, n: int): string {
    if n <= 0 then "" else seq(n, _ => c)
  }

  function Digit(n: nat, capitals: bool): char
    requires n < 16
  {
    if n < 10 then (('0' as int) + n) as char
    else ((if capitals then 'A' as int else 'a' as int) + n - 10) as char
  }

  /** A number in a base, most significant digit first. */
  function Numeral(base: nat, n: nat, capitals: bool): (s: string)
    requires 2 <= base <= 16
    ensures s != ""
    decreases n
  {
    if n < base then [Digit(n, capitals)] else
    Arith.DivShrinks(n, base);
    Numeral(base, n / base, capitals) + [Digit(n % base, capitals)]
  }

  /** d, i and u are decimal and o octal; x and X are hexadecimal, X alone in capitals. A
      pointer, which the standard leaves open, is hexadecimal as well. */
  function NumeralFor(conv: char, n: nat): (s: string)
    requires IsInt(conv)
    ensures s != ""
  {
    match conv
    case 'o' => Numeral(8, n, false)
    case 'x' => Numeral(16, n, false)
    case 'p' => Numeral(16, n, false)
    case 'X' => Numeral(16, n, true)
    case _ => Numeral(10, n, false)
  }

  /** Signed conversions alone have one: `-` of a negative number, else `+` or a space if their
      flag is there, `+` first. */
  function Sign(d: Directive, x: int): string {
    if d.conv != 'd' && d.conv != 'i' then ""
    else if x < 0 then "-"
    else if d.flags.plus then "+"
    else if d.flags.space then " "
    else ""
  }

  /** `#` puts 0x before x and 0X before X of a number that is not zero; a pointer has it anyway. */
  function Prefix(d: Directive, x: int): string {
    if x == 0 then ""
    else if d.conv == 'p' || (d.conv == 'x' && d.flags.hash) then "0x"
    else if d.conv == 'X' && d.flags.hash then "0X"
    else ""
  }

  /** The least number of digits: the precision; or, with the `0` flag, no precision and no `-`
      flag, what fills the field. */
  function LeastDigits(d: Directive, x: int): int {
    if d.prec >= 0 then d.prec
    else if d.flags.zero && !d.flags.minus then d.width - |Sign(d, x)| - |Prefix(d, x)|
    else 0
  }

  /** Zero with a precision of zero has no digits. `#` makes an octal number start with a zero if
      it does not already. */
  function Figures(d: Directive, x: int): string
    requires IsInt(d.conv)
  {
    var s := if x == 0 && d.prec == 0 then "" else NumeralFor(d.conv, Abs(x));
    var t := Fill('0', LeastDigits(d, x) - |s|) + s;
    if d.conv == 'o' && d.flags.hash && (t == "" || t[0] != '0') then "0" + t else t
  }

  function Body(d: Directive, x: int): string
    requires IsInt(d.conv)
  {
    Sign(d, x) + Prefix(d, x) + Figures(d, x)
  }

  /** The whole conversion, with spaces to the field width: after it if `-` is given, else before. */
  function C11Text(d: Directive, x: int): string
    requires IsInt(d.conv)
  {
    var b := Body(d, x);
    if d.flags.minus then b + Fill(' ', d.width - |b|) else Fill(' ', d.width - |b|) + b
  }

  // ----- the same in pieces

  function C11Layout(d: Directive, x: int): Pieces {
    var ds := DigitsOf(d, x);
    var sign, prefix := SignOf(d, x), PrefixOf(d, x);
    var padded := if d.flags.zero && !d.flags.minus && d.prec < 0
                  then d.width - |sign| - |prefix| else d.prec;
    var have := Max(|ds|, padded);
    var leading := have > |ds| || (ds != [] && ds[|ds| - 1] == 0);
    var body := if d.flags.hash && d.conv == 'o' && !leading then |ds| + 1 else have;
    var space := d.width - body - |sign| - |prefix|;
    Pieces(
      if d.flags.minus then 0 else space,
      sign, prefix, body - |ds|, DigitText(ds, d.conv == 'X'),
      if d.flags.minus then space else 0)
  }

  lemma {:induction false} FillIsRepeat(c: char, n: int)
    ensures Fill(c, n) == Repeat(c, n)
  {
  }

  lemma {:induction false} DigitIsDigitChar(n: nat, capitals: bool)
    requires n < 16
    ensures Digit(n, capitals) == DigitChar(n, capitals)
  {
  }

  lemma {:induction false} NumeralIsDigitText(base: nat, n: nat, capitals: bool)
    requires 2 <= base <= 16
    ensures Numeral(base, n, capitals) == DigitText(Digits(base, n), capitals)
    decreases n
  {
    if n < base {
      DigitIsDigitChar(n, capitals);
      assert [n][1..] == [];
    } else {
      Arith.DivShrinks(n, base);
      NumeralIsDigitText(base, n / base, capitals);
      DigitIsDigitChar(n % base, capitals);
      assert Digits(base, n)[1..] == Digits(base, n / base);
    }
  }

  lemma {:induction false} NumeralForIsDigitText(conv: char, n: nat)
    requires IsInt(conv)
    ensures NumeralFor(conv, n) == DigitText(Digits(Base(conv), n), conv == 'X')
  {
    hide Digits, DigitText, Numeral;
    NumeralIsDigitText(Base(conv), n, conv == 'X');
  }

  lemma {:induction false} FiguresArePieces(d: Directive, x: int)
    requires Proper(d, x)
    ensures var r := C11Layout(d, x); Figures(d, x) == Repeat('0', r.zeros) + r.digits
  {
    hide Digits, DigitText, NumeralFor, Base, Repeat, Fill, SignOf, PrefixOf, Sign, Prefix;
    var ds, s := DigitsOf(d, x), DigitText(DigitsOf(d, x), d.conv == 'X');
    var n := LeastDigits(d, x) - |s|;
    NumeralForIsDigitText(d.conv, Abs(x));
    SignsAgree(d, x);
    FillIsRepeat('0', n);
    if ds != [] {
      FirstChar(ds, d.conv == 'X');
      ZeroDigit(ds[|ds| - 1], d.conv == 'X');
    }
    LeadingZero(n, s);
  }

  /** Zeros before a text, and whether one more is needed to start with one. */
  lemma {:induction false} LeadingZero(n: int, s: string)
    ensures var t := Repeat('0', n) + s;
      && (n > 0 ==> t[0] == '0')
      && (n <= 0 ==> t == s && t == Repeat('0', 0) + s)
      && (n <= 0 ==> "0" + t == Repeat('0', 1) + s)
  {
  }

  lemma {:induction false} ZeroDigit(n: nat, capitals: bool)
    requires n < 16
    ensures DigitChar(n, capitals) == '0' <==> n == 0
  {
    DigitIsDigitChar(n, capitals);
  }

  lemma {:induction false} SignsAgree(d: Directive, x: int)
    requires IsInt(d.conv)
    ensures Sign(d, x) == SignOf(d, x) && Prefix(d, x) == PrefixOf(d, x)
  {
  }

  lemma {:induction false} PiecesAreText(d: Directive, x: int)
    requires Proper(d, x)
    ensures C11Layout(d, x).Text() == C11Text(d, x)
  {
    hide Figures, Sign, Prefix, SignOf, PrefixOf, Repeat, DigitsOf, DigitText, Fill;
    var r, b := C11Layout(d, x), Body(d, x);
    SignsAgree(d, x);
    FiguresArePieces(d, x);
    FillIsRepeat(' ', d.width - |b|);
    assert b == r.sign + r.prefix + Repeat('0', r.zeros) + r.digits;
    NoSpaces();
    if d.flags.minus {
      FieldText(r, "", b, Repeat(' ', d.width - |b|));
    } else {
      FieldText(r, Repeat(' ', d.width - |b|), b, "");
    }
  }

  lemma {:induction false} NoSpaces()
    ensures Repeat(' ', 0) == ""
  {
  }

  lemma {:induction false} FieldText(r: Pieces, left: string, b: string, right: string)
    requires Repeat(' ', r.left) == left && Repeat(' ', r.right) == right
    requires b == r.sign + r.prefix + Repeat('0', r.zeros) + r.digits
    ensures r.Text() == left + b + right
  {
    hide Repeat;
  }

  /** Where the code parts from C11: `#o` of zero, which writes `00`, and `#o` with the `0`
      flag, which pads with spaces. */
  predicate Deviates(d: Directive, x: int) {
    && d.conv == 'o' && d.flags.hash
    && if d.flags.zero && !d.flags.minus && d.prec < 0
       then (if x == 0 then d.width != 2 else d.width > |Digits(8, Abs(x))| + 1)
       else x == 0 && (d.prec < 0 || d.prec == 1)
  }

  /** The code writes what C11 asks for exactly where it does not deviate. */
  lemma {:induction false} AgreesWithC11(d: Directive, x: int)
    requires Proper(d, x)
    ensures CodeLayout(d, x).Text() == C11Text(d, x) <==> !Deviates(d, x)
  {
    hide Pieces.Text, C11Text;
    PiecesAreText(d, x);
    if !(d.flags.hash && d.conv == 'o') {
      assert CodeLayout(d, x) == C11Layout(d, x);
    } else if d.flags.zero && !d.flags.minus && d.prec < 0 {
      OctalZeroFlag(d, x);
    } else {
      OctalPlain(d, x);
    }
  }

  /** `#o` with the `0` flag at work. */
  lemma {:induction false} OctalZeroFlag(d: Directive, x: int)
    requires Proper(d, x) && d.flags.hash && d.conv == 'o'
    requires d.flags.zero && !d.flags.minus && d.prec < 0
    ensures CodeLayout(d, x).Text() == C11Layout(d, x).Text() <==> !Deviates(d, x)
  {
    hide Repeat, DigitText;
    var c, r := CodeLayout(d, x), C11Layout(d, x);
    var nd := |DigitsOf(d, x)|;
    TopDigit(8, Abs(x));
    assert c.Text() == Repeat(' ', d.width - nd - 1) + Repeat('0', 1) + c.digits;
    if d.width > nd + 1 {
      assert c.Text()[0] == ' ' && r.Text()[0] == '0';
    } else if x != 0 || d.width == 2 {
      assert c.Text() == r.Text();
    } else {
      assert |c.Text()| == 2 && |r.Text()| == 1;
    }
  }

  /** `#o` without it. */
  lemma {:induction false} OctalPlain(d: Directive, x: int)
    requires Proper(d, x) && d.flags.hash && d.conv == 'o'
    requires !(d.flags.zero && !d.flags.minus && d.prec < 0)
    ensures CodeLayout(d, x).Text() == C11Layout(d, x).Text() <==> !Deviates(d, x)
  {
    hide Repeat, DigitText;
    var c, r := CodeLayout(d, x), C11Layout(d, x);
    var nd := |DigitsOf(d, x)|;
    TopDigit(8, Abs(x));
    if x == 0 && (d.prec < 0 || d.prec == 1) {
      assert nd == 1 && c.zeros == 1 && r.zeros == 0;
      assert c.digits[0] == '0' by { OneZero(false); }
      DifferInZeros(c, r);
    } else {
      assert c == r;
    }
  }

  lemma {:induction false} OneZero(upper: bool)
    ensures DigitText([0], upper) == "0"
  {
  }

  /** A zero more or less shows, with the spaces around it on the same side. */
  lemma {:induction false} DifferInZeros(c: Pieces, r: Pieces)
    requires c.zeros == 1 && r.zeros == 0 && |c.digits| == 1 && c.digits == r.digits && c.digits[0] != ' '
    requires c.sign == r.sign == c.prefix == r.prefix == ""
    requires (c.left == r.left - 1 && c.right == r.right == 0) || (c.right == r.right - 1 && c.left == r.left == 0)
    ensures c.Text() != r.Text()
  {
    hide Repeat;
    if c.right == r.right {
      if r.left > 0 {
        assert c.Text()[r.left - 1] == '0' && r.Text()[r.left - 1] == ' ';
      } else {
        assert |c.Text()| == 2 && |r.Text()| == 1;
      }
    } else if r.right > 0 {
      assert c.Text()[1] == c.digits[0] && r.Text()[1] == ' ';
    } else {
      assert |c.Text()| == 2 && |r.Text()| == 1;
    }
  }

  /** `%#o` of zero prints two zeros where C11 asks for one. */
  lemma {:induction false} OctalZeroAtAnInput()
    ensures var d := Directive(Flags(false, false, false, true, false), 0, -1, 0, 'o');
      CodeLayout(d, 0).Text() == "00" && C11Text(d, 0) == "0"
  {
    var d := Directive(Flags(false, false, false, true, false), 0, -1, 0, 'o');
    assert DigitsOf(d, 0) == [0];
    OneZero(false);
    assert Repeat('0', 1) == "0";
    assert CodeLayout(d, 0) == Pieces(-2, "", "", 1, "0", 0);
    assert C11Layout(d, 0).digits == "0";
  }
}
