/** What an integer conversion of lib/avr/printf.c writes, as a layout of six pieces. */
module FormatSpec {
  import opened FormatNumbers
  import Arith

  datatype Flags = Flags(minus: bool, plus: bool, space: bool, hash: bool, zero: bool)

  /** A conversion specification. `prec` is -1 when absent; `len` is -2 (hh) to 2 (ll). */
  datatype Directive = Directive(flags: Flags, width: nat, prec: int, len: int, conv: char)

  predicate IsInt(c: char) { c in "diuoxXp" }

  predicate Signed(c: char) { c == 'd' || c == 'i' }

  function Base(c: char): (b: nat)
    ensures 8 <= b <= 16
  {
    if c == 'o' then 8 else if c == 'x' || c == 'X' || c == 'p' then 16 else 10
  }

  function Repeat(c: char, n: int): (s: string)
    ensures |s| == if n < 0 then 0 else n
    ensures forall k :: 0 <= k < |s| ==> s[k] == c
  {
    if n <= 0 then "" else [c] + Repeat(c, n - 1)
  }

  function Abs(x: int): nat { if x < 0 then -x else x }

  function Max(a: int, b: int): int { if a > b then a else b }

  const LOWER := "0123456789abcdef"
  const UPPER := "0123456789ABCDEF"

  function DigitChar(d: nat, upper: bool): char
    requires d < 16
  {
    if upper then UPPER[d] else LOWER[d]
  }

  /** Digits given least significant first, as text. */
  function DigitText(ds: seq<nat>, upper: bool): (s: string)
    requires forall k :: 0 <= k < |ds| ==> ds[k] < 16
    ensures |s| == |ds|
  {
    if ds == [] then "" else DigitText(ds[1..], upper) + [DigitChar(ds[0], upper)]
  }

  /** Spaces, sign, prefix, zeros, digits, spaces. */
  datatype Pieces = Pieces(left: int, sign: string, prefix: string, zeros: int, digits: string, right: int) {
    function Text(): string {
      Repeat(' ', left) + sign + prefix + Repeat('0', zeros) + digits + Repeat(' ', right)
    }
  }

  /** No digits at all for a zero with precision zero. */
  function DigitsOf(d: Directive, x: int): (ds: seq<nat>)
    ensures forall k :: 0 <= k < |ds| ==> ds[k] < 16
  {
    if x == 0 && d.prec == 0 then [] else Digits(Base(d.conv), Abs(x))
  }

  function SignOf(d: Directive, x: int): (s: string)
    ensures |s| <= 1
  {
    SignText(d, x < 0)
  }

  function SignText(d: Directive, negative: bool): (s: string)
    ensures |s| <= 1
  {
    if !Signed(d.conv) then ""
    else if negative then "-"
    else if d.flags.plus then "+"
    else if d.flags.space then " "
    else ""
  }

  function PrefixOf(d: Directive, x: int): (s: string)
    ensures |s| == 0 || |s| == 2
  {
    PrefixText(d, x == 0)
  }

  function PrefixText(d: Directive, zero: bool): (s: string)
    ensures |s| == 0 || |s| == 2
  {
    if (d.flags.hash || d.conv == 'p') && !zero && Base(d.conv) == 16
    then (if d.conv == 'X' then "0X" else "0x") else ""
  }

  /** Line 196: with `#`, octal always gets one more zero than its digits need. */
  function EffectivePrec(d: Directive, nd: int): int {
    if d.flags.hash && d.conv == 'o' && d.prec <= nd then nd + 1 else d.prec
  }

  function Total(d: Directive, x: int): int {
    var nd := |DigitsOf(d, x)|;
    Max(nd, EffectivePrec(d, nd)) + |PrefixOf(d, x)| + |SignOf(d, x)|
  }

  function ZeroPad(d: Directive, x: int): (n: int)
    ensures n >= 0
  {
    if d.flags.zero && !d.flags.minus && EffectivePrec(d, |DigitsOf(d, x)|) < 0 && d.width > Total(d, x)
    then d.width - Total(d, x) else 0
  }

  function CodeLayout(d: Directive, x: int): Pieces {
    var ds := DigitsOf(d, x);
    var body, zpad := Max(|ds|, EffectivePrec(d, |ds|)), ZeroPad(d, x);
    Pieces(
      if d.flags.minus then 0 else d.width - Total(d, x) - zpad,
      SignOf(d, x), PrefixOf(d, x), zpad + body - |ds|, DigitText(ds, d.conv == 'X'),
      if d.flags.minus then d.width - Total(d, x) else 0)
  }

  /** Each integer conversion writes as many characters as its width or its parts ask for,
      whichever is more, padded on one side only. */
  lemma {:induction false} IntLength(d: Directive, x: int)
    ensures var p := CodeLayout(d, x);
      && |p.Text()| == Max(d.width, |SignOf(d, x)| + |PrefixOf(d, x)| +
                                    Max(|DigitsOf(d, x)|, EffectivePrec(d, |DigitsOf(d, x)|)))
      && p.zeros >= 0 && (p.left <= 0 || p.right <= 0)
  {
  }

  lemma {:induction false} TopDigit(base: nat, n: nat)
    requires base >= 2
    ensures var ds := Digits(base, n); ds[|ds| - 1] == 0 <==> n == 0
    decreases n
  {
    if n >= base {
      Arith.DivShrinks(n, base);
      var ds := Digits(base, n);
      TopDigit(base, n / base);
      assert ds[|ds| - 1] == ds[1..][|ds| - 2];
    }
  }

  /** The digit written first is the last one made. */
  lemma {:induction false} FirstChar(ds: seq<nat>, upper: bool)
    requires ds != [] && forall k :: 0 <= k < |ds| ==> ds[k] < 16
    ensures DigitText(ds, upper)[0] == DigitChar(ds[|ds| - 1], upper)
  {
    if |ds| > 1 {
      FirstChar(ds[1..], upper);
    }
  }

  predicate Proper(d: Directive, x: int) {
    IsInt(d.conv) && d.prec >= -1 && (!Signed(d.conv) ==> x >= 0)
  }
}
