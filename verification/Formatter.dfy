/** The AVR formatter's engine (lib/avr/printf.c): characters go to a bounded buffer or to a
sink, and what they are is `FormatRun.Run`. */
module Formatter {
  import opened Arith
  import opened Bytes
  import opened FormatNumbers
  import opened FormatC11
  import opened FormatConversions
  import opened FormatSpec
  import opened FormatCounts
  import opened FormatRun
  import opened Prelude

  /** How many of `n` characters a buffer of `cap` bytes keeps, a terminator left room for. */
  function Kept(cap: nat, n: nat): (k: nat)
    ensures k <= n
  {
    if n < cap then n else if cap == 0 then 0 else cap - 1
  }

  /** struct __emb_avr_out. */
  class Out {
    const buf: array<char>
    const cap: nat
    const toSink: bool
    var n: nat
    var sunk: string            // what the sink was given
    ghost var made: string      // every character produced
    ghost const limit: nat      // how many there will be
    ghost const before: string  // the buffer at first

    ghost predicate Valid()
      reads this, buf
    {
      && n == |made| <= limit <= 0xffff && cap <= 0xffff
      && |before| == buf.Length
      && (toSink ==> sunk == made && buf[..] == before)
      && (!toSink ==>
            && sunk == "" && (cap <= buf.Length || limit < buf.Length)
            && buf[..] == made[..Kept(cap, n)] + before[Kept(cap, n)..])
    }

    constructor (buf: array<char>, cap: nat, toSink: bool, ghost limit: nat)
      requires limit <= 0xffff && cap <= 0xffff
      requires toSink || cap <= buf.Length || limit < buf.Length
      ensures Valid() && made == "" && this.limit == limit && this.buf == buf && this.cap == cap
      ensures this.toSink == toSink && before == buf[..]
    {
      this.buf, this.cap, this.toSink, this.limit := buf, cap, toSink, limit;
      n, sunk, made, before := 0, "", "", buf[..];
    }

    /** put. The count goes on past the capacity. */
    method Put(c: char)
      requires Valid() && |made| < limit
      modifies this`n, this`sunk, this`made, buf
      ensures Valid() && made == old(made) + [c]
    {
      if toSink {
        sunk := sunk + [c];
      } else if n + 1 < cap {
        buf[n] := c;
      }
      n := n + 1;
      made := made + [c];
    }

    /** pad. */
    method Pad(c: char, count: int)
      requires Valid() && |made| + Max(count, 0) <= limit
      modifies this`n, this`sunk, this`made, buf
      ensures Valid() && made == old(made) + Repeat(c, count)
    {
      var k := count;
      RepeatNone(c, 0);
      while k > 0
        invariant Valid() && k <= Max(count, 0)
        invariant k <= 0 ==> made == old(made) + Repeat(c, count)
        invariant k > 0 ==> made == old(made) + Repeat(c, count - k)
      {
        RepeatMore(c, count - k);
        Put(c);
        k := k - 1;
      }
    }

    /** Characters one after another. */
    method PutAll(s: string)
      requires Valid() && |made| + |s| <= limit
      modifies this`n, this`sunk, this`made, buf
      ensures Valid() && made == old(made) + s
    {
      for k := 0 to |s|
        invariant Valid() && made == old(made) + s[..k]
      {
        Put(s[k]);
      }
    }
  }

  lemma {:induction false} RepeatNone(c: char, n: int)
    requires n <= 0
    ensures Repeat(c, n) == ""
  {
  }

  lemma {:induction false} RepeatMore(c: char, n: nat)
    ensures Repeat(c, n + 1) == Repeat(c, n) + [c]
  {
    assert |Repeat(c, n + 1)| == n + 1;
  }

  // ----- reading the conversion specification (lines 93 to 139)

  method ReadFlags(f: string, start: nat) returns (fl: Flags, i: nat)
    requires Terminated(f) && start < |f|
    ensures (fl, i) == FlagsAt(f, start, NO_FLAGS)
    ensures i < |f|
  {
    fl, i := NO_FLAGS, start;
    while IsFlag(f[i])
      invariant i < |f|
      invariant FlagsAt(f, i, fl) == FlagsAt(f, start, NO_FLAGS)
      decreases |f| - i
    {
      fl := AddFlag(fl, f[i]);
      i := i + 1;
    }
  }

  /** A decimal number; it fits an int at every step. */
  method ReadNumber(f: string, start: nat) returns (w: nat, i: nat)
    requires Terminated(f) && start < |f| && NumberAt(f, start, 0).0 <= 32767
    ensures (w, i) == NumberAt(f, start, 0)
    ensures i < |f|
  {
    w, i := 0, start;
    while IsDecimal(f[i])
      invariant i < |f| && w <= 32767
      invariant NumberAt(f, i, w) == NumberAt(f, start, 0)
      decreases |f| - i
    {
      w := w * 10 + ((f[i] as int) - ('0' as int));
      i := i + 1;
    }
  }

  method ReadLength(f: string, start: nat) returns (len: int, i: nat)
    requires Terminated(f) && start < |f|
    ensures (len, i) == LengthAt(f, start, 0)
    ensures i < |f|
  {
    len, i := 0, start;
    while IsLength(f[i])
      invariant i < |f|
      invariant LengthAt(f, i, len) == LengthAt(f, start, 0)
      decreases |f| - i
    {
      len := AddLength(len, f[i]);
      i := i + 1;
    }
  }

  /** The specification after a `%`. It never looks past the terminator. */
  method ReadSpec(f: string, start: nat, args: seq<Arg>) returns (d: Directive, next: nat, rest: seq<Arg>)
    requires Terminated(f) && start < |f| && Parse(f, start, args).Parsed?
    ensures Parsed(d, next, rest) == Parse(f, start, args)
  {
    hide FlagsAt, NumberAt, LengthAt;
    var fl, i := ReadFlags(f, start);
    var width, prec := 0, -1;
    rest := args;
    if f[i] == '*' {
      i := i + 1;
      width, rest := ToSigned(rest[0].u, 0x10000), rest[1..];
      if width < 0 {
        fl := fl.(minus := true);
        width := -width;
      }
    } else {
      width, i := ReadNumber(f, i);
    }
    if f[i] == '.' {
      i := i + 1;
      if f[i] == '*' {
        i := i + 1;
        prec, rest := ToSigned(rest[0].u, 0x10000), rest[1..];
        if prec < 0 {
          prec := -1;
        }
      } else {
        prec, i := ReadNumber(f, i);
      }
    }
    var len;
    len, next := ReadLength(f, i);
    d := Directive(fl, width, prec, len, f[next]);
  }

  // ----- integer conversions (lines 141 to 216)

  /** The argument's bytes: how many, and the unsigned number they hold. */
  function RawBytes(d: Directive, a: Arg): (nat, nat)
    requires IntValue(d, a).Some?
  {
    if d.conv == 'p' then (2, a.u)
    else if d.len == 2 then (8, a.u)
    else if d.len == 1 then (4, a.u)
    else if d.len == -2 then
      (2, if Signed(d.conv) && a.u % 256 >= 128 then a.u % 256 + 0xff00 else a.u % 256)
    else (2, a.u)
  }

  lemma {:induction false} Pow256Values()
    ensures Pow256(2) == 0x10000 && Pow256(4) == 0x1_0000_0000 && Pow256(8) == 0x1_0000_0000_0000_0000
  {
    assert Pow256(1) == 256;
    assert Pow256(3) == 256 * Pow256(2);
    assert Pow256(5) == 256 * Pow256(4) && Pow256(6) == 256 * Pow256(5) && Pow256(7) == 256 * Pow256(6);
  }

  /** The bytes read as two's complement are the number to print. */
  lemma {:induction false} RawIsValue(d: Directive, a: Arg)
    requires IntValue(d, a).Some? && ArgOk(a)
    ensures var (nb, u) := RawBytes(d, a);
      && 0 < nb <= 8 && u < Pow256(nb)
      && IntValue(d, a).value == if Signed(d.conv) then ToSigned(u, Pow256(nb)) else u
  {
    Pow256Values();
  }

  lemma {:induction false} ByteAt(n: nat, nb: nat, k: nat)
    requires k < nb
    ensures ToBytes(n, nb)[k] == (n / Pow256(k)) % 256
  {
    if k > 0 {
      ByteAt(n / 256, nb - 1, k - 1);
      DivTwice(n, 256, Pow256(k - 1));
      assert ToBytes(n, nb)[k] == ToBytes(n / 256, nb - 1)[k - 1];
    }
  }

  lemma {:induction false} DivTwice(n: nat, a: nat, b: nat)
    requires a > 0 && b > 0
    ensures a * b > 0 && n / (a * b) == n / a / b
  {
    var q, r := n / a, n % a;
    var q', r' := q / b, q % b;
    assert n == q * a + r && q == q' * b + r';
    assert n == q' * (a * b) + (r' * a + r);
    MulMonotone(r' + 1, b, a);
    MulAtLeast(a, b);
    DivModUnique(n, a * b, q', r' * a + r);
  }

  /** Lines 147 to 172: the argument's bytes, least first. */
  method LoadBytes(d: Directive, a: Arg, v: array<byte>) returns (nb: nat)
    requires IntValue(d, a).Some? && ArgOk(a) && v.Length == 8
    modifies v
    ensures nb == RawBytes(d, a).0 <= 8 && v[..nb] == ToBytes(RawBytes(d, a).1, nb)
  {
    hide ToBytes, Pow256;
    var u := a.u;
    if d.conv == 'p' {
      nb := 2;
    } else if d.len == 2 {
      nb := 8;
    } else if d.len == 1 {
      nb := 4;
    } else {
      nb := 2;
      if d.len == -2 {
        u := u % 256;
        if Signed(d.conv) && u >= 128 {
          u := u + 0xff00;
        }
      }
    }
    for k := 0 to nb
      invariant v[..k] == ToBytes(u, nb)[..k]
    {
      v[k] := (u / Pow256(k)) % 256;
      ByteAt(u, nb, k);
    }
  }

  /** Lines 191 and 192: one digit off the number, and whether none is left. */
  method TakeDigit(v: array<byte>, nb: nat, base: nat) returns (r: nat, z: bool)
    requires nb <= v.Length && 2 <= base < 256
    modifies v
    ensures var x, y := Value(old(v[..nb])), Value(v[..nb]);
      && r < base
      && (z ==> Digits(base, x) == [r])
      && (!z ==> y < x && Digits(base, x) == [r] + Digits(base, y))
  {
    hide Value, Digits;
    ghost var x := Value(v[..nb]);
    r := DivMod(v, nb, base);
    z := IsZero(v, nb);
    DigitStep(base, x);
  }

  /** Lines 186 to 193: the digits, least significant first, at most 22 of them. */
  method MakeDigits(v: array<byte>, nb: nat, base: nat, upper: bool, dg: array<char>) returns (nd: nat)
    requires nb <= v.Length == 8 && 8 <= base <= 16 && dg.Length == 24
    modifies v, dg
    ensures var ds := Digits(base, Value(old(v[..nb])));
      && nd == |ds| <= 22
      && forall k :: 0 <= k < nd ==> dg[k] == DigitChar(ds[k], upper)
  {
    hide Value, DigitChar, Digits;
    ghost var ds: seq<nat> := Digits(base, Value(v[..nb]));
    Under64(v[..nb]);
    AtMost22Digits(base, Value(v[..nb]));
    nd := 0;
    var more := true;
    while more
      invariant nd <= |ds|
      invariant forall k :: 0 <= k < nd ==> dg[k] == DigitChar(ds[k], upper)
      invariant more ==> ds[nd..] == Digits(base, Value(v[..nb]))
      invariant !more ==> nd == |ds|
      decreases more, Value(v[..nb])
    {
      var r, z := TakeDigit(v, nb, base);
      assert ds[nd] == r && ds[nd + 1..] == ds[nd..][1..];
      dg[nd] := DigitChar(r, upper);
      nd := nd + 1;
      more := !z;
    }
  }

  lemma {:induction false} Under64(s: seq<byte>)
    requires |s| <= 8
    ensures Value(s) < 0x1_0000_0000_0000_0000
  {
    ValueBound(s);
    Pow256Values();
    Pow256Grows(|s|, 8);
  }

  lemma {:induction false} Pow256Grows(a: nat, b: nat)
    requires a <= b
    ensures Pow256(a) <= Pow256(b)
  {
    if a < b {
      Pow256Grows(a, b - 1);
    }
  }

  /** One more digit taken off. */
  lemma {:induction false} DigitStep(base: nat, x: nat)
    requires base >= 2
    ensures x / base == 0 ==> Digits(base, x) == [x % base]
    ensures x / base != 0 ==> x / base < x && Digits(base, x) == [x % base] + Digits(base, x / base)
  {
    if x < base {
      DivModUnique(x, base, 0, x);
    } else {
      DivShrinks(x, base);
    }
  }

  /** Lines 142 to 193: the argument's sign and the digits of its magnitude. */
  method Magnitude(d: Directive, a: Arg, dg: array<char>) returns (neg: bool, zero: bool, nd: nat)
    requires IntValue(d, a).Some? && ArgOk(a) && dg.Length == 24
    modifies dg
    ensures var x := IntValue(d, a).value;
      && neg == (x < 0) && zero == (x == 0) && nd == |DigitsOf(d, x)| <= 22
      && forall k :: 0 <= k < nd ==> dg[k] == DigitChar(DigitsOf(d, x)[k], d.conv == 'X')
  {
    hide Value, ToBytes, Pow256, Digits, DigitChar;
    var v := new byte[8](_ => 0);
    var nb := LoadBytes(d, a, v);
    ghost var x, u := IntValue(d, a).value, RawBytes(d, a).1;
    RawIsValue(d, a);
    ValueOfBytes(u, nb);
    TopByte(v[..nb]);
    neg := Signed(d.conv) && v[nb - 1] >= 128;
    PosPow(nb);
    if neg {
      Negate(v, nb);
    }
    assert Value(v[..nb]) == Abs(x);
    zero := IsZero(v, nb);
    nd := 0;
    if !(zero && d.prec == 0) {
      nd := MakeDigits(v, nb, Base(d.conv), d.conv == 'X', dg);
    }
  }

  lemma {:induction false} PosPow(k: nat)
    ensures Pow256(k) > 0
  {
  }

  /** Lines 204 to 214: the six pieces, one after another. */
  method Emit(o: Out, d: Directive, nd: nat, dg: array<char>, neg: bool, zero: bool, ghost x: int)
    requires o.Valid() && dg.Length == 24 && o.buf != dg && d.prec >= -1
    requires neg == (x < 0) && zero == (x == 0) && nd == |DigitsOf(d, x)| <= 22
    requires forall k :: 0 <= k < nd ==> dg[k] == DigitChar(DigitsOf(d, x)[k], d.conv == 'X')
    requires |o.made| + |CodeLayout(d, x).Text()| <= o.limit
    modifies o`n, o`sunk, o`made, o.buf
    ensures o.Valid() && o.made == old(o.made) + CodeLayout(d, x).Text()
  {
    hide Repeat, DigitChar, DigitText, DigitsOf, SignText, PrefixText;
    var sign, prefix := SignText(d, neg), PrefixText(d, zero);
    var prec := if (d.flags.hash || d.conv == 'p') && Base(d.conv) == 8 && d.prec <= nd then nd + 1 else d.prec;
    var body := if nd > prec then nd else prec;
    var total := body + |prefix| + |sign|;
    var zpad := if d.flags.zero && !d.flags.minus && prec < 0 && d.width > total then d.width - total else 0;
    var left := if d.flags.minus then 0 else d.width - total - zpad;
    var right := if d.flags.minus then d.width - total else 0;
    assert CodeLayout(d, x) == Pieces(left, sign, prefix, zpad + body - nd, DigitText(DigitsOf(d, x), d.conv == 'X'),
      right);
    WritePieces(o, left, sign, prefix, zpad + body - nd, nd, dg, right, DigitsOf(d, x), d.conv == 'X');
  }

  /** The writes of lines 204 to 214, with no space on the side that is not padded. */
  method WritePieces(o: Out, left: int, sign: string, prefix: string, zeros: int, nd: nat, dg: array<char>,
                     right: int, ghost ds: seq<nat>, ghost upper: bool)
    requires o.Valid() && o.buf != dg && nd == |ds| <= dg.Length
    requires forall k :: 0 <= k < nd ==> ds[k] < 16 && dg[k] == DigitChar(ds[k], upper)
    requires |o.made| + |Pieces(left, sign, prefix, zeros, DigitText(ds, upper), right).Text()| <= o.limit
    modifies o`n, o`sunk, o`made, o.buf
    ensures o.Valid()
    ensures o.made == old(o.made) + Pieces(left, sign, prefix, zeros, DigitText(ds, upper), right).Text()
  {
    hide Repeat, DigitChar, DigitText;
    ghost var m := o.made;
    o.Pad(' ', left);
    o.PutAll(sign);
    o.PutAll(prefix);
    assert o.made == m + (Repeat(' ', left) + sign + prefix);
    o.Pad('0', zeros);
    PutDigits(o, dg, nd, ds, upper);
    assert o.made == m + (Repeat(' ', left) + sign + prefix + Repeat('0', zeros) + DigitText(ds, upper));
    o.Pad(' ', right);
  }

  /** Lines 211 and 212: the digits, last made first. */
  method PutDigits(o: Out, dg: array<char>, nd: nat, ghost ds: seq<nat>, ghost upper: bool)
    requires o.Valid() && nd == |ds| <= dg.Length && o.buf != dg && |o.made| + nd <= o.limit
    requires forall k :: 0 <= k < nd ==> ds[k] < 16 && dg[k] == DigitChar(ds[k], upper)
    modifies o`n, o`sunk, o`made, o.buf
    ensures o.Valid() && o.made == old(o.made) + DigitText(ds, upper)
  {
    hide DigitChar;
    var k := nd;
    assert ds[nd..] == [];
    while k > 0
      invariant 0 <= k <= nd && o.Valid()
      invariant o.made == old(o.made) + DigitText(ds[k..], upper)
      invariant forall j :: 0 <= j < nd ==> dg[j] == DigitChar(ds[j], upper)
    {
      k := k - 1;
      assert ds[k..][1..] == ds[k + 1..];
      o.Put(dg[k]);
    }
    assert ds[0..] == ds;
  }

  /** The integer conversions. */
  method ConvertInt(o: Out, d: Directive, a: Arg)
    requires o.Valid() && IntValue(d, a).Some? && ArgOk(a) && d.prec >= -1
    requires |o.made| + |CodeLayout(d, IntValue(d, a).value).Text()| <= o.limit
    modifies o`n, o`sunk, o`made, o.buf
    ensures o.Valid() && o.made == old(o.made) + CodeLayout(d, IntValue(d, a).value).Text()
    ensures IsInt(d.conv) && !Deviates(d, IntValue(d, a).value) ==>
      o.made == old(o.made) + C11Text(d, IntValue(d, a).value)
  {
    hide CodeLayout, DigitsOf, IntValue, C11Text, Deviates;
    var dg := new char[24];
    if IsInt(d.conv) {
      NumberPrinted(d, a);
      AgreesWithC11(d, IntValue(d, a).value);
    }
    var neg, zero, nd := Magnitude(d, a, dg);
    Emit(o, d, nd, dg, neg, zero, IntValue(d, a).value);
  }

  // ----- the other conversions

  /** A text of `s`'s length, padded (as for `c`, `s` and the floating conversions). */
  method PutPadded(o: Out, d: Directive, s: string)
    requires o.Valid() && |o.made| + |Padded(d, s)| <= o.limit
    modifies o`n, o`sunk, o`made, o.buf
    ensures o.Valid() && o.made == old(o.made) + Padded(d, s)
  {
    hide Repeat;
    if !d.flags.minus {
      o.Pad(' ', d.width - |s|);
    }
    o.PutAll(s);
    if d.flags.minus {
      o.Pad(' ', d.width - |s|);
    }
  }

  /** Lines 232 and 233: how much of the string to print. With a precision it looks at no
      more than that many characters, so the string needs no terminator then. */
  method Measure(s: string, prec: int) returns (n: nat)
    requires PrintLength(s, prec, 0).Some?
    ensures PrintLength(s, prec, 0) == Some(n)
    ensures n <= |s|
  {
    n := 0;
    while (prec < 0 || n < prec) && s[n] != '\0'
      invariant n <= |s| && PrintLength(s, prec, n) == PrintLength(s, prec, 0)
      decreases |s| - n
    {
      n := n + 1;
    }
  }

  /** Lines 244 and 245: the count as an int, low byte first. */
  method StoreInt(data: array<byte>, at: nat, n: nat)
    requires at + 2 <= data.Length
    modifies data
    ensures data[..] == CodeStore(old(data[..]), at, n)
  {
    ghost var was := data[..];
    data[at], data[at + 1] := n % 256, n / 256 % 256;
    assert data[..] == was[..at] + [n % 256, n / 256 % 256] + was[at + 2..];
  }

  /** One conversion, `%` and its specification read already. */
  method ConvertOne(o: Out, d: Directive, args: seq<Arg>, data: array<byte>) returns (rest: seq<Arg>)
    requires o.Valid() && ArgsOk(args) && -1 <= d.prec && Convert(d, args, |o.made|, data[..]).Converted?
    requires |o.made| + |Convert(d, args, |o.made|, data[..]).out| <= o.limit
    modifies o`n, o`sunk, o`made, o.buf, data
    ensures o.Valid() && ArgsOk(rest)
    ensures var c := Convert(d, args, |old(o.made)|, old(data[..]));
      o.made == old(o.made) + c.out && rest == c.args && data[..] == c.mem
  {
    hide CodeLayout, IntValue, Padded, PrintLength, CodeStore;
    rest := args;
    if IsInt(d.conv) {
      ConvertInt(o, d, args[0]);
      rest := args[1..];
    } else if d.conv == 'c' {
      PutPadded(o, d, [(args[0].u % 256) as char]);
      rest := args[1..];
    } else if d.conv == 's' || d.conv == 'S' {
      var s := StringOf(args[0]);
      var n := Measure(s, d.prec);
      PutPadded(o, d, s[..n]);
      rest := args[1..];
    } else if d.conv == 'n' {
      if args[0].at.Some? {
        StoreInt(data, args[0].at.value, o.n);
      }
      rest := args[1..];
    } else if IsFloat(d.conv) {
      PutPadded(o, d, "?");
      rest := args[1..];
    } else {
      o.Put(d.conv);
    }
  }

  // ----- the engine and its entry points

  /** __emb_avr_vformat. The loop ends, and reads the format at its terminator at the
      furthest. */
  method VFormat(o: Out, f: string, args: seq<Arg>, data: array<byte>) returns (r: int)
    requires o.Valid() && o.made == "" && Terminated(f) && ArgsOk(args)
    requires Run(f, 0, args, "", data[..]).Done? && |Run(f, 0, args, "", data[..]).out| <= o.limit
    modifies o`n, o`sunk, o`made, o.buf, data
    ensures o.Valid()
    ensures Done(o.made, data[..]) == Run(f, 0, args, "", old(data[..]))
    ensures r == ToSigned(|o.made|, 0x10000)
  {
    hide Parse, Convert;
    ghost var all := Run(f, 0, args, "", data[..]);
    var i, rest := 0, args;
    while true
      invariant 0 <= i < |f| && o.Valid() && ArgsOk(rest)
      invariant Run(f, i, rest, o.made, data[..]) == all
      decreases |f| - i
    {
      RunExtends(f, i, rest, o.made, data[..]);
      var c := f[i];
      if c == '\0' {
        break;
      }
      if c != '%' {
        RunExtends(f, i + 1, rest, o.made + [c], data[..]);
        o.Put(c);
        i := i + 1;
        continue;
      }
      ParseKeeps(f, i + 1, rest);
      var d, next, left := ReadSpec(f, i + 1, rest);
      if d.conv == '\0' {
        break;
      }
      ghost var cv := Convert(d, left, |o.made|, data[..]);
      RunExtends(f, next + 1, cv.args, o.made + cv.out, cv.mem);
      rest := ConvertOne(o, d, left, data);
      i := next + 1;
    }
    r := ToSigned(o.n, 0x10000);
  }

  /** The arguments a specification leaves are still well formed. */
  lemma {:induction false} ParseKeeps(f: string, i: nat, args: seq<Arg>)
    requires Terminated(f) && i < |f| && ArgsOk(args)
    ensures var p := Parse(f, i, args); p.Parsed? ==> ArgsOk(p.args)
  {
  }

  /** vsnprintf and its kin, lines 273 to 280: the buffer gets as much of the output as fits
      with a terminator after it, nothing else of it changes, and the result counts the
      whole output whatever the capacity. `buf` is the caller's memory: it need hold `cap`
      bytes, or the output and its terminator. */
  method ToBuf(buf: array<char>, cap: nat, f: string, args: seq<Arg>, data: array<byte>) returns (r: int)
    requires Terminated(f) && ArgsOk(args) && cap <= 0xffff && Run(f, 0, args, "", data[..]).Done?
    requires cap <= buf.Length || |Run(f, 0, args, "", data[..]).out| < buf.Length
    modifies buf, data
    ensures var out := Run(f, 0, args, "", old(data[..])).out;
      var k := if |out| < cap then |out| else cap - 1;
      && r == ToSigned(|out|, 0x10000) && data[..] == Run(f, 0, args, "", old(data[..])).mem
      && (cap == 0 ==> buf[..] == old(buf[..]))
      && (cap > 0 ==> k < buf.Length && buf[..] == out[..k] + ['\0'] + old(buf[..])[k + 1..])
  {
    hide Run, ArgsOk, ToSigned, Kept;
    ghost var out, was := Run(f, 0, args, "", data[..]).out, buf[..];
    var n;
    r, n := FillBuf(buf, cap, f, args, data);
    KeptIs(cap, |out|);
    if cap > 0 {
      var end := if n < cap then n else cap - 1;
      Terminate(buf, end, out[..end], was);
    } else {
      assert out[..0] + was[0..] == was;
    }
  }

  lemma {:induction false} KeptIs(cap: nat, n: nat)
    ensures Kept(cap, n) == if cap == 0 then 0 else if n < cap then n else cap - 1
  {
  }

  /** Lines 275 and 276: as much of the output as fits, and its whole length. */
  method FillBuf(buf: array<char>, cap: nat, f: string, args: seq<Arg>, data: array<byte>) returns (r: int, n: nat)
    requires Terminated(f) && ArgsOk(args) && cap <= 0xffff && Run(f, 0, args, "", data[..]).Done?
    requires cap <= buf.Length || |Run(f, 0, args, "", data[..]).out| < buf.Length
    modifies buf, data
    ensures var res := Run(f, 0, args, "", old(data[..]));
      var k := Kept(cap, |res.out|);
      && n == |res.out| && r == ToSigned(n, 0x10000) && data[..] == res.mem
      && k <= buf.Length && buf[..] == res.out[..k] + old(buf[..])[k..]
  {
    hide Run, ArgsOk, ToSigned, Kept;
    ghost var res := Run(f, 0, args, "", data[..]);
    RunExtends(f, 0, args, "", data[..]);
    var o := new Out(buf, cap, false, |res.out|);
    r := VFormat(o, f, args, data);
    n := o.n;
  }

  /** Line 278: the terminator after what was kept. */
  method Terminate(buf: array<char>, end: nat, ghost kept: string, ghost was: string)
    requires |kept| == end < buf.Length == |was| && buf[..] == kept + was[end..]
    modifies buf
    ensures buf[..] == kept + ['\0'] + was[end + 1..]
  {
    buf[end] := '\0';
    assert (kept + was[end..])[end := '\0'] == kept + ['\0'] + was[end + 1..];
  }

  /** printf and its kin, lines 372 to 376: the sink is given exactly the output. */
  method ToOut(f: string, args: seq<Arg>, data: array<byte>) returns (r: int, given: string)
    requires Terminated(f) && ArgsOk(args) && Run(f, 0, args, "", data[..]).Done?
    modifies data
    ensures Done(given, data[..]) == Run(f, 0, args, "", old(data[..]))
    ensures r == ToSigned(|given|, 0x10000)
  {
    hide Run;
    RunExtends(f, 0, args, "", data[..]);
    var none := new char[0];
    var o := new Out(none, 0, true, |Run(f, 0, args, "", data[..]).out|);
    r := VFormat(o, f, args, data);
    given := o.sunk;
  }
}
