/** The whole output of a format string and its arguments (lib/avr/printf.c, lines 82 to
265), as text, and the data memory that `%n` stores in. `Undefined` marks what C leaves
undefined (an argument of the wrong type, a `%n` object outside the memory, a string that ends
before its precision without a terminator) and where the code's own ints overflow: a width or
precision above 32767, parts of a conversion or a string longer than that, and more output
than the 16-bit count can hold. */
module FormatRun {
  import opened Prelude
  import opened Bytes
  import opened FormatCounts
  import opened FormatSpec

  /** An argument as va_arg fetches it. Numbers are their unsigned values. */
  datatype Arg =
    | IntArg(u: nat)
    | LongArg(u: nat)
    | LongLongArg(u: nat)
    | PtrArg(u: nat)
    | StrArg(s: Option<string>)
    | DoubleArg
    | CountArg(at: Option<nat>)

  predicate ArgOk(a: Arg) {
    match a
    case IntArg(u) => u < 0x10000
    case LongArg(u) => u < 0x1_0000_0000
    case LongLongArg(u) => u < 0x1_0000_0000_0000_0000
    case PtrArg(u) => u < 0x10000
    case _ => true
  }

  predicate ArgsOk(args: seq<Arg>) { forall k :: 0 <= k < |args| ==> ArgOk(args[k]) }

  /** A format string with its terminator. */
  predicate Terminated(f: string) {
    f != "" && f[|f| - 1] == '\0' && forall k :: 0 <= k < |f| - 1 ==> f[k] != '\0'
  }

  // ----- the conversion specification

  const NO_FLAGS := Flags(false, false, false, false, false)

  predicate IsFlag(c: char) { c == '-' || c == '+' || c == ' ' || c == '#' || c == '0' }

  function AddFlag(fl: Flags, c: char): Flags {
    if c == '-' then fl.(minus := true)
    else if c == '+' then fl.(plus := true)
    else if c == ' ' then fl.(space := true)
    else if c == '#' then fl.(hash := true)
    else fl.(zero := true)
  }

  function FlagsAt(f: string, i: nat, fl: Flags): (r: (Flags, nat))
    requires Terminated(f) && i < |f|
    ensures i <= r.1 < |f|
    decreases |f| - i
  {
    if IsFlag(f[i]) then FlagsAt(f, i + 1, AddFlag(fl, f[i])) else (fl, i)
  }

  predicate IsDecimal(c: char) { '0' <= c <= '9' }

  function NumberAt(f: string, i: nat, acc: nat): (r: (nat, nat))
    requires Terminated(f) && i < |f|
    ensures i <= r.1 < |f| && r.0 >= acc
    decreases |f| - i
  {
    if IsDecimal(f[i]) then NumberAt(f, i + 1, acc * 10 + ((f[i] as int) - ('0' as int))) else (acc, i)
  }

  predicate IsLength(c: char) { c == 'h' || c == 'l' || c == 'z' || c == 't' || c == 'j' }

  function AddLength(len: int, c: char): int {
    if c == 'h' then (if len < 0 then -2 else -1)
    else if c == 'l' then (if len > 0 then 2 else 1)
    else if c == 'z' || c == 't' then 0
    else 2
  }

  function LengthAt(f: string, i: nat, len: int): (r: (int, nat))
    requires Terminated(f) && i < |f|
    ensures i <= r.1 < |f|
    decreases |f| - i
  {
    if IsLength(f[i]) then LengthAt(f, i + 1, AddLength(len, f[i])) else (len, i)
  }

  datatype Field = Field(value: int, next: nat, args: seq<Arg>) | BadField

  /** An int argument taken for `*`. */
  function StarAt(i: nat, args: seq<Arg>): Field {
    if args != [] && args[0].IntArg? then Field(ToSigned(args[0].u, 0x10000), i, args[1..]) else BadField
  }

  /** The width; negative when `*` took a negative one. */
  function WidthAt(f: string, i: nat, args: seq<Arg>): (w: Field)
    requires Terminated(f) && i < |f|
    ensures w.Field? ==> i <= w.next < |f| && -32768 < w.value <= 32767
  {
    if f[i] == '*' then
      var w := StarAt(i + 1, args);
      if w.Field? && -32768 < w.value <= 32767 then w else BadField
    else
      var (w, j) := NumberAt(f, i, 0);
      if w <= 32767 then Field(w, j, args) else BadField
  }

  /** The precision, -1 when there is none. */
  function PrecAt(f: string, i: nat, args: seq<Arg>): (p: Field)
    requires Terminated(f) && i < |f|
    ensures p.Field? ==> i <= p.next < |f| && -1 <= p.value <= 32767
  {
    if f[i] != '.' then Field(-1, i, args)
    else if f[i + 1] == '*' then
      var p := StarAt(i + 2, args);
      if p.Field? && p.value <= 32767 then (if p.value < 0 then p.(value := -1) else p) else BadField
    else
      var (p, j) := NumberAt(f, i + 1, 0);
      if p <= 32767 then Field(p, j, args) else BadField
  }

  datatype Parsed = Parsed(d: Directive, next: nat, args: seq<Arg>) | BadSpec

  /** The specification after a `%`; `next` is its conversion character. */
  function Parse(f: string, i: nat, args: seq<Arg>): (r: Parsed)
    requires Terminated(f) && i < |f|
    ensures r.Parsed? ==> i <= r.next < |f| && r.d.conv == f[r.next] && -1 <= r.d.prec <= 32767 && r.d.width <= 32767
  {
    var (fl, j) := FlagsAt(f, i, NO_FLAGS);
    var w := WidthAt(f, j, args);
    if w.BadField? then BadSpec else
    var p := PrecAt(f, w.next, w.args);
    if p.BadField? then BadSpec else
    var (len, k) := LengthAt(f, p.next, 0);
    var fl' := if w.value < 0 then fl.(minus := true) else fl;
    Parsed(Directive(fl', Abs(w.value), p.value, len, f[k]), k, p.args)
  }

  // ----- the conversions

  /** The number an integer conversion prints: the argument at its own width, with the sign
      that the conversion gives it. */
  function IntValue(d: Directive, a: Arg): Option<int> {
    if d.conv == 'p' then (if a.PtrArg? then Some(a.u) else None)
    else if d.len == 2 then
      (if a.LongLongArg? then Some(if Signed(d.conv) then ToSigned(a.u, 0x1_0000_0000_0000_0000) else a.u) else None)
    else if d.len == 1 then
      (if a.LongArg? then Some(if Signed(d.conv) then ToSigned(a.u, 0x1_0000_0000) else a.u) else None)
    else if !a.IntArg? then None
    else if d.len == -2 then
      Some(if Signed(d.conv) then ToSigned(a.u % 256, 256) else a.u % 256)
    else
      Some(if Signed(d.conv) then ToSigned(a.u, 0x10000) else a.u)
  }

  /** Text padded to the width on the side the `-` flag says. */
  function Padded(d: Directive, s: string): string {
    if d.flags.minus then s + Repeat(' ', d.width - |s|) else Repeat(' ', d.width - |s|) + s
  }

  /** How much of a string is printed: up to its terminator and its precision. */
  function PrintLength(s: string, prec: int, n: nat): (r: Option<nat>)
    requires n <= |s|
    ensures r.Some? ==> n <= r.value <= |s| && (prec >= 0 && n <= prec ==> r.value <= prec)
    decreases |s| - n
  {
    if prec >= 0 && n >= prec then Some(n)
    else if n == |s| then None
    else if s[n] == '\0' then Some(n)
    else PrintLength(s, prec, n + 1)
  }

  datatype Converted = Converted(out: string, args: seq<Arg>, mem: seq<byte>) | BadConversion

  predicate IsFloat(c: char) { c in "eEfFgGaA" }

  /** One conversion: its output, the arguments left, and the memory after it. `made` is the
      number of characters produced before it. */
  function Convert(d: Directive, args: seq<Arg>, made: nat, mem: seq<byte>): (c: Converted)
    ensures c.Converted? ==> |c.mem| == |mem|
  {
    if IsInt(d.conv) then
      if args == [] then BadConversion else
      var x := IntValue(d, args[0]);
      if x.None? || Total(d, x.value) > 32767 then BadConversion
      else Converted(CodeLayout(d, x.value).Text(), args[1..], mem)
    else if d.conv == 'c' then
      if args == [] || !args[0].IntArg? then BadConversion
      else Converted(Padded(d, [(args[0].u % 256) as char]), args[1..], mem)
    else if d.conv == 's' || d.conv == 'S' then
      if args == [] || !args[0].StrArg? then BadConversion else
      var s := StringOf(args[0]);
      var n := PrintLength(s, d.prec, 0);
      if n.None? || n.value > 32767 then BadConversion else Converted(Padded(d, s[..n.value]), args[1..], mem)
    else if d.conv == 'n' then
      if args == [] || !args[0].CountArg? then BadConversion
      else if args[0].at.None? then Converted("", args[1..], mem)
      else if args[0].at.value + 2 > |mem| then BadConversion
      else Converted("", args[1..], CodeStore(mem, args[0].at.value, made))
    else if IsFloat(d.conv) then
      if args == [] || !args[0].DoubleArg? then BadConversion
      else Converted(Padded(d, "?"), args[1..], mem)
    else Converted([d.conv], args, mem)
  }

  /** `%n` leaves memory as C11 asks if and only if the modifier's type is as wide as an int, or
      the bytes in which the two stores differ hold the right values already. */
  lemma {:induction false} CountAgreesWithC11(d: Directive, args: seq<Arg>, made: nat, mem: seq<byte>, v: int)
    requires d.conv == 'n' && args != [] && args[0].CountArg? && args[0].at.Some? && v % 0x10000 == made % 0x10000
    requires args[0].at.value + 2 <= |mem| && args[0].at.value + CountSize(d.len) <= |mem|
    ensures var c, at, w := Convert(d, args, made, mem), args[0].at.value, CountSize(d.len);
      && c.Converted? && c.out == "" && c.args == args[1..]
      && (c.mem == C11Store(mem, at, d.len, v) <==>
            || w == 2
            || (w > 2 && mem[at + 2..at + w] == NumberBytes(v, w)[2..])
            || (w == 1 && mem[at + 1] == IntBytes(made)[1]))
  {
    hide CodeStore, C11Store, NumberBytes, IntBytes;
    StoresAgree(mem, args[0].at.value, d.len, made, v);
  }

  /** A null string prints as "(null)". */
  function StringOf(a: Arg): string
    requires a.StrArg?
  {
    if a.s.None? then "(null)\0" else a.s.value
  }

  // ----- the whole format

  datatype Result = Done(out: string, mem: seq<byte>) | Undefined

  /** From position `i` of the format, with `out` written so far. */
  function Run(f: string, i: nat, args: seq<Arg>, out: string, mem: seq<byte>): (r: Result)
    requires Terminated(f) && i < |f|
    ensures r.Done? ==> |r.mem| == |mem|
    decreases |f| - i
  {
    if |out| > 0xffff then Undefined
    else if f[i] == '\0' then Done(out, mem)
    else if f[i] != '%' then Run(f, i + 1, args, out + [f[i]], mem)
    else
      var s := Parse(f, i + 1, args);
      if s.BadSpec? then Undefined
      else if s.d.conv == '\0' then Done(out, mem)
      else
        var c := Convert(s.d, s.args, |out|, mem);
        if c.BadConversion? then Undefined
        else Run(f, s.next + 1, c.args, out + c.out, c.mem)
  }

  /** What is written is never taken back. */
  lemma {:induction false} RunExtends(f: string, i: nat, args: seq<Arg>, out: string, mem: seq<byte>)
    requires Terminated(f) && i < |f|
    ensures var r := Run(f, i, args, out, mem);
      r.Done? ==> out <= r.out && |r.out| <= 0xffff
    decreases |f| - i
  {
    hide Parse, Convert;
    if |out| <= 0xffff && f[i] != '\0' {
      if f[i] != '%' {
        RunExtends(f, i + 1, args, out + [f[i]], mem);
      } else {
        var s := Parse(f, i + 1, args);
        if s.Parsed? && s.d.conv != '\0' {
          var c := Convert(s.d, s.args, |out|, mem);
          if c.Converted? {
            RunExtends(f, s.next + 1, c.args, out + c.out, c.mem);
          }
        }
      }
    }
  }
}
