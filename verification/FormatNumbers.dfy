/** The AVR formatter's arithmetic (lib/avr/printf.c): numbers of up to eight bytes divided
and negated in place, a byte at a time, and the digits that come out. */
module FormatNumbers {
  import opened Arith
  import opened Bytes

  lemma {:induction false} NoBytes()
    ensures Value([]) == 0
  {
  }

  /** Lines 65 to 67: one byte of the quotient and the remainder to carry on. */
  method Step(r: nat, low: nat, base: nat) returns (q: nat, r': nat)
    requires r < base && low < 256
    ensures q < 256 && r' < base && r * 256 + low == q * base + r'
  {
    var t := r * 256 + low;
    q, r' := t / base, t % base;
    DivBound(t, base, 256);
  }

  /** The quotient so far with one more byte. */
  lemma {:induction false} Combine(rest0: seq<byte>, rest: seq<byte>, low: byte, base: int, r: int, q: byte, r': int)
    requires Value(rest0) == base * Value(rest) + r
    requires r * 256 + low == q * base + r'
    ensures Value([low] + rest0) == base * Value([q] + rest) + r'
  {
    hide Value;
    ValueCons(low, rest0);
    ValueCons(q, rest);
    CombineArith(Value(rest0), Value(rest), low, base, r, q, r');
  }

  lemma {:induction false} ValueCons(b: byte, v: seq<byte>)
    ensures Value([b] + v) == b + 256 * Value(v)
  {
    assert ([b] + v)[1..] == v;
  }

  lemma {:induction false} CombineArith(h0: int, h: int, low: int, base: int, r: int, q: int, r': int)
    requires h0 == base * h + r && r * 256 + low == q * base + r'
    ensures low + 256 * h0 == base * (q + 256 * h) + r'
  {
    assert base * (q + 256 * h) == q * base + 256 * (base * h);
  }

  /** Divides the number in `v[..nb]` by `base` in place and returns the remainder. */
  method DivMod(v: array<byte>, nb: nat, base: nat) returns (r: nat)
    requires nb <= v.Length && 0 < base < 256
    modifies v
    ensures Value(v[..nb]) == Value(old(v[..nb])) / base
    ensures r == Value(old(v[..nb])) % base
    ensures v[nb..] == old(v[nb..])
  {
    hide Value;
    ghost var v0 := v[..];
    r := 0;
    NoBytes();
    assert v0[nb..nb] == [] && v[nb..nb] == [];
    var i := nb;
    while i > 0
      invariant 0 <= i <= nb && r < base
      invariant v[..i] == v0[..i] && v[nb..] == v0[nb..]
      invariant Value(v0[i..nb]) == base * Value(v[i..nb]) + r
    {
      i := i - 1;
      ghost var rest, rest0, r0 := v[i + 1..nb], v0[i + 1..nb], r;
      var low: int := v[i];
      assert low == v0[i];
      var q;
      q, r := Step(r, low, base);
      v[i] := q;
      Combine(rest0, rest, low, base, r0, q, r);
      assert v[i..nb] == [q] + rest;
      assert v0[i..nb] == [low] + rest0;
    }
    assert v[..nb] == v[0..nb] && v0[..nb] == v0[0..nb];
    DivModUnique(Value(v0[..nb]), base, Value(v[..nb]), r);
  }

  /** Whether the number is zero. */
  method IsZero(v: array<byte>, nb: nat) returns (z: bool)
    requires nb <= v.Length
    ensures z <==> Value(v[..nb]) == 0
  {
    ValueZero(v[..nb]);
    var k := nb;
    while k > 0
      invariant k <= nb && forall j :: k <= j < nb ==> v[j] == 0
    {
      k := k - 1;
      if v[k] != 0 {
        assert v[..nb][k] == v[k];
        return false;
      }
    }
    return true;
  }

  /** Two's complement of the number in `v[..nb]`, in place (lines 175 to 181). */
  method Negate(v: array<byte>, nb: nat)
    requires nb <= v.Length && Value(v[..nb]) > 0
    modifies v
    ensures Value(v[..nb]) == Pow256(nb) - Value(old(v[..nb]))
    ensures v[nb..] == old(v[nb..])
  {
    hide Value;
    NoBytes();
    ghost var v0 := v[..];
    var k, carry := 0, 1;
    while k < nb
      invariant k <= nb && 0 <= carry <= 1
      invariant forall j :: k <= j < v.Length ==> v[j] == v0[j]
      invariant Value(v[..k]) + carry * Pow256(k) == Pow256(k) - Value(v0[..k])
    {
      var b: int := v[k];
      var t := 255 - b + carry;
      ghost var s, s0 := v[..k], v0[..k];
      assert b == v0[k];
      v[k] := t % 256;
      NegateStep(s, s0, b, carry, t % 256, t / 256);
      assert v[..k + 1] == s + [t % 256] && v0[..k + 1] == s0 + [b];
      carry := t / 256;
      k := k + 1;
    }
    ValueBound(v[..nb]);
    assert v[nb..] == v0[nb..];
  }

  lemma {:induction false} NegateStep(s: seq<byte>, s0: seq<byte>, b: byte, carry: int, low: byte, high: int)
    requires |s| == |s0| && low + 256 * high == 255 - b + carry
    requires Value(s) + carry * Pow256(|s|) == Pow256(|s|) - Value(s0)
    ensures Value(s + [low]) + high * Pow256(|s| + 1) == Pow256(|s| + 1) - Value(s0 + [b])
  {
    hide Value;
    ValueAppend(s, low);
    ValueAppend(s0, b);
    NegateArith(Value(s), Value(s0), Pow256(|s|), b, carry, low, high);
  }

  lemma {:induction false} NegateArith(v: int, v0: int, p: int, b: int, carry: int, low: int, high: int)
    requires v + carry * p == p - v0 && low + 256 * high == 255 - b + carry
    ensures v + low * p + high * (256 * p) == 256 * p - (v0 + b * p)
  {
    assert (low + 256 * high) * p == (255 - b + carry) * p;
  }

  // ----- digits

  /** The digits of `n`, least significant first; zero has one digit. */
  function Digits(base: nat, n: nat): (ds: seq<nat>)
    requires base >= 2
    ensures |ds| > 0
    ensures forall k :: 0 <= k < |ds| ==> ds[k] < base
    decreases n
  {
    if n < base then [n] else
    DivShrinks(n, base);
    [n % base] + Digits(base, n / base)
  }

  /** The number that digits, most significant first, stand for. */
  function NumberOf(base: nat, ds: seq<nat>): nat {
    if ds == [] then 0 else NumberOf(base, ds[..|ds| - 1]) * base + ds[|ds| - 1]
  }

  function Reversed<T>(s: seq<T>): (r: seq<T>)
    ensures |r| == |s|
  {
    if s == [] then [] else Reversed(s[1..]) + [s[0]]
  }

  lemma {:induction false} NumberOfReversed(base: nat, ds: seq<nat>)
    requires ds != []
    ensures NumberOf(base, Reversed(ds)) == NumberOf(base, Reversed(ds[1..])) * base + ds[0]
  {
    assert Reversed(ds)[..|ds| - 1] == Reversed(ds[1..]);
  }

  lemma {:induction false} NumberOfNone(base: nat)
    ensures NumberOf(base, Reversed([])) == 0
  {
  }

  /** Digits stand for their number. */
  lemma {:induction false} DigitsNumber(base: nat, n: nat)
    requires base >= 2
    ensures NumberOf(base, Reversed(Digits(base, n))) == n
    decreases n
  {
    hide NumberOf, Reversed;
    var ds := Digits(base, n);
    NumberOfReversed(base, ds);
    if n < base {
      assert ds[1..] == [];
      NumberOfNone(base);
    } else {
      DivShrinks(n, base);
      DivModBack(n, base);
      var q := n / base;
      assert ds[1..] == Digits(base, q);
      DigitsNumber(base, q);
    }
  }

  function Pow(b: nat, k: nat): nat {
    if k == 0 then 1 else b * Pow(b, k - 1)
  }

  lemma {:induction false} DigitCount(base: nat, n: nat, k: nat)
    requires base >= 2 && k > 0 && n < Pow(base, k)
    ensures |Digits(base, n)| <= k
    decreases n
  {
    if n >= base {
      if k == 1 {
        assert Pow(base, 1) == base * Pow(base, 0);
      }
      DivBound(n, base, Pow(base, k - 1));
      DivShrinks(n, base);
      DigitCount(base, n / base, k - 1);
    }
  }

  lemma {:induction false} PowMonotone(a: nat, b: nat, k: nat)
    requires a <= b
    ensures Pow(a, k) <= Pow(b, k)
  {
    if k > 0 {
      PowMonotone(a, b, k - 1);
      MulMonotone(a, b, Pow(a, k - 1));
      MulMonotone(Pow(a, k - 1), Pow(b, k - 1), b);
    }
  }

  lemma {:induction false} PowAdd(b: nat, i: nat, j: nat)
    ensures Pow(b, i + j) == Pow(b, i) * Pow(b, j)
  {
    if i > 0 {
      PowAdd(b, i - 1, j);
      MulAssoc(b, Pow(b, i - 1), Pow(b, j));
    }
  }

  /** A number of at most eight bytes has at most 22 digits in any base from 8 up, so the
      24-byte digit buffer is never overrun. */
  lemma {:induction false} AtMost22Digits(base: nat, n: nat)
    requires base >= 8 && n < 0x1_0000_0000_0000_0000
    ensures |Digits(base, n)| <= 22
  {
    assert Pow(8, 4) == 4096;
    PowAdd(8, 4, 4);
    PowAdd(8, 8, 8);
    PowAdd(8, 16, 4);
    PowAdd(8, 20, 2);
    assert Pow(8, 2) == 64;
    PowMonotone(8, base, 22);
    DigitCount(base, n, 22);
  }
}
