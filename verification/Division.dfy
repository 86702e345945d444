/** The 32-bit division functions of the Arm run-time ABI for a core without a divide
instruction (lib/rt/aeabidiv.c): shift and subtract, after the divisor is lined up under the
dividend's top bit. Words are numbers below 2^32 and every step keeps them there. */
module Division {
  import opened Arith
  import opened Bits
  import opened Prelude

  const WORD := 0x1_0000_0000
  const HALF := 0x8000_0000

  /** Lines 39 to 42: the divisor lined up. `k` is how far it moved. */
  method LineUp(n: u32, d0: u32) returns (d: u32, bit: u32, ghost k: nat)
    requires d0 > 0
    ensures k <= 31 && bit == Pow2(k) && d == d0 * bit
    ensures n < 2 * d
    ensures k > 0 ==> d0 * Pow2(k - 1) <= n
  {
    d, bit, k := d0, 1, 0;
    while d <= n && d < HALF
      invariant bit == Pow2(k) && d == d0 * bit && d >= bit && k <= 31
      invariant k > 0 ==> d0 * Pow2(k - 1) <= n
      decreases WORD - d
    {
      TopBit(k, d);
      assert 2 * d == d0 * (2 * bit);
      d, bit, k := 2 * d, 2 * bit, k + 1;
    }
  }

  lemma {:induction false} Pow2Of31()
    ensures Pow2(31) == 0x8000_0000
  {
    assert Pow2(7) == 128;
    Pow2Add(7, 8);
    Pow2Add(15, 16);
    Pow2Add(8, 8);
    assert Pow2(8) == 256;
  }

  lemma {:induction false} TopBit(k: nat, d: nat)
    requires Pow2(k) <= d < HALF
    ensures k < 31
  {
    if k >= 31 {
      Pow2Of31();
      Pow2Monotone(31, k);
    }
  }

  /** The divisor stands `k` places up. */
  ghost predicate Lined(d0: nat, d: nat, bit: nat, k: nat) { bit == Pow2(k) && d == d0 * bit }

  ghost predicate Recombines(n0: nat, d0: nat, q: nat, n: nat) { n0 == q * d0 + n }

  /** The quotient so far has no bit below place `k`. */
  ghost predicate ClearBelow(q: nat, k: nat) { exists h: nat :: q == h * Pow2(k) }

  /** Taking the divisor off where it goes, and the bit into the quotient. */
  lemma {:induction false} Taken(n0: nat, d0: nat, q: nat, n: nat, d: nat, bit: nat, k: nat)
    requires Recombines(n0, d0, q, n) && Lined(d0, d, bit, k) && ClearBelow(q, k + 1) && n >= d
    ensures Recombines(n0, d0, q + bit, n - d) && ClearBelow(q + bit, k) && Or(q, bit) == q + bit
  {
    hide ClearBelow, Or, Pow2;
    assert (q + bit) * d0 == q * d0 + d0 * bit;
    BitIn(q, k);
  }

  lemma {:induction false} BitIn(q: nat, k: nat)
    requires ClearBelow(q, k + 1)
    ensures ClearBelow(q + Pow2(k), k) && Or(q, Pow2(k)) == q + Pow2(k)
  {
    hide Or;
    var h: nat :| q == h * Pow2(k + 1);
    OrPow2(h, k);
    Doubled(h, Pow2(k));
  }

  lemma {:induction false} Doubled(h: nat, p: nat)
    ensures h * (2 * p) == (2 * h) * p && h * (2 * p) + p == (2 * h + 1) * p
  {
  }

  lemma {:induction false} NotTaken(q: nat, k: nat)
    requires ClearBelow(q, k + 1)
    ensures ClearBelow(q, k)
  {
    var h: nat :| q == h * Pow2(k + 1);
    Doubled(h, Pow2(k));
  }

  lemma {:induction false} StartPlaces(n0: nat, d0: nat, k: nat)
    ensures Recombines(n0, d0, 0, n0) && ClearBelow(0, k)
  {
    assert 0 == 0 * Pow2(k);
  }

  /** The divisor and its place shifted back. */
  lemma {:induction false} ShiftBack(d0: nat, d: nat, bit: nat, k: nat)
    requires Lined(d0, d, bit, k)
    ensures bit > 0
    ensures k > 0 ==> Lined(d0, d / 2, bit / 2, k - 1) && d == 2 * (d / 2)
    ensures k == 0 ==> bit / 2 == 0 && d == d0
  {
    if k > 0 {
      assert d0 * (2 * Pow2(k - 1)) == 2 * (d0 * Pow2(k - 1));
    }
  }

  /** Lines 43 to 50: one subtraction at most for each place; `steps` counts the places. */
  method Places(n0: u32, d0: u32, top: u32, lined: u32, ghost k0: nat) returns (q: u32, n: u32, ghost steps: nat)
    requires d0 > 0 && Lined(d0, lined, top, k0) && n0 < 2 * lined
    ensures Recombines(n0, d0, q, n) && n < d0 && steps == k0 + 1
  {
    hide Lined, Recombines, ClearBelow, Or;
    var d, bit := lined, top;
    q, n, steps := 0, n0, 0;
    ghost var k: int := k0;
    StartPlaces(n0, d0, k0 + 1);
    ShiftBack(d0, d, bit, k0);
    while bit != 0
      invariant -1 <= k <= k0 && steps == k0 - k && Recombines(n0, d0, q, n)
      invariant k >= 0 ==> bit > 0 && Lined(d0, d, bit, k) && n - d < d && ClearBelow(q, k + 1)
      invariant k < 0 ==> bit == 0 && n < d0
      decreases k
    {
      ShiftBack(d0, d, bit, k);
      if n >= d {
        Taken(n0, d0, q, n, d, bit, k);
        QuotientFits(n0, d0, q + bit, n - d);
        n := n - d;
        q := Or(q, bit);
      } else {
        NotTaken(q, k);
      }
      d, bit := d / 2, bit / 2;
      k, steps := k - 1, steps + 1;
      if k >= 0 {
        ShiftBack(d0, d, bit, k);
      }
    }
  }

  lemma {:induction false} QuotientFits(n0: nat, d0: nat, q: nat, r: nat)
    requires d0 > 0 && Recombines(n0, d0, q, r)
    ensures q <= n0
  {
    MulMonotone(1, d0, q);
  }

  /** udivmod: the exact quotient and remainder, in at most one place more than the quotient
      has bits. A zero divisor gives zeros. */
  method Udivmod(n: u32, d: u32) returns (q: u32, rem: u32, ghost steps: nat)
    ensures d == 0 ==> q == 0 && rem == 0
    ensures d > 0 ==> q == n / d && rem == n % d && steps <= BitLength(n / d) + 1
  {
    if d == 0 {
      return 0, 0, 0;
    }
    ghost var k;
    var lined, top;
    lined, top, k := LineUp(n, d);
    q, rem, steps := Places(n, d, top, lined, k);
    DivModUnique(n, d, q, rem);
    StepsBound(n, d, k, q, rem);
  }

  lemma {:induction false} StepsBound(n: nat, d: nat, k: nat, q: nat, r: nat)
    requires d > 0 && n == q * d + r && r < d && (k > 0 ==> d * Pow2(k - 1) <= n)
    ensures k <= BitLength(q)
  {
    if k > 0 {
      QuotientAtLeast(n, d, q, r, Pow2(k - 1));
      BitsAtLeast(q, k - 1);
    }
  }

  lemma {:induction false} QuotientAtLeast(n: nat, d: nat, q: nat, r: nat, p: nat)
    requires n == q * d + r && r < d && d * p <= n
    ensures q >= p
  {
    if q < p {
      MulMonotone(q + 1, p, d);
    }
  }

  // ----- the ABI's functions

  function ToWord(x: int): u32 { x % 0x1_0000_0000 }

  lemma {:induction false} WordOf(x: int)
    requires -0x1_0000_0000 <= x < 0x1_0000_0000
    ensures ToWord(x) == if x < 0 then x + 0x1_0000_0000 else x
  {
    if x < 0 {
      DivModUnique(x, 0x1_0000_0000, -1, x + 0x1_0000_0000);
    } else {
      DivModUnique(x, 0x1_0000_0000, 0, x);
    }
  }

  /** `0u - (u32)n` for a negative, `(u32)n` otherwise. */
  function Magnitude(n: s32): (m: u32)
    ensures m == if n < 0 then 0 - n else n
  {
    WordOf(n);
    WordOf(0 - ToWord(n));
    if n < 0 then ToWord(0 - ToWord(n)) else ToWord(n)
  }

  /** Division toward zero: the remainder is smaller than the divisor and has the dividend's
      sign. */
  predicate Truncated(n: int, d: int, q: int, r: int) {
    && n == q * d + r
    && (if r < 0 then -r else r) < (if d < 0 then -d else d)
    && (r == 0 || (r < 0 <==> n < 0))
  }

  lemma {:induction false} Signs(n: int, d: int, q: int, r: int)
    requires d != 0 && q >= 0 && r >= 0
    requires (if n < 0 then -n else n) == q * (if d < 0 then -d else d) + r && r < (if d < 0 then -d else d)
    ensures Truncated(n, d, if (n < 0) != (d < 0) then -q else q, if n < 0 then -r else r)
  {
    assert (-q) * d == -(q * d) && q * (-d) == -(q * d);
  }

  method Uidiv(n: u32, d: u32) returns (q: u32)
    ensures d > 0 ==> q == n / d
    ensures d == 0 ==> q == 0
  {
    ghost var steps;
    var r;
    q, r, steps := Udivmod(n, d);
  }

  /** __aeabi_idiv: toward zero, except that the one quotient that does not fit wraps. */
  method Idiv(n: s32, d: s32) returns (q: s32)
    ensures d == 0 ==> q == 0
    ensures d != 0 && !(n == -0x8000_0000 && d == -1) ==> exists r :: Truncated(n, d, q, r)
    ensures n == -0x8000_0000 && d == -1 ==> q == -0x8000_0000
  {
    ghost var r;
    q, r := Divide(n, d);
  }

  /** The two words __aeabi_idivmod and __aeabi_idiv make of the unsigned result, as signed
      numbers. */
  method Divide(n: s32, d: s32) returns (q: s32, r: s32)
    ensures d == 0 ==> q == 0 && r == 0
    ensures d != 0 && !(n == -0x8000_0000 && d == -1) ==> Truncated(n, d, q, r)
    ensures n == -0x8000_0000 && d == -1 ==> q == -0x8000_0000 && r == 0
  {
    hide Truncated, Magnitude;
    var uq: int, ur: int := DivideMagnitudes(n, d);
    q := ToSigned(if (n < 0) != (d < 0) then ToWord(0 - uq) else uq, WORD);
    r := ToSigned(if n < 0 then ToWord(0 - ur) else ur, WORD);
  }

  method DivideMagnitudes(n: s32, d: s32) returns (uq: nat, ur: nat)
    ensures d == 0 ==> uq == 0 && ur == 0
    ensures ur < 0x8000_0000 && uq <= 0x8000_0000
    ensures uq == 0x8000_0000 && (n < 0) == (d < 0) ==> n == -0x8000_0000 && d == -1
    ensures n == -0x8000_0000 && d == -1 ==> uq == 0x8000_0000 && ur == 0
    ensures d != 0 ==> Truncated(n, d, if (n < 0) != (d < 0) then 0 - uq else uq, if n < 0 then 0 - ur else ur)
  {
    hide Truncated;
    ghost var steps;
    uq, ur, steps := Udivmod(Magnitude(n), Magnitude(d));
    if d != 0 {
      FromUnsigned(n, d, uq, ur);
    }
  }

  lemma {:induction false} FromUnsigned(n: s32, d: s32, uq: nat, ur: nat)
    requires d != 0 && uq == Magnitude(n) / Magnitude(d) && ur == Magnitude(n) % Magnitude(d)
    ensures ur < 0x8000_0000 && uq <= 0x8000_0000
    ensures uq == 0x8000_0000 && (n < 0) == (d < 0) ==> n == -0x8000_0000 && d == -1
    ensures n == -0x8000_0000 && d == -1 ==> uq == 0x8000_0000 && ur == 0
    ensures Truncated(n, d, if (n < 0) != (d < 0) then 0 - uq else uq, if n < 0 then 0 - ur else ur)
  {
    hide Truncated;
    DivModBack(Magnitude(n), Magnitude(d));
    Signs(n, d, uq, ur);
    Fits(n, d, uq, ur);
  }

  /** Only INT_MIN / -1 has a quotient that does not fit. */
  lemma {:induction false} Fits(n: s32, d: s32, q: nat, r: nat)
    requires d != 0 && Magnitude(n) == q * Magnitude(d) + r && r < Magnitude(d)
    ensures r < 0x8000_0000 && q <= 0x8000_0000
    ensures q == 0x8000_0000 && (n < 0) == (d < 0) ==> n == -0x8000_0000 && d == -1
    ensures n == -0x8000_0000 && d == -1 ==> q == 0x8000_0000 && r == 0
  {
    MulMonotone(1, Magnitude(d), q);
    if Magnitude(d) > 1 {
      MulMonotone(2, Magnitude(d), q);
    }
  }

  /** __aeabi_uidivmod and __aeabi_idivmod: the quotient in the low word and the remainder
      in the high one. */
  method Uidivmod(n: u32, d: u32) returns (both: nat)
    ensures d > 0 ==> both % 0x1_0000_0000 == n / d && both / 0x1_0000_0000 == n % d
    ensures d == 0 ==> both == 0
  {
    ghost var steps;
    var q: int, r: int;
    q, r, steps := Udivmod(n, d);
    both := r * 0x1_0000_0000 + q;
  }

  method Idivmod(n: s32, d: s32) returns (both: nat)
    ensures both < 0x1_0000_0000_0000_0000
    ensures var q, r := ToSigned(both % 0x1_0000_0000, 0x1_0000_0000), ToSigned(both / 0x1_0000_0000, 0x1_0000_0000);
      && (d == 0 ==> q == 0 && r == 0)
      && (d != 0 && !(n == -0x8000_0000 && d == -1) ==> Truncated(n, d, q, r))
      && (n == -0x8000_0000 && d == -1 ==> q == -0x8000_0000 && r == 0)
  {
    hide Truncated;
    var q, r := Divide(n, d);
    var hi: int, lo: int := ToWord(r), ToWord(q);
    both := hi * 0x1_0000_0000 + lo;
  }

  /** Truncated division has one answer. */
  lemma {:induction false} TruncatedIsUnique(n: int, d: int, q: int, r: int, q': int, r': int)
    requires Truncated(n, d, q, r) && Truncated(n, d, q', r')
    ensures q == q' && r == r'
  {
    assert (q - q') * d == r' - r;
    if q > q' {
      Apart(q - q', d);
    } else if q < q' {
      assert (q' - q) * d == r - r';
      Apart(q' - q, d);
    }
  }

  lemma {:induction false} Apart(k: int, d: int)
    requires k >= 1
    ensures var p := k * d; (if p < 0 then -p else p) >= (if d < 0 then -d else d)
  {
    if d >= 0 {
      MulMonotone(1, k, d);
    } else {
      MulMonotone(1, k, -d);
      assert k * (-d) == -(k * d);
    }
  }
}
