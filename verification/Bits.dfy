/** Bits of natural numbers: powers of two, single bits and the bitwise `&` of C's unsigned
types, defined on the digits so that they hold at every width. */
module Bits {
  import opened Arith

  function Pow2(k: nat): (p: nat)
    ensures p > 0
  {
    if k == 0 then 1 else 2 * Pow2(k - 1)
  }

  /** Bitwise and. */
  function And(x: nat, y: nat): nat {
    if x == 0 then 0 else (if x % 2 == 1 && y % 2 == 1 then 1 else 0) + 2 * And(x / 2, y / 2)
  }

  lemma {:induction false} Pow2Add(a: nat, b: nat)
    ensures Pow2(a + b) == Pow2(a) * Pow2(b)
  {
    if a > 0 {
      Pow2Add(a - 1, b);
      assert Pow2(a + b) == 2 * (Pow2(a - 1) * Pow2(b));
    }
  }

  lemma {:induction false} Pow2Monotone(a: nat, b: nat)
    requires a <= b
    ensures Pow2(a) <= Pow2(b)
    ensures a < b ==> 2 * Pow2(a) <= Pow2(b)
  {
    if a < b {
      Pow2Monotone(a, b - 1);
    }
  }

  /** The low bit and the rest of a remainder. */
  lemma {:induction false} ModPow2(x: nat, k: nat)
    ensures x % Pow2(k + 1) == x % 2 + 2 * ((x / 2) % Pow2(k))
    ensures x / Pow2(k + 1) == (x / 2) / Pow2(k)
  {
    var h, d := x / 2, Pow2(k);
    var q, r := h / d, h % d;
    assert x == 2 * h + x % 2 && h == q * d + r;
    assert x == q * (2 * d) + (2 * r + x % 2);
    DivModUnique(x, 2 * d, q, 2 * r + x % 2);
  }

  lemma {:induction false} AndOnes(x: nat, w: nat)
    requires x < Pow2(w)
    ensures And(x, Pow2(w) - 1) == x
  {
    if w > 0 {
      AndOdd(x, Pow2(w - 1) - 1);
      AndOnes(x / 2, w - 1);
    }
  }

  lemma {:induction false} AndOdd(x: nat, y: nat)
    ensures And(x, 2 * y + 1) == x % 2 + 2 * And(x / 2, y)
  {
  }

  /** The low `k` bits. */
  function Low(x: nat, k: nat): nat {
    if k == 0 then 0 else x % 2 + 2 * Low(x / 2, k - 1)
  }

  lemma {:induction false} LowIsMod(x: nat, k: nat)
    ensures Low(x, k) == x % Pow2(k)
  {
    if k > 0 {
      LowIsMod(x / 2, k - 1);
      ModPow2(x, k - 1);
    }
  }

  lemma {:induction false} LowStep(x: nat, k: nat)
    requires k > 0
    ensures Low(x, k) == x % 2 + 2 * Low(x / 2, k - 1)
  {
  }

  lemma {:induction false} Doubles(k: nat)
    requires k > 0
    ensures Pow2(k) == 2 * Pow2(k - 1)
  {
  }

  /** Clearing the low `k` bits: `x & ~(2^k - 1)` in `w` bits. */
  lemma {:induction false} AndMask(x: nat, k: nat, w: nat)
    requires x < Pow2(w) && k <= w
    ensures Pow2(k) <= Pow2(w)
    ensures And(x, Pow2(w) - Pow2(k)) == x - Low(x, k)
    decreases k
  {
    hide And;
    Pow2Monotone(k, w);
    if k == 0 {
      AndOnes(x, w);
    } else {
      hide Pow2, Low;
      Doubles(k);
      Doubles(w);
      LowStep(x, k);
      Pow2Monotone(k - 1, w - 1);
      AndEven(x, Pow2(w - 1) - Pow2(k - 1));
      AndMask(x / 2, k - 1, w - 1);
    }
  }

  lemma {:induction false} AndEven(x: nat, y: nat)
    ensures And(x, 2 * y) == 2 * And(x / 2, y)
  {
  }

  /** Bitwise or. */
  function Or(x: nat, y: nat): nat {
    if x == 0 then y
    else if y == 0 then x
    else (if x % 2 == 1 || y % 2 == 1 then 1 else 0) + 2 * Or(x / 2, y / 2)
  }

  /** Numbers whose bits lie apart are added by `|`. */
  lemma {:induction false} OrApart(x: nat, y: nat, k: nat)
    requires x < Pow2(k)
    ensures y * Pow2(k) >= 0 && Or(x, y * Pow2(k)) == x + y * Pow2(k)
  {
    MulMonotone(0, y, Pow2(k));
    if k > 0 {
      hide Pow2, Or;
      Doubles(k);
      var z := y * Pow2(k - 1);
      MulMonotone(0, y, Pow2(k - 1));
      assert y * Pow2(k) == 2 * z by { MulAssoc(y, 2, Pow2(k - 1)); }
      OrApart(x / 2, y, k - 1);
      OrEven(x, z);
    }
  }

  lemma {:induction false} OrEven(x: nat, z: nat)
    ensures Or(x, 2 * z) == x % 2 + 2 * Or(x / 2, z)
  {
  }

  /** A power of two set in a number whose lower bits, and that one, are clear. */
  lemma {:induction false} OrPow2(h: nat, k: nat)
    ensures Or(h * Pow2(k + 1), Pow2(k)) == h * Pow2(k + 1) + Pow2(k)
  {
    if h > 0 {
      var x := h * Pow2(k + 1);
      assert x == 2 * (h * Pow2(k)) by { MulAssoc(h, 2, Pow2(k)); }
      MulAtLeast(h, Pow2(k));
      if k > 0 {
        OrPow2(h, k - 1);
      } else {
        assert Or(x / 2, 0) == x / 2;
      }
    }
  }

  /** How many bits a number takes. */
  function BitLength(x: nat): nat {
    if x == 0 then 0 else 1 + BitLength(x / 2)
  }

  lemma {:induction false} BitsAtLeast(x: nat, k: nat)
    requires x >= Pow2(k)
    ensures BitLength(x) >= k + 1
  {
    if k > 0 {
      BitsAtLeast(x / 2, k - 1);
    }
  }

  lemma {:induction false} BitsAtMost(x: nat, k: nat)
    requires x < Pow2(k)
    ensures BitLength(x) <= k
  {
    if x > 0 && k > 0 {
      BitsAtMost(x / 2, k - 1);
    }
  }

  /** A number lies between the powers of two its length names. */
  lemma {:induction false} LengthBounds(x: nat)
    ensures x < Pow2(BitLength(x))
    ensures x > 0 ==> Pow2(BitLength(x) - 1) <= x
  {
    if x > 0 {
      LengthBounds(x / 2);
    }
  }

  /** Bit `i`, counted from the least. */
  predicate Bit(x: nat, i: nat) {
    if i == 0 then x % 2 == 1 else Bit(x / 2, i - 1)
  }
}
