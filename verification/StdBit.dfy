/** The bit operations of include/stdbit.h (section 7.18 of C23) at every width: `w` is the
operand's, `ww` the width of the word that the builtins count in. */
module StdBit {
  import opened Bits

  // ----- the builtins

  /** Leading zeros of the low `ww` bits, from the top down. */
  function Clz(ww: nat, x: nat): (n: nat)
    ensures n <= ww
  {
    if ww == 0 || Bit(x, ww - 1) then 0 else 1 + Clz(ww - 1, x)
  }

  /** Trailing zeros of a nonzero number. */
  function Ctz(x: nat): nat
    requires x > 0
  {
    if x % 2 == 1 then 0 else 1 + Ctz(x / 2)
  }

  function Popcount(x: nat): nat {
    if x == 0 then 0 else x % 2 + Popcount(x / 2)
  }

  // ----- the helpers, as the header has them (lines 35 to 66)

  function Not(w: nat, x: nat): nat
    requires x < Pow2(w)
  {
    Pow2(w) - 1 - x
  }

  function Lz(w: nat, ww: nat, x: nat): int { if x != 0 then Clz(ww, x) - (ww - w) else w }

  function Tz(w: nat, x: nat): nat { if x != 0 then Ctz(x) else w }

  function Lo(w: nat, ww: nat, x: nat): int
    requires x < Pow2(w)
  {
    Lz(w, ww, Not(w, x))
  }

  function To(w: nat, x: nat): nat
    requires x < Pow2(w)
  {
    Tz(w, Not(w, x))
  }

  function Flz(w: nat, ww: nat, x: nat): int
    requires x < Pow2(w)
  {
    if Not(w, x) != 0 then Lo(w, ww, x) + 1 else 0
  }

  function Flo(w: nat, ww: nat, x: nat): int { if x != 0 then Lz(w, ww, x) + 1 else 0 }

  function Ftz(w: nat, x: nat): nat
    requires x < Pow2(w)
  {
    if Not(w, x) != 0 then To(w, x) + 1 else 0
  }

  function Fto(w: nat, x: nat): nat { if x != 0 then Tz(w, x) + 1 else 0 }

  function Cz(w: nat, x: nat): int { w - Popcount(x) }

  predicate One(x: nat) { x != 0 && And(x, x - 1) == 0 }

  function Bw(w: nat, ww: nat, x: nat): int { w - Lz(w, ww, x) }

  function Bf(w: nat, ww: nat, x: nat): nat {
    if x != 0 && Bw(w, ww, x) >= 1 then Pow2(Bw(w, ww, x) - 1) else 0
  }

  function Bc(w: nat, ww: nat, x: nat): nat {
    var k := if x > 1 then Bw(w, ww, x - 1) else 0;
    if 0 <= k < w then Pow2(k) else 0
  }

  // ----- complements

  lemma {:induction false} NotBit(w: nat, x: nat, i: nat)
    requires x < Pow2(w) && i < w
    ensures Bit(Not(w, x), i) <==> !Bit(x, i)
  {
    if i > 0 {
      assert Not(w, x) / 2 == Not(w - 1, x / 2);
      NotBit(w - 1, x / 2, i - 1);
    }
  }

  lemma {:induction false} NotPop(w: nat, x: nat)
    requires x < Pow2(w)
    ensures Popcount(x) + Popcount(Not(w, x)) == w
  {
    if w > 0 {
      var n := Not(w, x);
      assert n / 2 == Not(w - 1, x / 2) && n % 2 == 1 - x % 2;
      NotPop(w - 1, x / 2);
      PopHalf(x);
      PopHalf(n);
    }
  }

  lemma {:induction false} PopHalf(x: nat)
    ensures Popcount(x) == x % 2 + Popcount(x / 2)
  {
  }

  // ----- leading and trailing counts

  /** No bit is set at or above the length. */
  lemma {:induction false} BitAbove(x: nat, i: nat)
    requires i >= BitLength(x)
    ensures !Bit(x, i)
  {
    if x > 0 {
      BitAbove(x / 2, i - 1);
    } else if i > 0 {
      BitAbove(0, i - 1);
    }
  }

  lemma {:induction false} TopIsSet(x: nat)
    requires x > 0
    ensures Bit(x, BitLength(x) - 1)
  {
    if x > 1 {
      TopIsSet(x / 2);
    }
  }

  lemma {:induction false} ClzIsLength(ww: nat, x: nat)
    requires x < Pow2(ww)
    ensures Clz(ww, x) == ww - BitLength(x)
  {
    BitsAtMost(x, ww);
    ClzCounts(ww, x);
  }

  lemma {:induction false} ClzCounts(ww: nat, x: nat)
    requires BitLength(x) <= ww
    ensures Clz(ww, x) == ww - BitLength(x)
  {
    if ww > BitLength(x) {
      BitAbove(x, ww - 1);
      ClzCounts(ww - 1, x);
    } else if x > 0 {
      TopIsSet(x);
    }
  }

  /** Counting in a wider word and taking the extra bits off gives the count at the width:
      everything from the top bit down to the count is zero, and the bit after it is not. */
  lemma {:induction false} LeadingZeros(w: nat, ww: nat, x: nat, i: nat)
    requires w <= ww && x < Pow2(w) && i < w
    ensures var n := Lz(w, ww, x);
      && 0 <= n <= w && n == w - BitLength(x)
      && (i >= w - n ==> !Bit(x, i))
      && (n < w && i == w - n - 1 ==> Bit(x, i))
  {
    LzIsLength(w, ww, x);
    if i >= BitLength(x) {
      BitAbove(x, i);
    }
    if x > 0 {
      TopIsSet(x);
    }
  }

  lemma {:induction false} LzIsLength(w: nat, ww: nat, x: nat)
    requires w <= ww && x < Pow2(w)
    ensures Lz(w, ww, x) == w - BitLength(x) && BitLength(x) <= w
  {
    Pow2Monotone(w, ww);
    BitsAtMost(x, w);
    ClzIsLength(ww, x);
  }

  lemma {:induction false} LeadingOnes(w: nat, ww: nat, x: nat, i: nat)
    requires w <= ww && x < Pow2(w) && i < w
    ensures var n := Lo(w, ww, x);
      && 0 <= n <= w
      && (i >= w - n ==> Bit(x, i))
      && (n < w && i == w - n - 1 ==> !Bit(x, i))
  {
    LeadingZeros(w, ww, Not(w, x), i);
    NotBit(w, x, i);
  }

  lemma {:induction false} CtzBits(x: nat, i: nat)
    requires x > 0
    ensures i < Ctz(x) ==> !Bit(x, i)
    ensures Bit(x, Ctz(x)) && Ctz(x) < BitLength(x)
  {
    if x % 2 == 0 {
      CtzBits(x / 2, if i > 0 then i - 1 else 0);
    }
  }

  lemma {:induction false} TrailingZeros(w: nat, x: nat, i: nat)
    requires x < Pow2(w) && i < w
    ensures var n := Tz(w, x);
      && n <= w && (i < n ==> !Bit(x, i)) && (n < w && i == n ==> Bit(x, i))
  {
    BitsAtMost(x, w);
    if x > 0 {
      CtzBits(x, i);
    } else {
      BitAbove(0, i);
    }
  }

  lemma {:induction false} TrailingOnes(w: nat, x: nat, i: nat)
    requires x < Pow2(w) && i < w
    ensures var n := To(w, x);
      && n <= w && (i < n ==> Bit(x, i)) && (n < w && i == n ==> !Bit(x, i))
  {
    TrailingZeros(w, Not(w, x), i);
    NotBit(w, x, i);
  }

  // ----- the first bit of a kind, counted from 1, or 0 when there is none

  /** A word has no such bit exactly when it is all of the other kind. */
  lemma {:induction false} FirstBits(w: nat, ww: nat, x: nat, i: nat)
    requires w <= ww && x < Pow2(w) && i < w
    ensures (Flo(w, ww, x) == 0 <==> x == 0) && (Fto(w, x) == 0 <==> x == 0)
    ensures (Flz(w, ww, x) == 0 <==> x == Pow2(w) - 1) && (Ftz(w, x) == 0 <==> x == Pow2(w) - 1)
    ensures Flo(w, ww, x) > 0 ==>
      Flo(w, ww, x) <= w && Bit(x, w - Flo(w, ww, x)) && (i > w - Flo(w, ww, x) ==> !Bit(x, i))
    ensures Flz(w, ww, x) > 0 ==>
      Flz(w, ww, x) <= w && !Bit(x, w - Flz(w, ww, x)) && (i > w - Flz(w, ww, x) ==> Bit(x, i))
    ensures Fto(w, x) > 0 ==> Fto(w, x) <= w && Bit(x, Fto(w, x) - 1) && (i < Fto(w, x) - 1 ==> !Bit(x, i))
    ensures Ftz(w, x) > 0 ==> Ftz(w, x) <= w && !Bit(x, Ftz(w, x) - 1) && (i < Ftz(w, x) - 1 ==> Bit(x, i))
  {
    FirstOnes(w, ww, x, i);
    FirstOnes(w, ww, Not(w, x), i);
    NotBit(w, x, i);
    if x != Pow2(w) - 1 {
      NotBit(w, x, w - Flz(w, ww, x));
      NotBit(w, x, Ftz(w, x) - 1);
    }
  }

  lemma {:induction false} FirstOnes(w: nat, ww: nat, x: nat, i: nat)
    requires w <= ww && x < Pow2(w) && i < w
    ensures x > 0 ==> var f := Flo(w, ww, x); 0 < f <= w && Bit(x, w - f) && (i > w - f ==> !Bit(x, i))
    ensures x > 0 ==> var f := Fto(w, x); 0 < f <= w && Bit(x, f - 1) && (i < f - 1 ==> !Bit(x, i))
    ensures x == 0 ==> Flo(w, ww, x) == 0 && Fto(w, x) == 0
  {
    LzIsLength(w, ww, x);
    if x > 0 {
      TopIsSet(x);
      CtzBits(x, i);
      if i >= BitLength(x) {
        BitAbove(x, i);
      }
    }
  }

  /** Zeros and ones together make up the width. */
  lemma {:induction false} CountZeros(w: nat, x: nat)
    requires x < Pow2(w)
    ensures Cz(w, x) == Popcount(Not(w, x)) && 0 <= Cz(w, x) <= w
  {
    NotPop(w, x);
  }

  // ----- powers of two

  lemma {:induction false} AndSelf(x: nat)
    ensures And(x, x) == x
  {
    if x > 0 {
      AndSelf(x / 2);
    }
  }

  lemma {:induction false} PopZero(x: nat)
    ensures Popcount(x) == 0 <==> x == 0
  {
    if x > 0 {
      PopZero(x / 2);
    }
  }

  /** `x & (x - 1)` is zero exactly for one bit set. */
  lemma {:induction false} OneIsPopOne(x: nat)
    ensures One(x) <==> Popcount(x) == 1
  {
    if x > 0 {
      if x % 2 == 1 {
        AndSelf(x / 2);
        PopZero(x / 2);
        assert (x - 1) / 2 == x / 2;
      } else {
        assert (x - 1) / 2 == x / 2 - 1 && (x - 1) % 2 == 1;
        OneIsPopOne(x / 2);
      }
    }
  }

  /** ...which is exactly for a power of two. */
  lemma {:induction false} OneIsPow2(x: nat)
    ensures One(x) <==> x > 0 && x == Pow2(BitLength(x) - 1)
  {
    OneIsPopOne(x);
    PopOneIsPow2(x);
  }

  lemma {:induction false} PopOneIsPow2(x: nat)
    ensures Popcount(x) == 1 <==> x > 0 && x == Pow2(BitLength(x) - 1)
  {
    if x > 1 {
      hide Popcount, Pow2;
      PopOneIsPow2(x / 2);
      PopZero(x / 2);
      PopHalf(x);
      Doubles(BitLength(x / 2));
    }
  }

  /** The bit width is the least power that is above `x`. */
  lemma {:induction false} BitWidth(w: nat, ww: nat, x: nat, k: nat)
    requires w <= ww && x < Pow2(w)
    ensures var b := Bw(w, ww, x);
      0 <= b <= w && x < Pow2(b) && (x < Pow2(k) ==> b <= k)
  {
    LzIsLength(w, ww, x);
    LengthBounds(x);
    if x < Pow2(k) {
      BitsAtMost(x, k);
    }
  }

  /** Bit floor: the greatest power of two not above `x`, 0 for 0. */
  lemma {:induction false} BitFloor(w: nat, ww: nat, x: nat, k: nat)
    requires w <= ww && x < Pow2(w)
    ensures x == 0 ==> Bf(w, ww, x) == 0
    ensures x > 0 ==> Bf(w, ww, x) <= x && One(Bf(w, ww, x)) && (Pow2(k) <= x ==> Pow2(k) <= Bf(w, ww, x))
  {
    if x > 0 {
      LzIsLength(w, ww, x);
      LengthBounds(x);
      Pow2IsOne(BitLength(x) - 1);
      if Pow2(k) <= x {
        BitsAtLeast(x, k);
        Pow2Monotone(k, BitLength(x) - 1);
      }
    }
  }

  lemma {:induction false} Pow2IsOne(k: nat)
    ensures One(Pow2(k)) && BitLength(Pow2(k)) == k + 1
  {
    LengthOfPow2(k);
    OneIsPow2(Pow2(k));
  }

  lemma {:induction false} LengthOfPow2(k: nat)
    ensures BitLength(Pow2(k)) == k + 1
  {
    if k > 0 {
      LengthOfPow2(k - 1);
    }
  }

  /** Bit ceil: the least power of two not below `x`, and 0 exactly when that power does not
      fit the width. */
  lemma {:induction false} BitCeil(w: nat, ww: nat, x: nat, k: nat)
    requires 0 < w <= ww && x < Pow2(w)
    ensures Bc(w, ww, x) == 0 <==> x > Pow2(w - 1)
    ensures Bc(w, ww, x) != 0 ==>
      x <= Bc(w, ww, x) < Pow2(w) && One(Bc(w, ww, x)) && (x <= Pow2(k) ==> Bc(w, ww, x) <= Pow2(k))
  {
    var l := if x > 1 then BitLength(x - 1) else 0;
    if x > 1 {
      LzIsLength(w, ww, x - 1);
      LengthBounds(x - 1);
    }
    if l < w {
      Pow2Monotone(l, w - 1);
      Pow2IsOne(l);
    } else {
      Pow2Monotone(w - 1, l - 1);
    }
    if x <= Pow2(k) && x > 1 {
      BitsAtMost(x - 1, k);
      Pow2Monotone(l, k);
    }
  }
}
