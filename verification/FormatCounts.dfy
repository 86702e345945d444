/** What `%n` stores: lib/avr/printf.c, lines 242 to 246, against section 7.21.6.1 of C11. The
code stores an int, two bytes on AVR, whatever the length modifier; C11 asks for the modifier's
own type. */
module FormatCounts {
  import opened Arith
  import opened Bytes
  import opened Prelude

  /** The bytes `bs` written at `at`. */
  function Written(mem: seq<byte>, at: nat, bs: seq<byte>): (m: seq<byte>)
    requires at + |bs| <= |mem|
    ensures |m| == |mem|
  {
    mem[..at] + bs + mem[at + |bs|..]
  }

  /** The low two bytes of the count. */
  function IntBytes(n: nat): (bs: seq<byte>)
    ensures |bs| == 2
  {
    [n % 256, n / 256 % 256]
  }

  /** As coded: an int at `at`. */
  function CodeStore(mem: seq<byte>, at: nat, n: nat): (m: seq<byte>)
    requires at + 2 <= |mem|
    ensures |m| == |mem|
  {
    Written(mem, at, IntBytes(n))
  }

  /** The size of the object the length modifier names: signed char for hh, short for h, long for
      l, long long for ll and j, and int or a type as wide for none, z and t. */
  function CountSize(len: int): (w: nat)
    ensures w == 1 || w == 2 || w == 4 || w == 8
  {
    if len == -2 then 1 else if len == 1 then 4 else if len == 2 then 8 else 2
  }

  /** `v` as a two's complement number of `w` bytes, least first. */
  function NumberBytes(v: int, w: nat): (bs: seq<byte>)
    ensures |bs| == w
  {
    ToBytes(v % Pow256(w), w)
  }

  /** As C11 has it: the count in the modifier's type. */
  function C11Store(mem: seq<byte>, at: nat, len: int, v: int): (m: seq<byte>)
    requires at + CountSize(len) <= |mem|
    ensures |m| == |mem|
  {
    Written(mem, at, NumberBytes(v, CountSize(len)))
  }

  // ----- bytes of a number

  lemma {:induction false} RestOfRest(v: int, q: nat, d: nat)
    requires d > 0 && q > 0 && q * d > 0
    ensures v % (q * d) % d == v % d
  {
    DivModBack(v, q * d);
    var k, r := v / (q * d), v % (q * d);
    MulAssoc(k, q, d);
    ModShift(r, k * q, d);
  }

  lemma {:induction false} Powers()
    ensures Pow256(1) == 256 && Pow256(2) == 0x10000 && Pow256(4) == 0x1_0000_0000
    ensures Pow256(8) == 0x1_0000_0000_0000_0000
  {
    assert Pow256(4) == 256 * Pow256(3) == 256 * (256 * Pow256(2));
    assert Pow256(8) == 256 * Pow256(7) == 256 * (256 * Pow256(6));
    assert Pow256(6) == 256 * Pow256(5) == 256 * (256 * Pow256(4));
  }

  lemma {:induction false} FirstByte(x: nat, w: nat)
    requires w >= 1
    ensures ToBytes(x, w)[0] == x % 256
  {
  }

  lemma {:induction false} SecondByte(x: nat, w: nat)
    requires w >= 2
    ensures ToBytes(x, w)[1] == x / 256 % 256
  {
    assert ToBytes(x, w)[1..] == ToBytes(x / 256, w - 1);
    FirstByte(x / 256, w - 1);
  }

  /** The first two bytes of a number are those of its low 16 bits. */
  lemma {:induction false} LowBytes(v: int, n: nat, w: nat)
    requires v % 0x10000 == n % 0x10000 && (w == 1 || w == 2 || w == 4 || w == 8)
    ensures NumberBytes(v, w)[0] == IntBytes(n)[0]
    ensures w >= 2 ==> NumberBytes(v, w)[1] == IntBytes(n)[1]
  {
    hide Pow256, ToBytes;
    Powers();
    var x := v % Pow256(w);
    FirstByte(x, w);
    RestOfRest(n, 256, 256);
    RestOfRest(v, 256, 256);
    if w == 1 {
      LowOfByte(v);
    } else {
      SecondByte(x, w);
      SameLow(v, w);
      LowTwo(x);
      LowTwo(n);
    }
  }

  lemma {:induction false} LowOfByte(v: int)
    ensures v % 256 % 256 == v % 256
  {
  }

  lemma {:induction false} SameLow(v: int, w: nat)
    requires w == 2 || w == 4 || w == 8
    ensures v % Pow256(w) % 0x10000 == v % 0x10000
  {
    hide Pow256;
    Powers();
    if w == 2 {
      RestOfRest(v, 1, 0x10000);
    } else if w == 4 {
      RestOfRest(v, 0x10000, 0x10000);
    } else {
      RestOfRest(v, 0x1_0000_0000_0000, 0x10000);
    }
  }

  /** The two bytes are settled by the remainder modulo 2^16. */
  lemma {:induction false} LowTwo(x: nat)
    ensures x % 256 == x % 0x10000 % 256 && x / 256 % 256 == x % 0x10000 / 256
  {
    RestOfRest(x, 256, 256);
    DivModBack(x, 0x10000);
    var q, r := x / 0x10000, x % 0x10000;
    DivModBack(r, 256);
    DivModUnique(x, 256, 256 * q + r / 256, r % 256);
    DivModUnique(256 * q + r / 256, 256, q, r / 256);
  }

  // ----- the two stores

  lemma {:induction false} SameWrite(mem: seq<byte>, at: nat, a: seq<byte>, b: seq<byte>)
    requires |a| <= |b| && at + |b| <= |mem|
    ensures Written(mem, at, a) == Written(mem, at, b) <==> b == a + mem[at + |a|..at + |b|]
  {
    var x, y := Written(mem, at, a), Written(mem, at, b);
    assert x[at..at + |b|] == a + mem[at + |a|..at + |b|] && y[at..at + |b|] == b;
    if b == a + mem[at + |a|..at + |b|] {
      assert forall k :: 0 <= k < |mem| ==> x[k] == y[k];
    }
  }

  /** What `%n` stores is what C11 asks for if and only if the modifier's type is as wide as an
      int; or it is wider and the bytes above the int are the count's already; or it is hh and
      the byte after the object is the count's high byte already. `v` is the count, however the
      bits above the int are taken. */
  lemma {:induction false} StoresAgree(mem: seq<byte>, at: nat, len: int, n: nat, v: int)
    requires v % 0x10000 == n % 0x10000 && at + 2 <= |mem| && at + CountSize(len) <= |mem|
    ensures var w := CountSize(len);
      CodeStore(mem, at, n) == C11Store(mem, at, len, v) <==>
      || w == 2
      || (w > 2 && mem[at + 2..at + w] == NumberBytes(v, w)[2..])
      || (w == 1 && mem[at + 1] == IntBytes(n)[1])
  {
    hide NumberBytes, IntBytes, Written;
    var w, a := CountSize(len), IntBytes(n);
    var b := NumberBytes(v, w);
    LowBytes(v, n, w);
    if w == 1 {
      SameWrite(mem, at, b, a);
      assert b + mem[at + 1..at + 2] == [a[0], mem[at + 1]];
      assert a == [a[0], a[1]];
    } else {
      SameWrite(mem, at, a, b);
      assert b == a + b[2..];
      assert a + b[2..] == a + mem[at + 2..at + w] ==> (a + b[2..])[2..] == (a + mem[at + 2..at + w])[2..];
    }
  }

  /** With the count taken as the int that the code has, the bytes above it are its sign. */
  lemma {:induction false} SignExtension(n: nat, len: int)
    requires n < 0x10000 && CountSize(len) > 2
    ensures var v, w := ToSigned(n, 0x10000), CountSize(len);
      NumberBytes(v, w)[2..] == Filled(if v < 0 then 0xff else 0, w - 2)
  {
    hide Pow256;
    Powers();
    var v, w := ToSigned(n, 0x10000), CountSize(len);
    var x := v % Pow256(w);
    assert x == if v < 0 then v + Pow256(w) else v by { Wraps(v, Pow256(w)); }
    HighBytes(x, w, if v < 0 then 0xff else 0, n);
  }

  lemma {:induction false} Wraps(v: int, p: int)
    requires -p <= v < p && p > 0
    ensures v % p == if v < 0 then v + p else v
  {
    if v < 0 {
      DivModUnique(v, p, -1, v + p);
    } else {
      DivModUnique(v, p, 0, v);
    }
  }

  /** A number whose bytes above the second are all alike. */
  lemma {:induction false} HighBytes(x: nat, w: nat, b: byte, low: nat)
    requires (w == 4 || w == 8) && low < 0x10000 && (b == 0 || b == 0xff)
    requires x == low + (if b == 0 then 0 else Pow256(w) - 0x10000)
    ensures ToBytes(x, w)[2..] == Filled(b, w - 2)
  {
    hide ToBytes, Pow256;
    Powers();
    var h := if b == 0 then 0 else Pow256(w - 2) - 1;
    assert Pow256(6) == 0x1_0000_0000_0000 by { SixBytes(); }
    assert x == h * 0x10000 + low;
    DropTwo(x, w);
    DivTwice256(x, h, low);
    AllAlike(h, w - 2, b);
  }

  lemma {:induction false} SixBytes()
    ensures Pow256(6) == 0x1_0000_0000_0000
  {
    assert Pow256(6) == 256 * Pow256(5) == 256 * (256 * Pow256(4));
    Powers();
  }

  lemma {:induction false} DropTwo(x: nat, w: nat)
    requires w >= 2
    ensures ToBytes(x, w)[2..] == ToBytes(x / 256 / 256, w - 2)
  {
    assert ToBytes(x, w)[1..] == ToBytes(x / 256, w - 1);
    assert ToBytes(x / 256, w - 1)[1..] == ToBytes(x / 256 / 256, w - 2);
    assert ToBytes(x, w)[2..] == ToBytes(x, w)[1..][1..];
  }

  lemma {:induction false} DivTwice256(x: nat, h: nat, low: nat)
    requires x == h * 0x10000 + low && low < 0x10000
    ensures x / 256 / 256 == h
  {
  }

  /** No bits at all, or all of them. */
  lemma {:induction false} AllAlike(h: nat, k: nat, b: byte)
    requires (b == 0 && h == 0) || (b == 0xff && h == Pow256(k) - 1)
    ensures ToBytes(h, k) == Filled(b, k)
  {
    if k > 0 {
      assert h % 256 == b && h / 256 == if b == 0 then 0 else Pow256(k - 1) - 1;
      AllAlike(h / 256, k - 1, b);
      assert ToBytes(h, k) == [b] + Filled(b, k - 1);
    }
  }

  /** `%hhn` writes a byte that is not its object's, whatever that byte held, unless it held the
      count's high byte. */
  lemma {:induction false} CharCountSpills(mem: seq<byte>, at: nat, n: nat)
    requires at + 2 <= |mem|
    ensures CountSize(-2) == 1 && CodeStore(mem, at, n)[at + 1] == n / 256 % 256
    ensures mem[at + 1] != n / 256 % 256 ==> CodeStore(mem, at, n)[at + 1] != mem[at + 1]
  {
    var m := CodeStore(mem, at, n);
    assert m[at + 1] == IntBytes(n)[1];
  }

  /** Three characters written, a `signed char` at 0 and 7 in the byte after it: the 7 is lost. */
  lemma {:induction false} CharCountAtAnInput()
    ensures CodeStore([9, 7], 0, 3) == [3, 0] && C11Store([9, 7], 0, -2, 3) == [3, 7]
  {
    LowBytes(3, 3, 1);
    assert IntBytes(3) == [3, 0];
    assert NumberBytes(3, 1) == [3];
  }
}
