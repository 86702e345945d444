/** Bytes and little-endian numbers. */
module Bytes {
  type byte = x: int | 0 <= x < 256

  /** 256^k: one past the largest number `k` bytes hold. */
  function Pow256(k: nat): (p: nat)
    ensures p > 0
  {
    if k == 0 then 1 else 256 * Pow256(k - 1)
  }

  /** The number whose little-endian bytes are `v`. */
  function Value(v: seq<byte>): (n: nat) {
    if v == [] then 0 else var b: int := v[0]; b + 256 * Value(v[1..])
  }

  /** The low `k` bytes of `n`, least first. */
  function ToBytes(n: nat, k: nat): (v: seq<byte>)
    ensures |v| == k
  {
    if k == 0 then [] else [n % 256] + ToBytes(n / 256, k - 1)
  }

  lemma {:induction false} ValueBound(v: seq<byte>)
    ensures Value(v) < Pow256(|v|)
  {
    if v != [] {
      ValueBound(v[1..]);
    }
  }

  lemma {:induction false} ValueAppend(v: seq<byte>, b: byte)
    ensures Value(v + [b]) == Value(v) + b * Pow256(|v|)
  {
    if v == [] {
      assert v + [b] == [b] && [b][1..] == [];
    } else {
      assert (v + [b])[1..] == v[1..] + [b];
      ValueAppend(v[1..], b);
      var x: int := b;
      assert 256 * (x * Pow256(|v| - 1)) == x * Pow256(|v|);
    }
  }

  lemma {:induction false} ValueZero(v: seq<byte>)
    ensures Value(v) == 0 <==> forall k :: 0 <= k < |v| ==> v[k] == 0
  {
    if v != [] {
      ValueZero(v[1..]);
      assert forall k :: 0 < k < |v| ==> v[k] == v[1..][k - 1];
    }
  }

  /** Bytes and numbers correspond. */
  lemma {:induction false} ValueOfBytes(n: nat, k: nat)
    requires n < Pow256(k)
    ensures Value(ToBytes(n, k)) == n
  {
    if k > 0 {
      ValueOfBytes(n / 256, k - 1);
      assert ToBytes(n, k)[1..] == ToBytes(n / 256, k - 1);
    }
  }

  lemma {:induction false} BytesOfValue(v: seq<byte>)
    ensures ToBytes(Value(v), |v|) == v
  {
    if v != [] {
      BytesOfValue(v[1..]);
      assert v == [v[0]] + v[1..];
    }
  }

  /** The last byte decides the top bit. */
  lemma {:induction false} TopByte(v: seq<byte>)
    requires v != []
    ensures v[|v| - 1] >= 128 <==> 2 * Value(v) >= Pow256(|v|)
  {
    if |v| == 1 {
      assert v[1..] == [];
      assert Pow256(1) == 256 * Pow256(0);
    } else {
      assert v[1..][|v| - 2] == v[|v| - 1];
      TopByte(v[1..]);
      assert Pow256(|v|) == 256 * Pow256(|v| - 1);
      EvenPow(|v| - 1);
      TopArith(v[0], Value(v[1..]), Pow256(|v| - 1));
    }
  }

  lemma {:induction false} TopArith(b: byte, w: nat, p: nat)
    requires p % 2 == 0
    ensures 2 * w >= p <==> 2 * (b + 256 * w) >= 256 * p
  {
  }

  lemma {:induction false} EvenPow(k: nat)
    requires k > 0
    ensures Pow256(k) % 2 == 0
  {
  }
}
