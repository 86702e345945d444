/** How blocks lie in the 64 KB data space: size words before payloads, and the address of
the next free block in a free block's first two bytes. */
module HeapMemory {
  import opened HeapBlocks
  import opened Bytes

  const SPACE: nat := 0x10000

  /** The little-endian word at `a`. */
  function Word(m: seq<byte>, a: nat): (w: nat)
    requires a + 2 <= |m|
    ensures w < 0x10000
  {
    var lo: int, hi: int := m[a], m[a + 1];
    lo + 256 * hi
  }

  /** It is the number whose least significant byte comes first. */
  lemma {:induction false} WordIsValue(m: seq<byte>, a: nat)
    requires a + 2 <= |m|
    ensures Word(m, a) == Value(m[a..a + 2])
  {
    var w := m[a..a + 2];
    assert w[1..] == [m[a + 1]] && [m[a + 1]][1..] == [];
    assert Value(w[1..]) == m[a + 1];
  }

  function PutWord(m: seq<byte>, a: nat, v: nat): (m': seq<byte>)
    requires a + 2 <= |m| && v < 0x10000
    ensures |m'| == |m|
    ensures Word(m', a) == v
    ensures forall c :: 0 <= c < |m| && c != a && c != a + 1 ==> m'[c] == m[c]
  {
    m[a := v % 256][a + 1 := v / 256]
  }

  predicate SameOn(m: seq<byte>, m': seq<byte>, lo: nat, hi: nat) {
    |m| == |m'| && forall c :: lo <= c < hi && c < |m| ==> m[c] == m'[c]
  }

  lemma {:induction false} SameWord(m: seq<byte>, m': seq<byte>, lo: nat, hi: nat, a: nat)
    requires SameOn(m, m', lo, hi) && lo <= a && a + 2 <= hi && a + 2 <= |m|
    ensures Word(m, a) == Word(m', a)
  {
  }

  lemma {:induction false} SameSlice(m: seq<byte>, m': seq<byte>, a: nat, hi: nat, len: nat)
    requires SameOn(m, m', a, hi) && a + len <= hi && a + len <= |m|
    ensures m[a..a + len] == m'[a..a + len]
  {
  }

  /** The address of the first free block, or `q` when there is none. */
  function Head(bs: seq<Block>, q: nat): nat {
    if bs == [] then q else if bs[0].free then bs[0].addr else Head(bs[1..], q)
  }

  /** The blocks lie in memory from `s` on, their size words right, and each free block
      links to the next, the last of them to `q`. */
  predicate Held(m: seq<byte>, s: nat, bs: seq<Block>, q: nat)
    decreases bs
  {
    bs == [] ||
    (var b := bs[0];
     && b.addr == s && b.size >= 2 && b.End() <= |m|
     && Word(m, s) == b.size
     && (b.free ==> Word(m, s + 2) == Head(bs[1..], q))
     && Held(m, b.End(), bs[1..], q))
  }

  // ----- lists of blocks in memory

  lemma {:induction false} HeadAppend(a: seq<Block>, b: seq<Block>, q: nat)
    ensures Head(a + b, q) == Head(a, Head(b, q))
  {
    if a == [] {
      assert a + b == b;
    } else {
      assert (a + b)[1..] == a[1..] + b;
      HeadAppend(a[1..], b, q);
    }
  }

  lemma {:induction false} HeldAppend(m: seq<byte>, s: nat, a: seq<Block>, b: seq<Block>, q: nat)
    ensures Held(m, s, a + b, q) <==> Held(m, s, a, Head(b, q)) && Held(m, EndOf(s, a), b, q)
    decreases a
  {
    if a == [] {
      assert a + b == b;
    } else {
      assert (a + b)[1..] == a[1..] + b;
      HeadAppend(a[1..], b, q);
      HeldAppend(m, a[0].End(), a[1..], b, q);
    }
  }

  lemma {:induction false} HeldIsTiled(m: seq<byte>, s: nat, bs: seq<Block>, q: nat)
    requires Held(m, s, bs, q)
    ensures Tiled(s, bs)
    ensures bs != [] ==> EndOf(s, bs) <= |m|
    decreases bs
  {
    if bs != [] {
      HeldIsTiled(m, bs[0].End(), bs[1..], q);
    }
  }

  /** Blocks outside which memory changed are held as before. */
  lemma {:induction false} HeldFrame(m: seq<byte>, m': seq<byte>, s: nat, bs: seq<Block>, q: nat)
    requires Held(m, s, bs, q) && SameOn(m, m', s, EndOf(s, bs))
    ensures Held(m', s, bs, q)
    decreases bs
  {
    if bs != [] {
      HeldIsTiled(m, s, bs, q);
      EndsAfter(bs[0].End(), bs[1..]);
      assert EndOf(s, bs) == EndOf(bs[0].End(), bs[1..]);
      HeldFrame(m, m', bs[0].End(), bs[1..], q);
    }
  }

  /** The last free block's address, or 0: what a walk has behind it. */
  function LastFree(bs: seq<Block>): nat {
    if bs == [] then 0
    else if bs[|bs| - 1].free then bs[|bs| - 1].addr
    else LastFree(bs[..|bs| - 1])
  }

  /** Without free blocks the link past them does not matter. */
  lemma {:induction false} NoFree(m: seq<byte>, s: nat, bs: seq<Block>, q: nat, q': nat)
    requires forall j :: 0 <= j < |bs| ==> !bs[j].free
    ensures Head(bs, q) == q
    ensures Held(m, s, bs, q) ==> Held(m, s, bs, q')
    ensures LastFree(bs) == 0
    decreases bs
  {
    if bs != [] {
      NoFree(m, bs[0].End(), bs[1..], q, q');
      LastFreeNone(bs);
    }
  }

  lemma {:induction false} LastFreeNone(bs: seq<Block>)
    requires forall j :: 0 <= j < |bs| ==> !bs[j].free
    ensures LastFree(bs) == 0
  {
    if bs != [] {
      LastFreeNone(bs[..|bs| - 1]);
    }
  }

  /** The cell that `*pp` names is the last free block's link or, when there is none, the
      list's own head: writing it redirects the list past `bs`. */
  function SetLink(m: seq<byte>, prev: nat, v: nat): (m': seq<byte>)
    requires prev + 4 <= |m| && v < 0x10000
    ensures |m'| == |m|
  {
    if prev == 0 then m else PutWord(m, prev + 2, v)
  }

  lemma {:induction false} Relink(m: seq<byte>, s: nat, bs: seq<Block>, q: nat, q': nat)
    requires s > 0 && Held(m, s, bs, q) && q' < 0x10000 && |m| == SPACE
    ensures LastFree(bs) + 4 <= |m|
    ensures LastFree(bs) != 0 ==> s <= LastFree(bs) && LastFree(bs) + 4 <= EndOf(s, bs)
    ensures Held(SetLink(m, LastFree(bs), q'), s, bs, q')
    ensures LastFree(bs) != 0 ==> Head(bs, q') == Head(bs, q)
    ensures LastFree(bs) == 0 ==> Head(bs, q') == q'
    decreases bs
  {
    if bs != [] {
      var k := |bs| - 1;
      var a, x := bs[..k], bs[k];
      assert bs == a + [x];
      HeldAppend(m, s, a, [x], q);
      HeldIsTiled(m, s, a, Head([x], q));
      EndsAfter(s, a);
      HeadAppend(a, [x], q);
      HeadAppend(a, [x], q');
      if x.free {
        var m' := SetLink(m, x.addr, q');
        assert LastFree(bs) == x.addr;
        HeldFrame(m, m', s, a, x.addr);
        assert Held(m', x.addr, [x], q');
        HeldAppend(m', s, a, [x], q');
      } else {
        assert Head([x], q) == q && Head([x], q') == q';
        Relink(m, s, a, q, q');
        var m' := SetLink(m, LastFree(a), q');
        assert LastFree(bs) == LastFree(a);
        HeldFrame(m, m', x.addr, [x], q);
        assert Held(m', x.addr, [x], q');
        HeldAppend(m', s, a, [x], q');
      }
    }
  }
}
