/** What the allocator's writes do to the blocks in memory, one lemma for each way a block
is taken or given back. Each also says that no live payload byte changed. */
module HeapMoves {
  import Arith
  import opened HeapBlocks
  import opened HeapMachine
  import opened HeapMemory
  import opened Bytes

  /** The live payloads of `bs` hold the same bytes in both memories. */
  predicate Untouched(m: seq<byte>, m': seq<byte>, bs: seq<Block>) {
    forall b :: b in bs && !b.free ==> SameOn(m, m', b.Payload(), b.End())
  }

  /** The same, but for the block whose payload is `p`. */
  predicate UntouchedBut(m: seq<byte>, m': seq<byte>, bs: seq<Block>, p: nat) {
    forall b :: b in bs && !b.free && b.Payload() != p ==> SameOn(m, m', b.Payload(), b.End())
  }

  /** Every byte of every other live payload is as it was. */
  lemma {:induction false} PayloadsKept(m: seq<byte>, m': seq<byte>, bs: seq<Block>, p: nat, b: Block, a: nat)
    requires b in bs && !b.free && b.addr + 2 <= a < b.addr + 2 + b.size && a < |m|
    ensures Untouched(m, m', bs) ==> |m'| == |m| && m'[a] == m[a]
    ensures UntouchedBut(m, m', bs, p) && p != b.addr + 2 ==> |m'| == |m| && m'[a] == m[a]
  {
    if Untouched(m, m', bs) {
      assert SameOn(m, m', b.Payload(), b.End());
    }
    if UntouchedBut(m, m', bs, p) && p != b.addr + 2 {
      assert SameOn(m, m', b.Payload(), b.End());
    }
  }

  lemma {:induction false} UntouchedPrefix(m: seq<byte>, m': seq<byte>, l: seq<Block>, x: Block)
    requires m == m' || Untouched(m, m', l)
    ensures UntouchedBut(m, m', l + [x], x.Payload())
  {
  }

  lemma {:induction false} HeadBound(m: seq<byte>, s: nat, bs: seq<Block>, q: nat)
    requires Held(m, s, bs, q)
    ensures Head(bs, q) == q || s <= Head(bs, q) < |m|
    decreases bs
  {
    if bs != [] {
      HeadBound(m, bs[0].End(), bs[1..], q);
    }
  }

  lemma {:induction false} LastFreeIsFree(bs: seq<Block>)
    requires LastFree(bs) != 0
    ensures exists y :: y in bs && y.free && y.addr == LastFree(bs)
  {
    if !bs[|bs| - 1].free {
      LastFreeIsFree(bs[..|bs| - 1]);
      var y :| y in bs[..|bs| - 1] && y.free && y.addr == LastFree(bs);
      assert y in bs;
    } else {
      assert bs[|bs| - 1] in bs;
    }
  }

  /** Two held runs of blocks joined by writing the link between them. */
  lemma {:induction false} Splice(m: seq<byte>, s: nat, l: seq<Block>, q: nat, t: seq<Block>)
    requires s > 0 && |m| == SPACE && Held(m, s, l, q) && Held(m, EndOf(s, l), t, 0)
    ensures Head(t, 0) < 0x10000 && LastFree(l) + 4 <= SPACE
    ensures var m' := SetLink(m, LastFree(l), Head(t, 0));
      && Held(m', s, l + t, 0)
      && Head(l + t, 0) == (if LastFree(l) == 0 then Head(t, 0) else Head(l, q))
      && SameOn(m, m', EndOf(s, l), SPACE)
      && Untouched(m, m', l)
  {
    HeadBound(m, EndOf(s, l), t, 0);
    Relink(m, s, l, q, Head(t, 0));
    var m' := SetLink(m, LastFree(l), Head(t, 0));
    HeldFrame(m, m', EndOf(s, l), t, 0);
    HeldAppend(m', s, l, t, 0);
    HeadAppend(l, t, 0);
    HeldIsTiled(m, s, l, q);
    RelinkUntouched(m, s, l, Head(t, 0));
  }

  lemma {:induction false} RelinkUntouched(m: seq<byte>, s: nat, l: seq<Block>, v: nat)
    requires Tiled(s, l) && |m| == SPACE && LastFree(l) + 4 <= SPACE && v < 0x10000
    ensures Untouched(m, SetLink(m, LastFree(l), v), l)
  {
    var m' := SetLink(m, LastFree(l), v);
    if LastFree(l) != 0 {
      LastFreeIsFree(l);
      var y :| y in l && y.free && y.addr == LastFree(l);
      forall b | b in l && !b.free
        ensures SameOn(m, m', b.Payload(), b.End())
      {
        LivePayloadsDisjoint(s, l, b, y);
        var i :| 0 <= i < |l| && l[i] == y;
        Apart(s, l, i, i);
      }
    }
  }

  /** A heap cut at block `i`. */
  lemma {:induction false} HeldCut(m: seq<byte>, s: nat, bs: seq<Block>, i: nat, q: nat)
    requires Held(m, s, bs, q) && i < |bs|
    ensures var l, x, r := bs[..i], bs[i], bs[i + 1..];
      && Held(m, s, l, Head([x] + r, q)) && x.addr == EndOf(s, l)
      && x.size >= 2 && x.End() <= |m|
      && Held(m, x.End(), r, q) && Word(m, x.addr) == x.size
      && (x.free ==> Word(m, x.addr + 2) == Head(r, q))
      && Head([x] + r, q) == (if x.free then x.addr else Head(r, q))
      && EndOf(x.End(), r) == EndOf(s, bs)
      && s <= x.addr
  {
    var l, x, r := bs[..i], bs[i], bs[i + 1..];
    assert bs == l + ([x] + r) && ([x] + r)[1..] == r;
    HeldAppend(m, s, l, [x] + r, q);
    HeldIsTiled(m, s, l, Head([x] + r, q));
    EndsAfter(s, l);
  }

  /** Memory that changed only in block `i` and in blocks before it that were free keeps
      the live payloads on both sides. */
  lemma {:induction false} UntouchedAround(m: seq<byte>, m': seq<byte>, s: nat, bs: seq<Block>, i: nat)
    requires Tiled(s, bs) && i < |bs| && |m| == SPACE
    requires Untouched(m, m', bs[..i]) && SameOn(m, m', bs[i].End(), SPACE)
    ensures forall b :: b in bs && !b.free && b != bs[i] ==> SameOn(m, m', b.Payload(), b.End())
  {
    forall b | b in bs && !b.free && b != bs[i]
      ensures SameOn(m, m', b.Payload(), b.End())
    {
      var j :| 0 <= j < |bs| && bs[j] == b;
      if j < i {
        assert bs[..i][j] == b;
      } else {
        Apart(s, bs, i, j);
      }
    }
  }

  lemma {:induction false} UntouchedBelow(m: seq<byte>, m': seq<byte>, s: nat, l: seq<Block>)
    requires Tiled(s, l) && |m| == |m'| && SameOn(m, m', s, EndOf(s, l))
    ensures Untouched(m, m', l)
  {
    forall b | b in l
      ensures SameOn(m, m', b.Payload(), b.End())
    {
      var j :| 0 <= j < |l| && l[j] == b;
      Apart(s, l, j, j);
    }
  }

  // ----- malloc's moves (lines 51 to 62)

  /** A free block given out whole: only the link before it is written. */
  lemma {:induction false} TakeWhole(m: seq<byte>, s: nat, bs: seq<Block>, i: nat)
    requires s > 0 && |m| == SPACE && Held(m, s, bs, 0) && i < |bs| && bs[i].free
    ensures LastFree(bs[..i]) + 4 <= SPACE && bs[i].End() <= SPACE && bs[i].size >= 2
    ensures var v, l, x, r := Word(m, bs[i].addr + 2), bs[..i], bs[i], bs[i + 1..];
      var m', bs' := SetLink(m, LastFree(l), v), l + [x.(free := false)] + r;
      && Held(m', s, bs', 0)
      && Head(bs', 0) == (if LastFree(l) == 0 then v else Head(bs, 0))
      && Untouched(m, m', bs)
  {
    hide Word, PutWord, Held, Head, LastFree, SetLink, Tiled;
    var l, x, r := bs[..i], bs[i], bs[i + 1..];
    HeldCut(m, s, bs, i, 0);
    var t := [x.(free := false)] + r;
    LiveCons(m, x.(free := false), r);
    Splice(m, s, l, x.addr, t);
    Arith.Assoc(l, [x.(free := false)], r);
    var m' := SetLink(m, LastFree(l), Head(r, 0));
    assert bs == l + ([x] + r);
    HeadAppend(l, [x] + r, 0);
    HeldIsTiled(m, s, bs, 0);
    UntouchedAround(m, m', s, bs, i);
  }

  /** The memory after lines 55 to 57, before the list is joined up again. */
  function SplitWords(m: seq<byte>, b: Block, n: nat): (m': seq<byte>)
    requires b.size >= n + 4 && n >= 2 && b.End() <= |m| && |m| == SPACE
    ensures |m'| == |m|
  {
    var t := b.addr + 2 + n;
    var m1 := PutWord(m, t, b.size - n - 2);
    PutWord(PutWord(m1, t + 2, Word(m1, b.addr + 2)), b.addr, n)
  }

  lemma {:induction false} SplitWordsHold(m: seq<byte>, b: Block, n: nat)
    requires b.size >= n + 4 && n >= 2 && b.End() <= |m| && |m| == SPACE
    ensures var m', t := SplitWords(m, b, n), b.addr + 2 + n;
      && Word(m', b.addr) == n && Word(m', t) == b.size - n - 2
      && Word(m', t + 2) == Word(m, b.addr + 2)
      && SameOn(m, m', 0, b.addr) && SameOn(m, m', b.End(), SPACE)
  {
  }

  /** The words of the two halves are in place before the list is. */
  lemma {:induction false} SplitInPlace(m: seq<byte>, s: nat, bs: seq<Block>, i: nat, n: nat)
    requires s > 0 && |m| == SPACE && Held(m, s, bs, 0) && i < |bs| && bs[i].free
    requires bs[i].size >= n + 4 && n >= 2
    ensures bs[i].addr + 2 + n < 0x10000 && bs[i].End() <= SPACE && bs[i].addr == EndOf(s, bs[..i])
    ensures var l, x, r, t := bs[..i], bs[i], bs[i + 1..], bs[i].addr + 2 + n;
      var m1 := SplitWords(m, x, n);
      && Held(m1, s, l, x.addr) && Held(m1, x.addr, Carve(x, n) + r, 0)
      && Head(Carve(x, n) + r, 0) == t && Head(bs, 0) == Head(l, x.addr)
      && Untouched(m, m1, l) && SameOn(m, m1, x.End(), SPACE)
  {
    hide SplitWords, Carve, Word, Held, Head, LastFree, SetLink, PutWord, Tiled;
    var l, x, r := bs[..i], bs[i], bs[i + 1..];
    HeldCut(m, s, bs, i, 0);
    SplitWordsHold(m, x, n);
    var m1 := SplitWords(m, x, n);
    HeldIsTiled(m, s, bs, 0);
    HeldIsTiled(m, x.End(), r, 0);
    HeldFrame(m, m1, s, l, x.addr);
    HeldFrame(m, m1, x.End(), r, 0);
    CarveHeld(m1, x, n, r);
    HeldIsTiled(m, s, l, x.addr);
    UntouchedBelow(m, m1, s, l);
    assert bs == l + ([x] + r);
    HeadAppend(l, [x] + r, 0);
    FreeHead(x, r);
  }

  lemma {:induction false} FreeHead(x: Block, r: seq<Block>)
    requires x.free
    ensures Head([x] + r, 0) == x.addr
  {
  }

  /** A free block split: its head is given out and its tail takes its place in the list. */
  lemma {:induction false} TakeSplit(m: seq<byte>, s: nat, bs: seq<Block>, i: nat, n: nat)
    requires s > 0 && |m| == SPACE && Held(m, s, bs, 0) && i < |bs| && bs[i].free
    requires bs[i].size >= n + 4 && n >= 2
    ensures LastFree(bs[..i]) + 4 <= SPACE && bs[i].addr + 2 + n < 0x10000 && bs[i].End() <= SPACE
    ensures var l, x, r, t := bs[..i], bs[i], bs[i + 1..], bs[i].addr + 2 + n;
      var m', bs' := SetLink(SplitWords(m, x, n), LastFree(l), t), l + Carve(x, n) + r;
      && Held(m', s, bs', 0)
      && Head(bs', 0) == (if LastFree(l) == 0 then t else Head(bs, 0))
      && Untouched(m, m', bs)
  {
    hide SplitWords, Carve, Word, Held, Head, LastFree, SetLink, PutWord, Tiled, EndOf;
    var l, x, r, t := bs[..i], bs[i], bs[i + 1..], bs[i].addr + 2 + n;
    SplitInPlace(m, s, bs, i, n);
    HeldIsTiled(m, s, bs, 0);
    var m1, c := SplitWords(m, x, n), Carve(x, n);
    Splice(m1, s, l, x.addr, c + r);
    Arith.Assoc(l, c, r);
    var m' := SetLink(m1, LastFree(l), t);
    UntouchedTwice(m, m1, m', l);
    UntouchedAround(m, m', s, bs, i);
  }

  lemma {:induction false} UntouchedTwice(m: seq<byte>, m1: seq<byte>, m': seq<byte>, bs: seq<Block>)
    requires Untouched(m, m1, bs) && Untouched(m1, m', bs)
    ensures Untouched(m, m', bs)
  {
  }

  lemma {:induction false} CarveHeld(m: seq<byte>, x: Block, n: nat, r: seq<Block>)
    requires x.size >= n + 4 && n >= 2 && x.End() <= |m|
    requires Word(m, x.addr) == n && Word(m, x.addr + 2 + n) == x.size - n - 2
    requires Word(m, x.addr + 4 + n) == Head(r, 0) && Held(m, x.End(), r, 0)
    ensures Held(m, x.addr, Carve(x, n) + r, 0)
    ensures Head(Carve(x, n) + r, 0) == x.addr + 2 + n
  {
    var c := Carve(x, n);
    assert (c + r)[1..] == [c[1]] + r;
    assert ([c[1]] + r)[1..] == r;
    assert Held(m, c[1].addr, [c[1]] + r, 0);
  }

  /** A block laid down at the break (lines 71 to 73). */
  lemma {:induction false} TakeFromBreak(m: seq<byte>, s: nat, bs: seq<Block>, n: nat)
    requires |m| == SPACE && Held(m, s, bs, 0) && n >= 2 && EndOf(s, bs) + 2 + n < SPACE
    ensures var brk := EndOf(s, bs);
      var m', bs' := PutWord(m, brk, n), bs + [Block(brk, n, false)];
      && Held(m', s, bs', 0) && Head(bs', 0) == Head(bs, 0)
      && Untouched(m, m', bs)
  {
    var brk := EndOf(s, bs);
    var m', g := PutWord(m, brk, n), Block(brk, n, false);
    HeldIsTiled(m, s, bs, 0);
    HeldFrame(m, m', s, bs, 0);
    NoFree(m', brk, [g], 0, 0);
    assert Held(m', brk, [g], 0);
    HeldAppend(m', s, bs, [g], 0);
    HeadAppend(bs, [g], 0);
    UntouchedBelow(m, m', s, bs);
  }

  // ----- writes inside a live block

  /** A program that writes only its own live payload leaves the heap as it is. */
  lemma {:induction false} PayloadWrite(m: seq<byte>, m': seq<byte>, s: nat, bs: seq<Block>, i: nat)
    requires |m| == SPACE && Held(m, s, bs, 0) && i < |bs| && !bs[i].free
    requires SameOn(m, m', 0, bs[i].Payload()) && SameOn(m, m', bs[i].End(), SPACE)
    ensures Held(m', s, bs, 0)
    ensures forall b :: b in bs && !b.free && b != bs[i] ==> SameOn(m, m', b.Payload(), b.End())
  {
    hide Word, Head, Held, Tiled;
    var l, x, r := bs[..i], bs[i], bs[i + 1..];
    HeldCut(m, s, bs, i, 0);
    HeldIsTiled(m, s, bs, 0);
    HeldIsTiled(m, s, l, Head([x] + r, 0));
    HeldIsTiled(m, x.End(), r, 0);
    HeldFrame(m, m', s, l, Head([x] + r, 0));
    HeldFrame(m, m', x.End(), r, 0);
    SameWord(m, m', 0, x.Payload(), x.addr);
    LiveCons(m', x, r);
    HeldAppend(m', s, l, [x] + r, 0);
    Cut(bs, i);
    assert l + [x] + r == l + ([x] + r);
    UntouchedBelow(m, m', s, l);
    UntouchedAround(m, m', s, bs, i);
  }

  /** The two size words, and what they leave alone. */
  lemma {:induction false} TwoWords(m: seq<byte>, s: nat, x: Block, a: nat)
    requires |m| == SPACE && x.Payload() + 4 <= a <= x.End() - 2 && x.End() <= SPACE
    ensures var m' := PutWord(PutWord(m, a - 2, x.End() - a), x.addr, a - x.Payload() - 2);
      && SameOn(m, m', s, x.addr) && (forall hi: nat :: SameOn(m, m', x.End(), hi))
      && Word(m', x.addr) == a - x.Payload() - 2 && Word(m', a - 2) == x.End() - a
  {
    hide Word, PutWord;
    var m1 := PutWord(m, a - 2, x.End() - a);
    SameWord(m1, PutWord(m1, x.addr, a - x.Payload() - 2), a - 2, SPACE, a - 2);
  }

  /** Two size words cut a live block in two (lines 164 to 167). */
  lemma {:induction false} SplitHeld(m: seq<byte>, s: nat, bs: seq<Block>, i: nat, a: nat)
    requires |m| == SPACE && Held(m, s, bs, 0) && i < |bs| && !bs[i].free
    requires bs[i].Payload() + 4 <= a <= bs[i].End() - 2 && bs[i].End() <= SPACE
    ensures var x := bs[i];
      var m' := PutWord(PutWord(m, a - 2, x.End() - a), x.addr, a - x.Payload() - 2);
      Held(m', s, SplitAt(bs, i, a), 0) && Head(SplitAt(bs, i, a), 0) == Head(bs, 0)
  {
    hide Word, PutWord, Head, Held, Tiled, SameOn, SplitAt, EndOf;
    var l, x, r := bs[..i], bs[i], bs[i + 1..];
    var h, t := Block(x.addr, a - x.Payload() - 2, false), Block(a - 2, x.End() - a, false);
    var m' := PutWord(PutWord(m, a - 2, t.size), x.addr, h.size);
    HeldCut(m, s, bs, i, 0);
    TwoWords(m, s, x, a);
    HeldIsTiled(m, x.End(), r, 0);
    EndsAfter(x.End(), r);
    HeldFrame(m, m', s, l, Head(r, 0));
    HeldFrame(m, m', x.End(), r, 0);
    LiveCons(m', t, r);
    LiveCons(m', h, [t] + r);
    HeldAppend(m', s, l, [h] + ([t] + r), 0);
    SplitParts(bs, i, a);
    HeadAppend(l, [x] + r, 0);
    HeadAppend(l, [h] + ([t] + r), 0);
  }

  lemma {:induction false} SplitParts(bs: seq<Block>, i: nat, a: nat)
    requires i < |bs| && bs[i].Payload() + 4 <= a <= bs[i].End() - 2
    ensures var l, x, r := bs[..i], bs[i], bs[i + 1..];
      && bs == l + ([x] + r)
      && SplitAt(bs, i, a) == l + ([Block(x.addr, a - x.Payload() - 2, false)] +
        ([Block(a - 2, x.End() - a, false)] + r))
  {
  }

  lemma {:induction false} SplitUntouched(m: seq<byte>, s: nat, bs: seq<Block>, i: nat, a: nat)
    requires |m| == SPACE && Tiled(s, bs) && i < |bs|
    requires bs[i].Payload() + 4 <= a <= bs[i].End() - 2 && bs[i].End() <= SPACE
    ensures var x := bs[i];
      var m' := PutWord(PutWord(m, a - 2, x.End() - a), x.addr, a - x.Payload() - 2);
      forall b :: b in bs && !b.free && b != x ==> SameOn(m, m', b.Payload(), b.End())
  {
    hide Word, PutWord;
    var x := bs[i];
    var m' := PutWord(PutWord(m, a - 2, x.End() - a), x.addr, a - x.Payload() - 2);
    Cut(bs, i);
    TiledSplit(s, bs[..i], x, bs[i + 1..]);
    UntouchedBelow(m, m', s, bs[..i]);
    UntouchedAround(m, m', s, bs, i);
  }

  lemma {:induction false} LiveCons(m: seq<byte>, b: Block, r: seq<Block>)
    requires b.size >= 2 && b.End() <= |m| && !b.free
    requires Word(m, b.addr) == b.size && Held(m, b.End(), r, 0)
    ensures Held(m, b.addr, [b] + r, 0) && Head([b] + r, 0) == Head(r, 0)
  {
    assert ([b] + r)[1..] == r;
  }
}
