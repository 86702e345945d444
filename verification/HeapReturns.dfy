/** Giving a block back: what free's writes do (lines 77 to 115 of lib/avr/malloc.c), and
that the blocks they leave are the layout of what is still live. */
module HeapReturns {
  import opened HeapBlocks
  import opened HeapLayout
  import opened HeapMachine
  import opened HeapMemory
  import opened Bytes
  import opened HeapMoves
  import opened HeapWalk

  // ----- on blocks

  /** A freed block joined with the free block after it, if there is one. */
  function JoinedNext(x: Block, r: seq<Block>): Block {
    if r != [] && r[0].free then Block(x.addr, x.size + 2 + r[0].size, true) else x.(free := true)
  }

  function AfterNext(r: seq<Block>): seq<Block> {
    if r != [] && r[0].free then r[1..] else r
  }

  /** The blocks once `x`, not the last, is freed between `l` and `r`. */
  function GivenBack(l: seq<Block>, x: Block, r: seq<Block>): seq<Block> {
    var x', r' := JoinedNext(x, r), AfterNext(r);
    if l != [] && l[|l| - 1].free
    then var y := l[|l| - 1];
         l[..|l| - 1] + [Block(y.addr, y.size + 2 + x'.size, true)] + r'
    else l + [x'] + r'
  }

  /** Any well-formed heap with the right live blocks is what free must leave. */
  lemma {:induction false} IsFree(start: nat, bs: seq<Block>, i: nat, bs': seq<Block>)
    requires WellFormed(start, bs) && i < |bs| && !bs[i].free
    requires WellFormed(start, bs') && Live(bs') == Live(bs[..i]) + Live(bs[i + 1..])
    ensures bs' == Free(start, bs, bs[i].Payload())
  {
    LiveAround(start, bs, i);
    LayoutOfHeap(start, bs');
  }

  lemma {:induction false} JoinNext(x: Block, r: seq<Block>)
    requires !x.free && x.size >= 2 && Tiled(x.End(), r) && Packed(r) && r != []
    ensures var x', r' := JoinedNext(x, r), AfterNext(r);
      && x'.free && x'.addr == x.addr && x'.size >= 2
      && Tiled(x'.End(), r') && Packed(r') && r' != [] && !r'[0].free
      && Live(r') == Live(r)
      && EndOf(x'.End(), r') == EndOf(x.End(), r)
  {
  }

  /** Freeing a block that is not the last (lines 96 to 114), on blocks. */
  lemma {:induction false} GivenBackIsFree(start: nat, l: seq<Block>, x: Block, r: seq<Block>)
    requires WellFormed(start, l + [x] + r) && !x.free && r != []
    ensures GivenBack(l, x, r) == Free(start, l + [x] + r, x.Payload())
    ensures EndOf(start, GivenBack(l, x, r)) == EndOf(start, l + [x] + r)
    ensures WellFormed(start, GivenBack(l, x, r))
  {
    hide Tiled, Packed, PackedBefore, Live, JoinedNext, AfterNext, Free;
    var bs, x', r' := l + [x] + r, JoinedNext(x, r), AfterNext(r);
    TiledSplit(start, l, x, r);
    PackedMiddle(l, x, r);
    JoinNext(x, r);
    assert bs[..|l|] == l && bs[|l| + 1..] == r && bs[|l|] == x;
    if l != [] && l[|l| - 1].free {
      JoinLast(start, l, x', r');
    } else {
      PackedAround(l, x', r');
      TiledSplit(start, l, x', r');
      SplitLive(l, x', r');
    }
    IsFree(start, bs, |l|, GivenBack(l, x, r));
  }

  lemma {:induction false} JoinLast(start: nat, l: seq<Block>, x: Block, r: seq<Block>)
    requires Tiled(start, l) && PackedBefore(l) && l != [] && l[|l| - 1].free
    requires x.addr == EndOf(start, l) && x.free && x.size >= 2
    requires Tiled(x.End(), r) && Packed(r) && r != [] && !r[0].free
    ensures var y := l[|l| - 1];
      var bs' := l[..|l| - 1] + [Block(y.addr, y.size + 2 + x.size, true)] + r;
      WellFormed(start, bs') && Live(bs') == Live(l) + Live(r)
  {
    hide Tiled, Packed, PackedBefore, Live;
    var l0, y := l[..|l| - 1], l[|l| - 1];
    assert l == l0 + [y];
    LastIsEnd(start, l);
    JoinPrev(start, l0, y, x, r);
    LiveAppend(l0, [y]);
    FreeIsNone(y);
  }

  lemma {:induction false} LastIsEnd(start: nat, l: seq<Block>)
    requires l != []
    ensures EndOf(start, l) == l[|l| - 1].End()
  {
  }

  lemma {:induction false} FreeIsNone(y: Block)
    requires y.free
    ensures Live([y]) == []
  {
  }

  lemma {:induction false} JoinPrev(start: nat, l0: seq<Block>, y: Block, x: Block, r: seq<Block>)
    requires Tiled(start, l0 + [y]) && PackedBefore(l0 + [y]) && y.free
    requires x.addr == y.End() && x.free && x.size >= 2
    requires Tiled(x.End(), r) && Packed(r) && r != [] && !r[0].free
    ensures var y' := Block(y.addr, y.size + 2 + x.size, true);
      && WellFormed(start, l0 + [y'] + r) && Live(l0 + [y'] + r) == Live(l0) + Live(r)
  {
    hide Tiled, Packed, PackedBefore, Live;
    var y' := Block(y.addr, y.size + 2 + x.size, true);
    assert l0 + [y] + [] == l0 + [y];
    TiledSplit(start, l0, y, []);
    PackedBeforeAppend(l0, [y]);
    PackedAround(l0, y', r);
    TiledSplit(start, l0, y', r);
    SplitLive(l0, y', r);
  }

  /** A free block between live ones. */
  lemma {:induction false} PackedAround(l: seq<Block>, x: Block, r: seq<Block>)
    requires PackedBefore(l) && (l == [] || !l[|l| - 1].free)
    requires Packed(r) && r != [] && !r[0].free
    ensures Packed(l + [x] + r)
  {
    assert l + [x] + r == l + ([x] + r) && ([x] + r)[1..] == r;
    PackedAppend(l, [x] + r);
  }

  /** What is left when the last block goes back to the break (lines 84 to 94), on blocks:
      a free block that now ends there goes with it. */
  function Shrunk(l: seq<Block>): seq<Block> {
    if l != [] && l[|l| - 1].free then l[..|l| - 1] else l
  }

  lemma {:induction false} ShrunkIsFree(start: nat, l: seq<Block>, x: Block)
    requires WellFormed(start, l + [x]) && !x.free
    ensures Shrunk(l) == Free(start, l + [x], x.Payload())
    ensures WellFormed(start, Shrunk(l))
  {
    var bs, bs' := l + [x], Shrunk(l);
    TiledAppend(start, l, [x]);
    PackedAppend(l, [x]);
    assert bs[..|l|] == l && bs[|l| + 1..] == [];
    assert l == l + [];
    if l != [] && l[|l| - 1].free {
      var l0, y := l[..|l| - 1], l[|l| - 1];
      assert l == l0 + [y] && l0 == l0 + [];
      TiledAppend(start, l0, [y]);
      PackedBeforeAppend(l0, [y]);
      PackedAppend(l0, []);
      LiveAppend(l0, [y]);
      assert Live([y]) == [];
    } else {
      PackedAppend(l, []);
    }
    IsFree(start, bs, |l|, bs');
  }

  // ----- in memory

  /** The memory after line 102 and, when the next block is free and touches, lines 104 and
      105: `q` is the next free block's address. */
  function NextWords(m: seq<byte>, b: nat, size: nat, q: nat, joins: bool): (m': seq<byte>)
    requires |m| == SPACE && b + 4 <= SPACE && q < 0x10000 && size < 0x10000
    requires joins ==> q + 4 <= SPACE && size + 2 + Word(m, q) < 0x10000
    ensures |m'| == |m|
  {
    var m1 := PutWord(m, b + 2, q);
    if joins then PutWord(PutWord(m1, b, size + 2 + Word(m, q)), b + 2, Word(m, q + 2)) else m1
  }

  lemma {:induction false} NextWordsHold(m: seq<byte>, x: Block, r: seq<Block>)
    requires |m| == SPACE && x.size >= 2 && x.End() <= SPACE && r != []
    requires Word(m, x.addr) == x.size && Held(m, x.End(), r, 0)
    ensures Head(r, 0) < 0x10000
    ensures r[0].free ==> Head(r, 0) == x.End() && x.End() + 4 <= SPACE && Word(m, x.End()) == r[0].size
    ensures r[0].free ==> x.size + 2 + r[0].size < 0x10000
    ensures !r[0].free ==> Head(r, 0) != x.End()
    ensures var m', x', r' := NextWords(m, x.addr, x.size, Head(r, 0), r[0].free), JoinedNext(x, r), AfterNext(r);
      && Held(m', x.addr, [x'] + r', 0) && Head([x'] + r', 0) == x.addr
      && Word(m', x.addr) == x'.size && Word(m', x.addr + 2) == Head(r', 0)
      && SameOn(m, m', 0, x.addr) && SameOn(m, m', x.addr + 4, SPACE)
      && Held(m', x'.End(), r', 0)
      && EndOf(x'.End(), r') == EndOf(x.End(), r) && x'.End() <= EndOf(x.End(), r)
      && x'.size >= 2 && x'.addr == x.addr
  {
    hide Held, Head, Word, NextWords, JoinedNext, AfterNext;
    NextJoins(m, x, r);
    NextBytes(m, x.addr, x.size, Head(r, 0), r[0].free);
    var m', x', r' := NextWords(m, x.addr, x.size, Head(r, 0), r[0].free), JoinedNext(x, r), AfterNext(r);
    HeldFrame(m, m', x'.End(), r', 0);
    HeldCons(m', x', r');
  }

  /** What the block after the freed one says about the join. */
  lemma {:induction false} NextJoins(m: seq<byte>, x: Block, r: seq<Block>)
    requires |m| == SPACE && x.size >= 2 && x.End() <= SPACE && r != []
    requires Held(m, x.End(), r, 0)
    ensures Head(r, 0) < 0x10000
    ensures r[0].free ==> Head(r, 0) == x.End() && x.End() + 4 <= SPACE && Word(m, x.End()) == r[0].size
    ensures r[0].free ==> x.size + 2 + r[0].size < 0x10000
    ensures !r[0].free ==> Head(r, 0) != x.End()
    ensures var x', r' := JoinedNext(x, r), AfterNext(r);
      && x'.free && x'.addr == x.addr && x'.size >= x.size && x'.End() <= SPACE
      && x'.size == (if r[0].free then x.size + 2 + r[0].size else x.size)
      && Held(m, x'.End(), r', 0)
      && Head(r', 0) == (if r[0].free then Word(m, x.End() + 2) else Head(r, 0))
      && EndOf(x'.End(), r') == EndOf(x.End(), r) && x'.End() <= EndOf(x.End(), r)
  {
    HeadBound(m, x.End(), r, 0);
    HeldIsTiled(m, x.End(), r, 0);
    EndsAfter(x.End(), r);
    EndsAfter(r[0].End(), r[1..]);
    HeadBound(m, r[0].End(), r[1..], 0);
  }

  lemma {:induction false} NextBytes(m: seq<byte>, b: nat, size: nat, q: nat, joins: bool)
    requires |m| == SPACE && b + 4 <= SPACE && q < 0x10000 && size < 0x10000
    requires Word(m, b) == size
    requires joins ==> q + 4 <= SPACE && size + 2 + Word(m, q) < 0x10000
    ensures var m' := NextWords(m, b, size, q, joins);
      && Word(m', b) == (if joins then size + 2 + Word(m, q) else size)
      && Word(m', b + 2) == (if joins then Word(m, q + 2) else q)
      && SameOn(m, m', 0, b) && SameOn(m, m', b + 4, SPACE)
  {
  }

  /** Line 111 or 113: the freed block linked in behind a neighbour it does not touch. */
  lemma {:induction false} LinkedIn(m: seq<byte>, s: nat, bs: seq<Block>, i: nat)
    requires s > 0 && |m| == SPACE && Held(m, s, bs, 0) && i + 1 < |bs| && !bs[i].free
    requires i == 0 || !bs[i - 1].free
    ensures LastFree(bs[..i]) + 4 <= SPACE && bs[i].End() <= SPACE && bs[i].size >= 2
    ensures var l, x, r := bs[..i], bs[i], bs[i + 1..];
      Head(r, 0) < 0x10000 &&
      (r[0].free ==> Head(r, 0) + 4 <= SPACE && x.size + 2 + Word(m, Head(r, 0)) < 0x10000) &&
      var m1 := NextWords(m, x.addr, x.size, Head(r, 0), r[0].free);
      var m', bs' := SetLink(m1, LastFree(l), x.addr), GivenBack(l, x, r);
      && Held(m', s, bs', 0)
      && Head(bs', 0) == (if LastFree(l) == 0 then x.addr else Head(bs, 0))
      && UntouchedBut(m, m', bs, x.Payload())
  {
    hide NextWords, Word, JoinedNext, AfterNext, Held, Head, LastFree;
    var l, x, r := bs[..i], bs[i], bs[i + 1..];
    HeldCut(m, s, bs, i, 0);
    NextWordsHold(m, x, r);
    var m1 := NextWords(m, x.addr, x.size, Head(r, 0), r[0].free);
    var t := [JoinedNext(x, r)] + AfterNext(r);
    HeldFrame(m, m1, s, l, Head([x] + r, 0));
    Splice(m1, s, l, Head([x] + r, 0), t);
    var m' := SetLink(m1, LastFree(l), x.addr);
    assert l + t == l + [JoinedNext(x, r)] + AfterNext(r);
    assert bs == l + ([x] + r);
    HeadAppend(l, [x] + r, 0);
    HeldIsTiled(m, s, bs, 0);
    HeldIsTiled(m, s, l, Head([x] + r, 0));
    UntouchedBelow(m, m1, s, l);
    assert Untouched(m, m', l);
    UntouchedAround(m, m', s, bs, i);
  }

  /** The free block before the freed one touches it exactly when it is its neighbour. */
  lemma {:induction false} PrevTouches(m: seq<byte>, s: nat, bs: seq<Block>, i: nat)
    requires s > 0 && |m| == SPACE && Held(m, s, bs, 0) && i < |bs|
    ensures var prev := LastFree(bs[..i]);
      && (prev != 0 ==>
            && s <= prev && prev + 4 <= bs[i].addr <= SPACE
            && (prev + 2 + Word(m, prev) == bs[i].addr <==> i > 0 && bs[i - 1].free))
      && (i > 0 && bs[i - 1].free ==> prev == bs[i - 1].addr != 0)
  {
    hide Held, Head, Word, Tiled;
    var prev := LastFree(bs[..i]);
    HeldIsTiled(m, s, bs, 0);
    HeldCut(m, s, bs, i, 0);
    if i > 0 && bs[i - 1].free {
      HeldCut(m, s, bs, i - 1, 0);
      Apart(s, bs, i - 1, i);
      assert bs[..i] == bs[..i - 1] + [bs[i - 1]];
    } else if prev != 0 {
      LastFreeIsFree(bs[..i]);
      var y :| y in bs[..i] && y.free && y.addr == prev;
      var k :| 0 <= k < i && bs[k] == y;
      HeldCut(m, s, bs, k, 0);
      Apart(s, bs, k, i - 1);
      Apart(s, bs, i - 1, i);
    }
  }

  /** Lines 108 and 109: the block before, joined with the freed one. */
  function PrevWords(m: seq<byte>, prev: nat, b: nat): (m': seq<byte>)
    requires |m| == SPACE && prev + 4 <= SPACE && b + 4 <= SPACE
    requires Word(m, prev) + 2 + Word(m, b) < 0x10000
    ensures |m'| == |m|
  {
    PutWord(PutWord(m, prev, Word(m, prev) + 2 + Word(m, b)), prev + 2, Word(m, b + 2))
  }

  lemma {:induction false} PrevWordsHold(m: seq<byte>, prev: nat, b: nat)
    requires |m| == SPACE && prev + 4 <= b && b + 4 <= SPACE
    requires Word(m, prev) + 2 + Word(m, b) < 0x10000
    ensures var m' := PrevWords(m, prev, b);
      && Word(m', prev) == Word(m, prev) + 2 + Word(m, b) && Word(m', prev + 2) == Word(m, b + 2)
      && SameOn(m, m', 0, prev) && SameOn(m, m', prev + 4, SPACE)
  {
  }

  /** The freed block swallowed by the free block before it. */
  lemma {:induction false} JoinedPrev(m: seq<byte>, s: nat, bs: seq<Block>, i: nat)
    requires s > 0 && |m| == SPACE && Held(m, s, bs, 0) && 0 < i && i + 1 < |bs| && !bs[i].free
    requires bs[i - 1].free && EndOf(s, bs) < SPACE
    ensures bs[i].End() <= SPACE && bs[i].size >= 2
    ensures var l, y, x, r := bs[..i], bs[i - 1], bs[i], bs[i + 1..];
      Head(r, 0) < 0x10000 &&
      (r[0].free ==> Head(r, 0) + 4 <= SPACE && x.size + 2 + Word(m, Head(r, 0)) < 0x10000) &&
      var m1 := NextWords(m, x.addr, x.size, Head(r, 0), r[0].free);
      && LastFree(l) == y.addr && y.addr + 4 <= SPACE && y.End() == x.addr && x.addr + 4 <= SPACE
      && Word(m1, y.addr) == y.size && y.size + 2 + Word(m1, x.addr) < 0x10000
      && var m', bs' := PrevWords(m1, y.addr, x.addr), GivenBack(l, x, r);
        && Held(m', s, bs', 0) && Head(bs', 0) == Head(bs, 0)
        && UntouchedBut(m, m', bs, x.Payload())
  {
    hide NextWords, Word, JoinedNext, AfterNext, PrevWords, Held, Head, LastFree, Tiled;
    var l, y, x, r := bs[..i], bs[i - 1], bs[i], bs[i + 1..];
    var l0 := bs[..i - 1];
    CutTwo(bs, i);
    HeldCut(m, s, bs, i, 0);
    HeldCut(m, s, bs, i - 1, 0);
    PrevTouches(m, s, bs, i);
    JoinedPrevHeld(m, s, l0, y, x, r);
    HeadAppend(l0, [y] + ([x] + r), 0);
    HeldIsTiled(m, s, bs, 0);
    var m1 := NextWords(m, x.addr, x.size, Head(r, 0), r[0].free);
    UntouchedOutside(m, PrevWords(m1, y.addr, x.addr), s, bs, i);
  }

  lemma {:induction false} CutTwo(bs: seq<Block>, i: nat)
    requires 0 < i < |bs|
    ensures bs[..i] == bs[..i - 1] + [bs[i - 1]]
    ensures bs[i..] == [bs[i]] + bs[i + 1..]
    ensures bs == bs[..i - 1] + ([bs[i - 1]] + ([bs[i]] + bs[i + 1..]))
  {
  }

  /** Memory changed only in two neighbours, the first of them free. */
  lemma {:induction false} UntouchedOutside(m: seq<byte>, m': seq<byte>, s: nat, bs: seq<Block>, i: nat)
    requires Tiled(s, bs) && |m| == SPACE && 0 < i < |bs| && bs[i - 1].free
    requires SameOn(m, m', s, bs[i - 1].addr) && SameOn(m, m', bs[i].End(), SPACE)
    ensures forall b :: b in bs && !b.free && b != bs[i] ==> SameOn(m, m', b.Payload(), b.End())
  {
    forall b | b in bs && !b.free && b != bs[i]
      ensures SameOn(m, m', b.Payload(), b.End())
    {
      var j :| 0 <= j < |bs| && bs[j] == b;
      if j < i - 1 {
        Apart(s, bs, j, i - 1);
      } else {
        Apart(s, bs, i, j);
      }
    }
  }

  lemma {:induction false} JoinedPrevHeld(m: seq<byte>, s: nat, l0: seq<Block>, y: Block, x: Block, r: seq<Block>)
    requires |m| == SPACE && Held(m, s, l0, y.addr) && EndOf(s, l0) == y.addr && y.free && y.size >= 2
    requires y.End() == x.addr && x.size >= 2 && x.End() <= SPACE && !x.free && r != []
    requires Word(m, y.addr) == y.size && Word(m, x.addr) == x.size && Held(m, x.End(), r, 0)
    requires EndOf(x.End(), r) < SPACE
    ensures Head(r, 0) < 0x10000
    ensures r[0].free ==> Head(r, 0) + 4 <= SPACE && x.size + 2 + Word(m, Head(r, 0)) < 0x10000
    ensures var m1 := NextWords(m, x.addr, x.size, Head(r, 0), r[0].free);
      && Word(m1, y.addr) == y.size && y.size + 2 + Word(m1, x.addr) < 0x10000
      && var m', bs' := PrevWords(m1, y.addr, x.addr), GivenBack(l0 + [y], x, r);
        && Held(m', s, bs', 0) && Head(bs', 0) == Head(l0, y.addr)
        && SameOn(m, m', s, EndOf(s, l0)) && SameOn(m, m', x.End(), SPACE)
  {
    hide NextWords, PrevWords, Word, JoinedNext, AfterNext, Held, Head;
    NextWordsHold(m, x, r);
    var m1, x', r' := NextWords(m, x.addr, x.size, Head(r, 0), r[0].free), JoinedNext(x, r), AfterNext(r);
    assert EndOf(x'.End(), r') == EndOf(x.End(), r) && x'.End() <= EndOf(x.End(), r);
    SameWord(m, m1, 0, x.addr, y.addr);
    var m' := PrevWords(m1, y.addr, x.addr);
    PrevWordsHold(m1, y.addr, x.addr);
    var y' := Block(y.addr, y.size + 2 + x'.size, true);
    HeldFrame(m, m', s, l0, y.addr);
    HeldFrame(m1, m', x'.End(), r', 0);
    HeldCons(m', y', r');
    HeldAppend(m', s, l0, [y'] + r', 0);
    HeadAppend(l0, [y'] + r', 0);
    assert l0 + ([y'] + r') == l0 + [y'] + r';
    assert (l0 + [y])[..|l0|] == l0;
  }

  lemma {:induction false} HeldCons(m: seq<byte>, b: Block, r: seq<Block>)
    requires b.size >= 2 && b.End() <= |m| && b.free
    requires Word(m, b.addr) == b.size && Word(m, b.addr + 2) == Head(r, 0) && Held(m, b.End(), r, 0)
    ensures Held(m, b.addr, [b] + r, 0) && Head([b] + r, 0) == b.addr
  {
    assert ([b] + r)[1..] == r;
  }

  /** Once the last block is gone the blocks before it are held as they are. */
  lemma {:induction false} LastGone(m: seq<byte>, s: nat, l: seq<Block>, x: Block)
    requires Held(m, s, l + [x], 0) && !x.free
    ensures Held(m, s, l, 0) && Head(l + [x], 0) == Head(l, 0) && x.addr == EndOf(s, l)
    ensures Head(l, 0) == 0 || Head(l, 0) + 4 <= |m|
  {
    HeldAppend(m, s, l, [x], 0);
    HeadAppend(l, [x], 0);
    NoFree(m, x.addr, [x], 0, 0);
    WalkStart(l);
    if NextFree(l, 0) < |l| {
      WalkStep(m, s, l, NextFree(l, 0));
    }
  }

  /** The last block of the list, `l[j]`, ends at the break only when it is the last block
      of all, and then goes back too (lines 90 to 93). */
  lemma {:induction false} FreeTail(m: seq<byte>, s: nat, l: seq<Block>, j: nat)
    requires s > 0 && |m| == SPACE && Held(m, s, l, 0) && j <= |l|
    requires j < |l| ==> l[j].free && l[j].addr + 4 <= SPACE && Word(m, l[j].addr + 2) == 0
    requires j == |l| ==> NextFree(l, 0) == |l|
    ensures j < |l| ==>
      (l[j].End() == EndOf(s, l) <==> j == |l| - 1) && Word(m, l[j].addr) == l[j].size && l[j].addr != 0
    ensures j == |l| || j < |l| - 1 ==> Shrunk(l) == l
    ensures LastFree(l[..j]) + 4 <= SPACE
    ensures j == |l| - 1 ==>
      var m' := SetLink(m, LastFree(l[..j]), 0);
      && Shrunk(l) == l[..j] && EndOf(s, l[..j]) == l[j].addr
      && Held(m', s, l[..j], 0) && Head(l[..j], 0) == (if LastFree(l[..j]) == 0 then 0 else Head(l, 0))
      && Untouched(m, m', l)
  {
    if j < |l| {
      WalkStep(m, s, l, j);
      HeldIsTiled(m, s, l, 0);
      Apart(s, l, j, |l| - 1);
      if NextFree(l, j + 1) < |l| {
        Apart(s, l, NextFree(l, j + 1), NextFree(l, j + 1));
      }
      if j == |l| - 1 {
        assert l == l[..j] + [l[j]];
        TailCut(m, s, l[..j], l[j]);
      } else {
        Relinked(m, s, l, j);
      }
    } else {
      Relinked(m, s, l, j);
    }
  }

  lemma {:induction false} Relinked(m: seq<byte>, s: nat, l: seq<Block>, j: nat)
    requires s > 0 && |m| == SPACE && Held(m, s, l, 0) && j <= |l|
    ensures LastFree(l[..j]) + 4 <= SPACE
  {
    assert l == l[..j] + l[j..];
    HeldAppend(m, s, l[..j], l[j..], 0);
    Relink(m, s, l[..j], Head(l[j..], 0), 0);
  }

  lemma {:induction false} TailCut(m: seq<byte>, s: nat, l: seq<Block>, y: Block)
    requires s > 0 && |m| == SPACE && Held(m, s, l + [y], 0) && y.free
    ensures LastFree(l) + 4 <= SPACE && y.addr == EndOf(s, l)
    ensures var m' := SetLink(m, LastFree(l), 0);
      && Held(m', s, l, 0) && Head(l, 0) == (if LastFree(l) == 0 then 0 else Head(l + [y], 0))
      && Untouched(m, m', l + [y])
  {
    HeldAppend(m, s, l, [y], 0);
    HeadAppend(l, [y], 0);
    Splice(m, s, l, Head([y], 0), []);
    assert l + [] == l;
  }
}
