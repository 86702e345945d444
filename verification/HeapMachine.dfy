/** The allocator as a state machine on well-formed block sequences: what each call of
lib/avr/malloc.c does to the blocks, and what holds over every run of calls. The class
`Heap` proves that the code, on its bytes and links, takes exactly these steps. */
module HeapMachine {
  import opened HeapBlocks
  import opened HeapLayout
  import opened Arith

  /** What malloc makes of a request: nothing smaller than a link is handed out. */
  function AtLeastLink(n: nat): nat { if n < 2 then 2 else n }

  /** The lowest free block of at least `n` bytes, or `|bs|`. */
  function FirstFit(bs: seq<Block>, n: nat): (i: nat)
    ensures i <= |bs|
    ensures i < |bs| ==> bs[i].free && bs[i].size >= n
    ensures forall j :: 0 <= j < i && bs[j].free ==> bs[j].size < n
  {
    if bs == [] || (bs[0].free && bs[0].size >= n) then 0
    else
      var k := FirstFit(bs[1..], n);
      assert forall j :: 0 < j <= k && bs[j - 1 + 1].free && j < |bs| ==> bs[j] == bs[1..][j - 1];
      k + 1
  }

  /** A free block of at least `n` bytes given out: the rest stays free when it can hold
      another block. */
  function Carve(b: Block, n: nat): seq<Block> {
    if b.size >= n + 4
    then [Block(b.addr, n, false), Block(b.addr + 2 + n, b.size - n - 2, true)]
    else [Block(b.addr, b.size, false)]
  }

  /** The blocks after a call, and the pointer it returned (0 is NULL). */
  datatype Outcome = Outcome(blocks: seq<Block>, p: nat)

  function Malloc(start: nat, bs: seq<Block>, n: nat, top: nat): Outcome {
    var m, i, brk := AtLeastLink(n), FirstFit(bs, AtLeastLink(n)), EndOf(start, bs);
    if i < |bs| then Outcome(bs[..i] + Carve(bs[i], m) + bs[i + 1..], bs[i].Payload())
    else if top < brk + m + 2 then Outcome(bs, 0)
    else Outcome(bs + [Block(brk, m, false)], brk + 2)
  }

  /** Freeing takes one block out of the live ones; the rest of the heap follows. */
  function Free(start: nat, bs: seq<Block>, p: nat): seq<Block> {
    Layout(start, Without(Live(bs), p))
  }

  function Product(n: nat, size: nat): nat { n * size }

  function Calloc(start: nat, bs: seq<Block>, n: nat, size: nat, top: nat): Outcome {
    if Product(n, size) > 0xffff then Outcome(bs, 0) else Malloc(start, bs, Product(n, size), top)
  }

  ghost function Realloc(start: nat, bs: seq<Block>, p: nat, n: nat, top: nat): Outcome
    requires p == 0 || IsLive(bs, p)
  {
    if p == 0 then Malloc(start, bs, n, top)
    else if n <= bs[IndexOf(bs, p)].size then Outcome(bs, p)
    else
      var o := Malloc(start, bs, n, top);
      if o.p == 0 then o else Outcome(Free(start, o.blocks, p), o.p)
  }

  /** The least multiple of `align` at or above `x`. */
  function AlignUp(x: nat, align: nat): (a: nat)
    requires align > 0
    ensures x <= a < x + align
  {
    if x == 0 then 0 else if x <= align then align else align + AlignUp(x - align, align)
  }

  lemma {:induction false} AlignUpIsMultiple(x: nat, align: nat)
    requires align > 0
    ensures AlignUp(x, align) % align == 0
  {
    if x > align {
      AlignUpIsMultiple(x - align, align);
      var a := AlignUp(x - align, align);
      DivModUnique(align + a, align, a / align + 1, 0);
    }
  }

  /** Rounding up as the code does, by dropping the remainder of `x + align - 1`. */
  lemma {:induction false} AlignUpDrops(x: nat, align: nat)
    requires align > 0
    ensures AlignUp(x, align) == x + align - 1 - (x + align - 1) % align
  {
    var y := x + align - 1;
    if x > align {
      AlignUpDrops(x - align, align);
      DivModUnique(y, align, (y - align) / align + 1, (y - align) % align);
    } else if x > 0 {
      DivModUnique(y, align, 1, x - 1);
    } else {
      DivModUnique(y, align, 0, y);
    }
  }

  /** A live block cut in two live ones, the second with its payload at `a`. */
  function SplitAt(bs: seq<Block>, i: nat, a: nat): seq<Block>
    requires i < |bs| && bs[i].Payload() + 4 <= a <= bs[i].End()
  {
    var b := bs[i];
    bs[..i] + [Block(b.addr, a - b.Payload() - 2, false), Block(a - 2, b.End() - a, false)] + bs[i + 1..]
  }

  ghost function AlignedAlloc(start: nat, bs: seq<Block>, align: nat, n: nat, top: nat): Outcome {
    if align <= 2 then Malloc(start, bs, n, top)
    else
      var o := Malloc(start, bs, AtLeastLink(n) + align + 4, top);
      if o.p == 0 then o
      else
        CutAt(start, o.blocks, o.p, AlignUp(o.p + 4, align))
  }

  /** The live block at `p` cut where its payload can start at `a`, its lead freed. There is
      no cut to make when `a` is outside the block. */
  ghost function CutAt(start: nat, bs: seq<Block>, p: nat, a: nat): Outcome {
    if IsLive(bs, p) && p + 4 <= a <= bs[IndexOf(bs, p)].End()
    then Outcome(Free(start, SplitAt(bs, IndexOf(bs, p), a), p), a)
    else Outcome(bs, p)
  }

  // ----- malloc

  /** The step when block `j` is the first that fits. */
  lemma {:induction false} MallocAt(start: nat, bs: seq<Block>, n: nat, top: nat, j: nat)
    requires var m := AtLeastLink(n);
      && j < |bs| && bs[j].free && bs[j].size >= m
      && forall k :: 0 <= k < j && bs[k].free ==> bs[k].size < m
    ensures Malloc(start, bs, n, top) == Outcome(bs[..j] + Carve(bs[j], AtLeastLink(n)) + bs[j + 1..], bs[j].Payload())
  {
    assert FirstFit(bs, AtLeastLink(n)) == j;
  }

  /** The step when no block fits. */
  lemma {:induction false} MallocAbove(start: nat, bs: seq<Block>, n: nat, top: nat)
    requires forall k :: 0 <= k < |bs| && bs[k].free ==> bs[k].size < AtLeastLink(n)
    ensures var m, brk := AtLeastLink(n), EndOf(start, bs);
      Malloc(start, bs, n, top) ==
      if top < brk + m + 2 then Outcome(bs, 0) else Outcome(bs + [Block(brk, m, false)], brk + 2)
  {
    assert FirstFit(bs, AtLeastLink(n)) == |bs|;
  }

  lemma {:induction false} CarveShape(b: Block, n: nat)
    requires b.free && b.size >= n >= 2
    ensures var c := Carve(b, n);
      && c != [] && Tiled(b.addr, c) && EndOf(b.addr, c) == b.End()
      && PackedBefore(c) && !c[0].free && c[0].addr == b.addr && n <= c[0].size < n + 4
      && Live(c) == [c[0]]
  {
    var c := Carve(b, n);
    if |c| == 2 {
      assert c[1..] == [c[1]];
      assert Live(c[1..]) == [];
    } else {
      assert c[1..] == [];
    }
  }

  lemma {:induction false} InPlace(start: nat, bs: seq<Block>, i: nat, n: nat)
    requires WellFormed(start, bs)
    requires i < |bs| && bs[i].free && bs[i].size >= n >= 2
    ensures var c := Carve(bs[i], n);
      var bs' := bs[..i] + c + bs[i + 1..];
      && WellFormed(start, bs') && EndOf(start, bs') == EndOf(start, bs)
      && Live(bs) == Live(bs[..i]) + Live(bs[i + 1..])
      && Live(bs') == Live(bs[..i]) + [c[0]] + Live(bs[i + 1..])
  {
    hide Tiled, Packed, PackedBefore, Live, Carve;
    var l, x, r, c := bs[..i], bs[i], bs[i + 1..], Carve(bs[i], n);
    CarveShape(x, n);
    Cut(bs, i);
    TiledSplit(start, l, x, r);
    FreeAround(l, x, r);
    assert l + c + r == l + (c + r);
    TiledAppend(start, l, c + r);
    TiledAppend(x.addr, c, r);
    PackedAppend(c, r);
    PackedAppend(l, c + r);
    SplitLive(l, x, r);
    LiveAppend(l + c, r);
    LiveAppend(l, c);
  }

  /** A free block stands between live ones. */
  lemma {:induction false} FreeAround(l: seq<Block>, x: Block, r: seq<Block>)
    requires Packed(l + [x] + r) && x.free
    ensures PackedBefore(l) && (l == [] || !l[|l| - 1].free)
    ensures Packed(r) && r != [] && !r[0].free
  {
    assert l + [x] + r == l + ([x] + r) && ([x] + r)[1..] == r;
    PackedAppend(l, [x] + r);
  }

  lemma {:induction false} AtBreak(start: nat, bs: seq<Block>, m: nat)
    requires WellFormed(start, bs) && m >= 2
    ensures var b := Block(EndOf(start, bs), m, false);
      WellFormed(start, bs + [b]) && Live(bs + [b]) == Live(bs) + [b]
  {
    var b := Block(EndOf(start, bs), m, false);
    TiledAppend(start, bs, [b]);
    assert bs == bs + [];
    PackedAppend(bs, []);
    PackedAppend(bs, [b]);
    LiveAppend(bs, [b]);
    assert Live([b]) == [b];
  }

  /** Nothing else stands at a live block's address. */
  lemma {:induction false} OnlyIndex(start: nat, bs: seq<Block>, i: nat)
    requires Tiled(start, bs) && i < |bs| && !bs[i].free
    ensures IsLive(bs, bs[i].Payload()) && IndexOf(bs, bs[i].Payload()) == i
  {
    assert bs[i] in bs;
    var j := IndexOf(bs, bs[i].Payload());
    if i < j { Apart(start, bs, i, j); }
    if j < i { Apart(start, bs, j, i); }
  }

  /** No free block has `m` bytes. */
  predicate NoneFits(bs: seq<Block>, m: nat) { forall b :: b in bs && b.free ==> b.size < m }

  /** malloc is first fit and complete. It returns NULL exactly when no free block is big
      enough and the room above the break is too small, and then changes nothing; otherwise
      the granted block is new, its address is the lowest that fits, and the live blocks
      other than it are the ones there were. */
  lemma {:induction false} MallocCorrect(start: nat, bs: seq<Block>, n: nat, top: nat)
    requires WellFormed(start, bs)
    ensures var m, o := if n < 2 then 2 else n, Malloc(start, bs, n, top);
      && WellFormed(start, o.blocks)
      && EndOf(start, o.blocks) <= (if EndOf(start, bs) < top then top else EndOf(start, bs))
      && (o.p == 0 <==> NoneFits(bs, m) && top < EndOf(start, bs) + m + 2)
      && (o.p == 0 ==> o.blocks == bs)
      && (o.p != 0 ==>
            && !IsLive(bs, o.p)
            && (forall b :: b in bs && b.free && b.size >= m ==> o.p <= b.Payload())
            && IsLive(o.blocks, o.p)
            && m <= o.blocks[IndexOf(o.blocks, o.p)].size < m + 4
            && (NoneFits(bs, m) ==> o.p == EndOf(start, bs) + 2 && EndOf(start, o.blocks) == EndOf(start, bs) + m + 2)
            && (!NoneFits(bs, m) ==> EndOf(start, o.blocks) == EndOf(start, bs))
            && Without(Live(o.blocks), o.p) == Live(bs))
  {
    var m, i, o := AtLeastLink(n), FirstFit(bs, AtLeastLink(n)), Malloc(start, bs, n, top);
    if i < |bs| {
      MallocFits(start, bs, i, m);
      assert bs[i] in bs;
    } else if top < EndOf(start, bs) + m + 2 {
    } else {
      MallocExtends(start, bs, m);
    }
  }

  lemma {:induction false} MallocFits(start: nat, bs: seq<Block>, i: nat, m: nat)
    requires WellFormed(start, bs) && m >= 2 && i == FirstFit(bs, m) < |bs|
    ensures var p, bs' := bs[i].Payload(), bs[..i] + Carve(bs[i], m) + bs[i + 1..];
      && WellFormed(start, bs') && EndOf(start, bs') == EndOf(start, bs)
      && !IsLive(bs, p)
      && (forall b :: b in bs && b.free && b.size >= m ==> p <= b.Payload())
      && IsLive(bs', p) && m <= bs'[IndexOf(bs', p)].size < m + 4
      && Without(Live(bs'), p) == Live(bs)
  {
    var p, c := bs[i].Payload(), Carve(bs[i], m);
    var bs' := bs[..i] + c + bs[i + 1..];
    InPlace(start, bs, i, m);
    CarveShape(bs[i], m);
    assert bs'[i] == c[0];
    OnlyIndex(start, bs', i);
    LiveAround(start, bs', i);
    assert bs'[..i] == bs[..i];
    assert Live(bs'[i + 1..]) == Live(bs[i + 1..]) by {
      assert bs'[i + 1..] == c[1..] + bs[i + 1..];
      LiveAppend(c[1..], bs[i + 1..]);
      assert Live(c) == [c[0]] + Live(c[1..]);
    }
    forall b | b in bs && b.free && b.size >= m
      ensures p <= b.Payload()
    {
      var j :| 0 <= j < |bs| && bs[j] == b;
      Apart(start, bs, i, j);
    }
    NotLiveAt(start, bs, i);
  }

  lemma {:induction false} MallocExtends(start: nat, bs: seq<Block>, m: nat)
    requires WellFormed(start, bs) && m >= 2
    ensures var g := Block(EndOf(start, bs), m, false);
      var p, bs' := g.Payload(), bs + [g];
      && WellFormed(start, bs') && !IsLive(bs, p)
      && IsLive(bs', p) && bs'[IndexOf(bs', p)].size == m
      && Without(Live(bs'), p) == Live(bs)
      && forall b :: b in bs ==> b.Payload() < p
  {
    var g := Block(EndOf(start, bs), m, false);
    AtBreak(start, bs, m);
    OnlyIndex(start, bs + [g], |bs|);
    LiveAround(start, bs + [g], |bs|);
    assert (bs + [g])[..|bs|] == bs && (bs + [g])[|bs| + 1..] == [];
    forall b | b in bs
      ensures b.Payload() < g.Payload()
    {
      var j :| 0 <= j < |bs| && bs[j] == b;
      Apart(start, bs, j, j);
    }
  }

  lemma {:induction false} MallocGrants(start: nat, bs: seq<Block>, n: nat, top: nat)
    requires WellFormed(start, bs)
    ensures var o := Malloc(start, bs, n, top);
      && WellFormed(start, o.blocks)
      && (o.p != 0 ==>
            && IsLive(o.blocks, o.p)
            && o.blocks[IndexOf(o.blocks, o.p)].End() >= o.p + n
            && Without(Live(o.blocks), o.p) == Live(bs))
  {
    MallocCorrect(start, bs, n, top);
  }

  lemma {:induction false} FreshPayload(start: nat, bs: seq<Block>, n: nat, top: nat)
    requires WellFormed(start, bs)
    ensures !IsLive(bs, Malloc(start, bs, n, top).p)
  {
    MallocCorrect(start, bs, n, top);
    if IsLive(bs, 0) {
      var i := IndexOf(bs, 0);
    }
  }

  /** Freeing what malloc just returned puts the heap back as it was. */
  lemma {:induction false} FreeUndoesMalloc(start: nat, bs: seq<Block>, n: nat, top: nat)
    requires WellFormed(start, bs) && Malloc(start, bs, n, top).p != 0
    ensures var o := Malloc(start, bs, n, top); Free(start, o.blocks, o.p) == bs
  {
    MallocCorrect(start, bs, n, top);
    LayoutOfHeap(start, bs);
  }

  lemma {:induction false} NotLiveAt(start: nat, bs: seq<Block>, i: nat)
    requires Tiled(start, bs) && i < |bs| && bs[i].free
    ensures !IsLive(bs, bs[i].Payload())
  {
    if IsLive(bs, bs[i].Payload()) {
      var j := IndexOf(bs, bs[i].Payload());
      if i < j { Apart(start, bs, i, j); }
      if j < i { Apart(start, bs, j, i); }
    }
  }

  // ----- free

  /** The live blocks of a heap cut at a live block. */
  lemma {:induction false} LiveAround(start: nat, bs: seq<Block>, i: nat)
    requires Tiled(start, bs) && i < |bs| && !bs[i].free
    ensures Live(bs) == Live(bs[..i]) + [bs[i]] + Live(bs[i + 1..])
    ensures Without(Live(bs), bs[i].Payload()) == Live(bs[..i]) + Live(bs[i + 1..])
  {
    Cut(bs, i);
    SplitLive(bs[..i], bs[i], bs[i + 1..]);
    AloneAt(start, bs, i);
    WithoutMiddle(Live(bs[..i]), bs[i], Live(bs[i + 1..]));
  }

  /** No other live block has this block's payload address. */
  lemma {:induction false} AloneAt(start: nat, bs: seq<Block>, i: nat)
    requires Tiled(start, bs) && i < |bs|
    ensures forall b :: b in Live(bs[..i]) || b in Live(bs[i + 1..]) ==> b.Payload() != bs[i].Payload()
  {
    var l, r := bs[..i], bs[i + 1..];
    forall b | b in Live(l) || b in Live(r)
      ensures b.Payload() != bs[i].Payload()
    {
      LiveIsLive(l, b);
      LiveIsLive(r, b);
      if b in l {
        var j :| 0 <= j < |l| && l[j] == b;
        Apart(start, bs, j, i);
      } else {
        var j :| 0 <= j < |r| && r[j] == b;
        Apart(start, bs, i, i + 1 + j);
      }
    }
  }

  lemma {:induction false} WithoutMiddle(l: seq<Block>, x: Block, r: seq<Block>)
    requires forall b :: b in l || b in r ==> b.Payload() != x.Payload()
    ensures Without(l + [x] + r, x.Payload()) == l + r
  {
    WithoutNone(l, x.Payload());
    WithoutNone(r, x.Payload());
    WithoutAppend(l + [x], r, x.Payload());
    WithoutAppend(l, [x], x.Payload());
    assert Without([x], x.Payload()) == [];
  }

  lemma {:induction false} SpacedAppend(start: nat, a: seq<Block>, b: seq<Block>)
    ensures Spaced(start, a + b) <==> Spaced(start, a) && Spaced(EndOf(start, a), b)
    decreases a
  {
    if a == [] {
      assert a + b == b;
    } else {
      assert (a + b)[1..] == a[1..] + b;
      SpacedAppend(a[0].End(), a[1..], b);
    }
  }

  /** A live block taken out leaves the others spaced. */
  lemma {:induction false} SpacedWithout(start: nat, a: seq<Block>, x: Block, b: seq<Block>)
    requires Spaced(start, a + [x] + b)
    ensures Spaced(start, a + b)
  {
    assert a + [x] + b == a + ([x] + b);
    SpacedAppend(start, a, [x] + b);
    SpacedAppend(start, a, b);
    assert ([x] + b)[1..] == b;
  }

  /** free keeps the heap well formed and removes exactly the one live block. */
  lemma {:induction false} FreeCorrect(start: nat, bs: seq<Block>, p: nat)
    requires WellFormed(start, bs) && IsLive(bs, p)
    ensures WellFormed(start, Free(start, bs, p))
    ensures Live(Free(start, bs, p)) == Without(Live(bs), p)
    ensures |Live(Free(start, bs, p))| == |Live(bs)| - 1
    ensures !IsLive(Free(start, bs, p), p)
    ensures EndOf(start, Free(start, bs, p)) <= EndOf(start, bs)
  {
    hide Tiled, Packed, Live, Layout;
    var i, bs' := IndexOf(bs, p), Free(start, bs, p);
    var l, r := Live(bs[..i]), Live(bs[i + 1..]);
    LiveAround(start, bs, i);
    LayoutOfHeap(start, bs);
    SpacedWithout(start, l, bs[i], r);
    LayoutIsHeap(start, l + r);
    if IsLive(bs', p) {
      LiveIsLive(bs', bs'[IndexOf(bs', p)]);
      WithoutGone(Live(bs), p, bs'[IndexOf(bs', p)]);
    }
    EndIsLast(start, bs);
    EndIsLast(start, bs');
    SpacedAppend(start, l + [bs[i]], r);
    if r == [] {
      SpacedAppend(start, l, [bs[i]]);
      assert EndOf(start, l + r) <= EndOf(start, l + [bs[i]]);
    }
  }

  lemma {:induction false} WithoutGone(live: seq<Block>, p: nat, b: Block)
    ensures b in Without(live, p) <==> b in live && b.Payload() != p
  {
    if live != [] {
      WithoutGone(live[1..], p, b);
    }
  }

  /** The break is the end of the last live block. */
  lemma {:induction false} EndIsLast(start: nat, bs: seq<Block>)
    requires WellFormed(start, bs)
    ensures EndOf(start, bs) == EndOf(start, Live(bs))
  {
    if bs != [] {
      var k := |bs| - 1;
      assert bs == bs[..k] + [bs[k]];
      PackedAppend(bs[..k], [bs[k]]);
      LiveAppend(bs[..k], [bs[k]]);
      assert Live([bs[k]]) == [bs[k]];
    }
  }

  // ----- realloc and aligned_alloc

  lemma {:induction false} LiveStays(start: nat, bs: seq<Block>, p: nat, bs': seq<Block>, q: nat)
    requires Tiled(start, bs) && Tiled(start, bs')
    requires IsLive(bs, p) && p != q && Without(Live(bs'), q) == Live(bs)
    ensures IsLive(bs', p) && bs'[IndexOf(bs', p)] == bs[IndexOf(bs, p)]
  {
    var b := bs[IndexOf(bs, p)];
    LiveIsLive(bs, b);
    WithoutGone(Live(bs'), q, b);
    LiveAt(start, bs', b);
  }

  lemma {:induction false} WithoutCommutes(live: seq<Block>, p: nat, q: nat)
    ensures Without(Without(live, p), q) == Without(Without(live, q), p)
  {
    if live != [] {
      WithoutCommutes(live[1..], p, q);
      var w, v := Without(live, p), Without(live, q);
      if live[0].Payload() != p { assert w[1..] == Without(live[1..], p); }
      if live[0].Payload() != q { assert v[1..] == Without(live[1..], q); }
    }
  }

  /** calloc is malloc of the product, and NULL with nothing changed when that is not a 16-bit
      number. */
  lemma {:induction false} CallocCorrect(start: nat, bs: seq<Block>, n: nat, size: nat, top: nat)
    requires WellFormed(start, bs)
    ensures var o := Calloc(start, bs, n, size, top);
      && WellFormed(start, o.blocks)
      && (n * size >= 0x10000 ==> o == Outcome(bs, 0))
      && (n * size < 0x10000 ==> o == Malloc(start, bs, n * size, top))
  {
    hide Malloc;
    MallocCorrect(start, bs, n * size, top);
  }

  /** At the alignments every block has, aligned_alloc is malloc. */
  lemma {:induction false} AlignedAllocPlain(start: nat, bs: seq<Block>, align: nat, n: nat, top: nat)
    requires align <= 2
    ensures AlignedAlloc(start, bs, align, n, top) == Malloc(start, bs, n, top)
  {
  }

  /** realloc on a live block: it stays when it is big enough; on failure nothing changes;
      otherwise the new block holds the request and only the old one is gone. */
  lemma {:induction false} ReallocCorrect(start: nat, bs: seq<Block>, p: nat, n: nat, top: nat)
    requires WellFormed(start, bs) && IsLive(bs, p)
    ensures var o, had := Realloc(start, bs, p, n, top), bs[IndexOf(bs, p)].size;
      && WellFormed(start, o.blocks)
      && (o.p == 0 ==> o.blocks == bs && had < n && Malloc(start, bs, n, top).p == 0)
      && (o.p != 0 ==> IsLive(o.blocks, o.p) && o.blocks[IndexOf(o.blocks, o.p)].size >= n)
      && (o.p != 0 ==> Without(Live(o.blocks), o.p) == Without(Live(bs), p))
      && (o.p != 0 && n > had ==> o.p != p && !IsLive(o.blocks, p))
      && (n <= had ==> o == Outcome(bs, p))
      && (n > had ==> (o.p == 0 <==> NoneFits(bs, n) && top < EndOf(start, bs) + n + 2))
      && EndOf(start, o.blocks) <= (if EndOf(start, bs) < top then top else EndOf(start, bs))
  {
    var o := Malloc(start, bs, n, top);
    var i := IndexOf(bs, p);
    Apart(start, bs, i, i);
    if n > bs[i].size && o.p != 0 {
      MallocCorrect(start, bs, n, top);
      LiveStays(start, bs, p, o.blocks, o.p);
      FreeCorrect(start, o.blocks, p);
      var bs' := Free(start, o.blocks, p);
      WithoutCommutes(Live(o.blocks), p, o.p);
      var g := o.blocks[IndexOf(o.blocks, o.p)];
      LiveIsLive(o.blocks, g);
      WithoutGone(Live(o.blocks), p, g);
      LiveAt(start, bs', g);
    } else if n > bs[i].size {
      MallocCorrect(start, bs, n, top);
    }
  }

  /** Cutting a live block leaves a heap with one more live block. */
  lemma {:induction false} SplitKeeps(start: nat, bs: seq<Block>, i: nat, a: nat)
    requires WellFormed(start, bs) && i < |bs| && !bs[i].free
    requires bs[i].Payload() + 4 <= a <= bs[i].End() - 2
    ensures var bs' := SplitAt(bs, i, a);
      && WellFormed(start, bs') && EndOf(start, bs') == EndOf(start, bs)
      && Live(bs') == Live(bs[..i]) + [bs'[i], bs'[i + 1]] + Live(bs[i + 1..])
  {
    var l, x, r, bs' := bs[..i], bs[i], bs[i + 1..], SplitAt(bs, i, a);
    var h, t := bs'[i], bs'[i + 1];
    Cut(bs, i);
    TiledSplit(start, l, x, r);
    PackedMiddle(l, x, r);
    assert bs' == l + [h] + ([t] + r);
    assert ([t] + r)[1..] == r && [t] + r == [] + [t] + r;
    TiledSplit(start, l, h, [t] + r);
    PackedMiddle(l, h, [t] + r);
    SplitLive(l, h, [t] + r);
    SplitLive([], t, r);
  }

  /** aligned_alloc returns NULL exactly when malloc does for the padded request, and
      changes nothing then. */
  lemma {:induction false} AlignedAllocFails(start: nat, bs: seq<Block>, align: nat, n: nat, top: nat)
    requires WellFormed(start, bs) && align > 2
    ensures var o, m := AlignedAlloc(start, bs, align, n, top), (if n < 2 then 2 else n) + align + 4;
      && (o.p == 0 <==> Malloc(start, bs, m, top).p == 0)
      && (o.p == 0 ==> o.blocks == bs)
  {
    var m := AtLeastLink(n) + align + 4;
    if Malloc(start, bs, m, top).p == 0 {
      MallocCorrect(start, bs, m, top);
    } else {
      AlignedIsCut(start, bs, align, n, top);
    }
  }

  /** Otherwise it returns an aligned live block of at least `n` bytes; the lead it cut off
      is free again and joined, and every other live block is as it was. */
  lemma {:induction false} AlignedAllocGrants(start: nat, bs: seq<Block>, align: nat, n: nat, top: nat)
    requires WellFormed(start, bs) && align > 2
    requires Malloc(start, bs, AtLeastLink(n) + align + 4, top).p != 0
    ensures var o := AlignedAlloc(start, bs, align, n, top);
      && WellFormed(start, o.blocks)
      && o.p % align == 0 && !IsLive(bs, o.p)
      && IsLive(o.blocks, o.p)
      && o.blocks[IndexOf(o.blocks, o.p)].size >= (if n < 2 then 2 else n)
      && Without(Live(o.blocks), o.p) == Live(bs)
      && EndOf(start, o.blocks) <= (if EndOf(start, bs) < top then top else EndOf(start, bs))
      && var raw := Malloc(start, bs, AtLeastLink(n) + align + 4, top).p; raw + 4 <= o.p < raw + 4 + align
  {
    hide Malloc, AlignUp, Live, Tiled, Packed, Free, SplitAt;
    var o := Malloc(start, bs, AtLeastLink(n) + align + 4, top);
    AlignedIsCut(start, bs, align, n, top);
    MallocGrants(start, bs, AtLeastLink(n) + align + 4, top);
    MallocCorrect(start, bs, AtLeastLink(n) + align + 4, top);
    CutGranted(start, bs, o.blocks, o.p, AlignUp(o.p + 4, align));
    AlignUpIsMultiple(o.p + 4, align);
  }

  lemma {:induction false} AlignedIsCut(start: nat, bs: seq<Block>, align: nat, n: nat, top: nat)
    requires WellFormed(start, bs) && align > 2
    requires Malloc(start, bs, AtLeastLink(n) + align + 4, top).p != 0
    ensures var o := Malloc(start, bs, AtLeastLink(n) + align + 4, top);
      && IsLive(o.blocks, o.p)
      && o.p + align + 3 <= o.blocks[IndexOf(o.blocks, o.p)].End()
      && AlignedAlloc(start, bs, align, n, top) == CutAt(start, o.blocks, o.p, AlignUp(o.p + 4, align))
  {
    hide Malloc;
    MallocGrants(start, bs, AtLeastLink(n) + align + 4, top);
  }

  lemma {:induction false} CutGranted(start: nat, bs: seq<Block>, bs1: seq<Block>, p: nat, a: nat)
    requires WellFormed(start, bs) && WellFormed(start, bs1) && IsLive(bs1, p)
    requires Without(Live(bs1), p) == Live(bs)
    requires p + 4 <= a <= bs1[IndexOf(bs1, p)].End() - 2
    ensures var o := CutAt(start, bs1, p, a);
      && WellFormed(start, o.blocks) && !IsLive(bs, a)
      && IsLive(o.blocks, a) && o.blocks[IndexOf(o.blocks, a)].End() == bs1[IndexOf(bs1, p)].End()
      && Without(Live(o.blocks), a) == Live(bs) && EndOf(start, o.blocks) <= EndOf(start, bs1)
  {
    CutAtCorrect(start, bs1, p, a);
    if IsLive(bs, a) {
      LiveStays(start, bs, a, bs1, p);
    }
  }

  /** The live blocks after the cut and the free of the lead. */
  lemma {:induction false} CutLive(start: nat, bs: seq<Block>, i: nat, a: nat)
    requires WellFormed(start, bs) && i < |bs| && !bs[i].free
    requires bs[i].Payload() + 4 <= a <= bs[i].End() - 2
    ensures var bs1, p := SplitAt(bs, i, a), bs[i].Payload();
      && WellFormed(start, bs1) && IsLive(bs1, p)
      && Without(Live(bs1), p) == Live(bs[..i]) + [bs1[i + 1]] + Live(bs[i + 1..])
  {
    hide WellFormed, Live, IsLive, Without;
    var bs1 := SplitAt(bs, i, a);
    var g := bs1[i + 1];
    SplitKeeps(start, bs, i, a);
    assert Tiled(start, bs1) by { TiledOf(start, bs1); }
    OnlyIndex(start, bs1, i);
    LiveAround(start, bs1, i);
    assert bs1[..i] == bs[..i] && bs1[i + 1..] == [g] + bs[i + 1..];
    LiveCons(g, bs[i + 1..]);
    Assoc(Live(bs[..i]), [g], Live(bs[i + 1..]));
  }

  lemma {:induction false} TiledOf(start: nat, bs: seq<Block>)
    requires WellFormed(start, bs)
    ensures Tiled(start, bs)
  {
  }

  lemma {:induction false} LiveCons(g: Block, r: seq<Block>)
    requires !g.free
    ensures Live([g] + r) == [g] + Live(r)
  {
    assert ([g] + r)[1..] == r;
  }

  lemma {:induction false} CutAlone(start: nat, bs: seq<Block>, i: nat, a: nat)
    requires WellFormed(start, bs) && i < |bs| && !bs[i].free
    requires bs[i].Payload() + 4 <= a <= bs[i].End() - 2
    ensures forall b :: b in Live(bs[..i]) || b in Live(bs[i + 1..]) ==> b.Payload() != a
    ensures !IsLive(bs, a)
  {
    var bs1 := SplitAt(bs, i, a);
    SplitKeeps(start, bs, i, a);
    AloneAt(start, bs1, i + 1);
    assert bs1[..i + 1] == bs[..i] + [bs1[i]] && bs1[i + 2..] == bs[i + 1..];
    LiveAppend(bs[..i], [bs1[i]]);
    if IsLive(bs, a) {
      LivePayloadsDisjoint(start, bs, bs[i], bs[IndexOf(bs, a)]);
    }
  }

  lemma {:induction false} CutAtCorrect(start: nat, bs: seq<Block>, p: nat, a: nat)
    requires WellFormed(start, bs) && IsLive(bs, p)
    requires p + 4 <= a <= bs[IndexOf(bs, p)].End() - 2
    ensures var o := CutAt(start, bs, p, a);
      && WellFormed(start, o.blocks)
      && !IsLive(bs, a) && IsLive(o.blocks, a)
      && o.blocks[IndexOf(o.blocks, a)].End() == bs[IndexOf(bs, p)].End()
      && Without(Live(o.blocks), a) == Without(Live(bs), p) && EndOf(start, o.blocks) <= EndOf(start, bs)
  {
    hide WellFormed, Live, Without, Free, IsLive;
    var i, o := IndexOf(bs, p), CutAt(start, bs, p, a);
    TiledOf(start, bs);
    var bs1, l, r := SplitAt(bs, i, a), Live(bs[..i]), Live(bs[i + 1..]);
    CutLive(start, bs, i, a);
    CutAlone(start, bs, i, a);
    FreeCorrect(start, bs1, p);
    LiveAround(start, bs, i);
    var g := bs1[i + 1];
    WithoutMiddle(l, g, r);
    TiledOf(start, o.blocks);
    assert g in l + [g] + r;
    LiveAt(start, o.blocks, g);
  }

  lemma {:induction false} LiveAt(start: nat, bs: seq<Block>, g: Block)
    requires Tiled(start, bs) && g in Live(bs)
    ensures IsLive(bs, g.Payload()) && bs[IndexOf(bs, g.Payload())] == g
  {
    LiveIsLive(bs, g);
    var j :| 0 <= j < |bs| && bs[j] == g;
    OnlyIndex(start, bs, j);
  }
}
