/** The heap as a function of its live blocks.

A well-formed heap holds no more than its live blocks say: the free list is exactly the
gaps between them, each gap one block, and the break is the end of the last of them.
`Layout` rebuilds the whole heap from the live blocks alone, and is the reference that
`free` is measured against. */
module HeapLayout {
  import opened HeapBlocks

  /** Live blocks in order from `start`, each gap either empty or room for a free block. */
  predicate Spaced(start: nat, live: seq<Block>)
    decreases live
  {
    live == [] ||
    (var b := live[0];
     && !b.free && b.size >= 2
     && (b.addr == start || b.addr >= start + 4)
     && Spaced(b.End(), live[1..]))
  }

  /** The gap `[from, to)` as a free block, or nothing. */
  function Gap(from: nat, to: nat): seq<Block> {
    if to < from + 4 then [] else [Block(from, to - from - 2, true)]
  }

  function Layout(start: nat, live: seq<Block>): seq<Block>
    decreases live
  {
    if live == [] then [] else
    Gap(start, live[0].addr) + [live[0]] + Layout(live[0].End(), live[1..])
  }

  /** The live blocks without the one whose payload is `p`. */
  function Without(live: seq<Block>, p: nat): seq<Block> {
    if live == [] then []
    else if live[0].Payload() == p then Without(live[1..], p)
    else [live[0]] + Without(live[1..], p)
  }

  lemma {:induction false} WithoutAppend(a: seq<Block>, b: seq<Block>, p: nat)
    ensures Without(a + b, p) == Without(a, p) + Without(b, p)
  {
    if a == [] {
      assert a + b == b;
    } else {
      assert (a + b)[1..] == a[1..] + b;
      WithoutAppend(a[1..], b, p);
    }
  }

  lemma {:induction false} WithoutNone(a: seq<Block>, p: nat)
    requires forall b :: b in a ==> b.Payload() != p
    ensures Without(a, p) == a
  {
    if a != [] {
      WithoutNone(a[1..], p);
    }
  }

  lemma {:induction false} LiveIsLive(bs: seq<Block>, b: Block)
    ensures b in Live(bs) <==> b in bs && !b.free
  {
    if bs != [] {
      LiveIsLive(bs[1..], b);
    }
  }

  // ----- Layout and the well-formed heaps are the same thing

  lemma {:induction false} LayoutOfHeap(start: nat, bs: seq<Block>)
    requires WellFormed(start, bs)
    ensures Spaced(start, Live(bs))
    ensures Layout(start, Live(bs)) == bs
    decreases bs
  {
    if bs == [] {
    } else if !bs[0].free {
      LayoutOfHeap(bs[0].End(), bs[1..]);
      assert Live(bs)[1..] == Live(bs[1..]);
      assert Layout(start, Live(bs)) == [bs[0]] + bs[1..];
    } else {
      var b, rest := bs[1], bs[1..][1..];
      assert WellFormed(bs[0].End(), bs[1..]) && bs[1..][0] == b;
      LayoutOfHeap(b.End(), rest);
      assert Live(bs) == [b] + Live(rest);
      assert Live(bs)[1..] == Live(rest);
      assert Gap(start, b.addr) == [bs[0]];
      assert bs == [bs[0]] + [b] + rest;
    }
  }

  lemma {:induction false} LayoutIsHeap(start: nat, live: seq<Block>)
    requires Spaced(start, live)
    ensures WellFormed(start, Layout(start, live))
    ensures Live(Layout(start, live)) == live
    decreases live
  {
    if live != [] {
      var b, g, rest := live[0], Gap(start, live[0].addr), Layout(live[0].End(), live[1..]);
      LayoutIsHeap(b.End(), live[1..]);
      SplitLive(g, b, rest);
      PackedMiddle(g, b, rest);
      TiledSplit(start, g, b, rest);
      assert live == [b] + live[1..];
    }
  }

  /** Two well-formed heaps with the same live blocks are the same heap: same free blocks,
      same break. */
  lemma {:induction false} SameLiveSameHeap(start: nat, a: seq<Block>, b: seq<Block>)
    requires WellFormed(start, a) && WellFormed(start, b)
    requires Live(a) == Live(b)
    ensures a == b
  {
    LayoutOfHeap(start, a);
    LayoutOfHeap(start, b);
  }

  /** Each free block is followed by a live one, so there are no more free blocks than
      live ones: this bounds every walk of the free list. */
  lemma {:induction false} NoMoreFreeThanLive(bs: seq<Block>)
    requires Packed(bs)
    ensures |FreeAddrs(bs)| <= |Live(bs)|
    ensures |FreeAddrs(bs)| + |Live(bs)| == |bs|
  {
    if bs == [] {
    } else if !bs[0].free {
      NoMoreFreeThanLive(bs[1..]);
    } else {
      NoMoreFreeThanLive(bs[1..][1..]);
    }
  }

  /** The free list is in strictly ascending address order. */
  lemma {:induction false} FreeListAscends(start: nat, bs: seq<Block>)
    requires Tiled(start, bs)
    ensures forall i :: 0 <= i < |FreeAddrs(bs)| ==> start <= FreeAddrs(bs)[i]
    ensures forall i, j :: 0 <= i < j < |FreeAddrs(bs)| ==> FreeAddrs(bs)[i] < FreeAddrs(bs)[j]
    decreases bs
  {
    if bs != [] {
      FreeListAscends(bs[0].End(), bs[1..]);
    }
  }
}
