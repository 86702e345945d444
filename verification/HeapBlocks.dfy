/** The blocks of the AVR heap (lib/avr/malloc.c) as a sequence of tiles.

A block is a two-byte size word followed by its payload. The heap between its start and
the break is a sequence of blocks, each free or live. Everything here is about those
sequences as values; `HeapMemory` says how they lie in memory. */
module HeapBlocks {
  import Arith

  /** `addr` is the address of the size word; the payload is `[addr + 2, addr + 2 + size)`. */
  datatype Block = Block(addr: nat, size: nat, free: bool) {
    function Payload(): nat { addr + 2 }
    function End(): nat { addr + 2 + size }
  }

  /** The address just past the last block. */
  function EndOf(start: nat, bs: seq<Block>): nat {
    if bs == [] then start else bs[|bs| - 1].End()
  }

  /** The blocks lie one after another from `start`, with no hole and no overlap, and each
      payload can hold a free block's link. */
  predicate Tiled(start: nat, bs: seq<Block>)
    decreases bs
  {
    bs == [] || (bs[0].addr == start && bs[0].size >= 2 && Tiled(bs[0].End(), bs[1..]))
  }

  /** Every free block is directly followed by a live one: no two free blocks touch and
      none ends at the break. */
  predicate Packed(bs: seq<Block>) {
    bs == [] || ((bs[0].free ==> |bs| > 1 && !bs[1].free) && Packed(bs[1..]))
  }

  predicate WellFormed(start: nat, bs: seq<Block>) {
    Tiled(start, bs) && Packed(bs)
  }

  /** The live blocks, in address order. */
  function Live(bs: seq<Block>): seq<Block> {
    if bs == [] then [] else (if bs[0].free then [] else [bs[0]]) + Live(bs[1..])
  }

  /** The free blocks' addresses in address order: what the free list must hold. */
  function FreeAddrs(bs: seq<Block>): seq<nat> {
    if bs == [] then [] else (if bs[0].free then [bs[0].addr] else []) + FreeAddrs(bs[1..])
  }

  /** `p` is the payload address of a live block. */
  predicate IsLive(bs: seq<Block>, p: nat) {
    exists b :: b in bs && !b.free && b.Payload() == p
  }

  /** The first free block at or after index `k`, or `|bs|`. */
  function NextFree(bs: seq<Block>, k: nat): (i: nat)
    requires k <= |bs|
    ensures k <= i <= |bs|
    ensures forall j :: k <= j < i ==> !bs[j].free
    ensures i < |bs| ==> bs[i].free
    decreases |bs| - k
  {
    if k == |bs| || bs[k].free then k else NextFree(bs, k + 1)
  }

  /** Where the live block with payload `p` stands. */
  ghost function IndexOf(bs: seq<Block>, p: nat): (i: nat)
    requires IsLive(bs, p)
    ensures i < |bs| && !bs[i].free && bs[i].Payload() == p
  {
    var i :| 0 <= i < |bs| && !bs[i].free && bs[i].Payload() == p;
    i
  }

  // ----- splitting and joining sequences of blocks

  lemma {:induction false} TiledAppend(start: nat, a: seq<Block>, b: seq<Block>)
    ensures Tiled(start, a + b) <==> Tiled(start, a) && Tiled(EndOf(start, a), b)
    decreases a
  {
    if a == [] {
      assert a + b == b;
    } else {
      assert (a + b)[1..] == a[1..] + b;
      TiledAppend(a[0].End(), a[1..], b);
    }
  }

  lemma {:induction false} LiveAppend(a: seq<Block>, b: seq<Block>)
    ensures Live(a + b) == Live(a) + Live(b)
  {
    if a == [] {
      assert a + b == b;
    } else {
      assert (a + b)[1..] == a[1..] + b;
      LiveAppend(a[1..], b);
      Arith.Assoc(if a[0].free then [] else [a[0]], Live(a[1..]), Live(b));
    }
  }

  /** `a` is packed when what follows it starts with a live block. */
  predicate PackedBefore(a: seq<Block>) {
    a == [] || ((a[0].free ==> |a| == 1 || !a[1].free) && PackedBefore(a[1..]))
  }

  lemma {:induction false} PackedAppend(a: seq<Block>, b: seq<Block>)
    ensures Packed(a + b) <==>
              && PackedBefore(a) && Packed(b)
              && (a != [] && a[|a| - 1].free ==> b != [] && !b[0].free)
  {
    if a == [] {
      assert a + b == b;
    } else {
      assert (a + b)[1..] == a[1..] + b;
      PackedAppend(a[1..], b);
    }
  }

  lemma {:induction false} PackedBeforeAppend(a: seq<Block>, b: seq<Block>)
    ensures PackedBefore(a + b) <==>
              && PackedBefore(a) && PackedBefore(b)
              && (a != [] && a[|a| - 1].free && b != [] ==> !b[0].free)
  {
    if a == [] {
      assert a + b == b;
    } else {
      assert (a + b)[1..] == a[1..] + b;
      PackedBeforeAppend(a[1..], b);
    }
  }

  lemma {:induction false} PackedMiddle(l: seq<Block>, x: Block, r: seq<Block>)
    requires !x.free
    ensures Packed(l + [x] + r) <==> PackedBefore(l) && Packed(r)
  {
    assert l + [x] + r == l + ([x] + r);
    PackedAppend(l, [x] + r);
    assert ([x] + r)[1..] == r;
  }

  lemma {:induction false} SplitLive(l: seq<Block>, x: Block, r: seq<Block>)
    ensures Live(l + [x] + r) == Live(l) + (if x.free then [] else [x]) + Live(r)
  {
    LiveAppend(l + [x], r);
    LiveAppend(l, [x]);
    assert Live([x]) == if x.free then [] else [x];
  }

  lemma {:induction false} TiledSplit(start: nat, l: seq<Block>, x: Block, r: seq<Block>)
    ensures Tiled(start, l + [x] + r) <==>
              && Tiled(start, l) && x.addr == EndOf(start, l) && x.size >= 2
              && Tiled(x.End(), r)
  {
    assert l + [x] + r == l + ([x] + r);
    TiledAppend(start, l, [x] + r);
    assert ([x] + r)[1..] == r;
  }

  lemma {:induction false} Cut(bs: seq<Block>, i: nat)
    requires i < |bs|
    ensures bs == bs[..i] + [bs[i]] + bs[i + 1..]
  {
  }

  // ----- what a tiling means

  lemma {:induction false} EndsAfter(start: nat, bs: seq<Block>)
    requires Tiled(start, bs)
    ensures EndOf(start, bs) >= start
    ensures bs != [] ==> EndOf(start, bs) >= start + 4
    decreases bs
  {
    if bs != [] {
      EndsAfter(bs[0].End(), bs[1..]);
    }
  }

  /** Blocks lie inside the heap, and those at different places do not meet. */
  lemma {:induction false} Apart(start: nat, bs: seq<Block>, i: nat, j: nat)
    requires Tiled(start, bs)
    requires i <= j < |bs|
    ensures start <= bs[i].addr
    ensures bs[j].End() <= EndOf(start, bs)
    ensures bs[i].size >= 2
    ensures i < j ==> bs[i].End() <= bs[j].addr
  {
    Cut(bs, j);
    TiledSplit(start, bs[..j], bs[j], bs[j + 1..]);
    EndsAfter(start, bs[..j]);
    EndsAfter(bs[j].End(), bs[j + 1..]);
    if i == j {
      assert EndOf(bs[j].End(), bs[j + 1..]) == EndOf(start, bs);
    } else {
      var l := bs[..j];
      assert l[i] == bs[i];
      Apart(start, l, i, j - 1);
      assert bs[i].End() <= EndOf(start, l);
    }
  }

  /** Distinct live blocks have disjoint payloads below the break. */
  lemma {:induction false} LivePayloadsDisjoint(start: nat, bs: seq<Block>, b: Block, c: Block)
    requires Tiled(start, bs)
    requires b in bs && c in bs && b != c
    ensures b.End() <= c.addr || c.End() <= b.addr
    ensures start <= b.addr && b.End() <= EndOf(start, bs)
  {
    var i :| 0 <= i < |bs| && bs[i] == b;
    var j :| 0 <= j < |bs| && bs[j] == c;
    if i < j {
      Apart(start, bs, i, j);
      Apart(start, bs, i, i);
    } else {
      Apart(start, bs, j, i);
    }
  }
}
