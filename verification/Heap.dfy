/** The AVR heap of lib/avr/malloc.c: the break, the free list's head and the 64 KB of data
memory that both the blocks and the list's links live in. Addresses and sizes are 16-bit
numbers, 0 is NULL, and sums are reduced modulo 2^16 where the code adds 16-bit values. */
module AvrHeap {
  import opened HeapBlocks
  import opened HeapLayout
  import opened HeapMachine
  import opened HeapMemory
  import opened Bytes
  import opened HeapMoves
  import opened HeapWalk
  import opened HeapReturns
  import opened Bits
  import opened Arith

  class Heap {
    const start: nat                // __malloc_heap_start
    const mem: array<byte>          // the data space
    var brkval: nat                 // __brkval, 0 until the first malloc
    var flp: nat                    // __flp
    var heapEnd: nat                // __malloc_heap_end, 0 when a program does not set it
    var margin: nat                 // __malloc_margin
    ghost var blocks: seq<Block>    // the blocks from start to the break

    function Brk(): nat
      reads this
    {
      if brkval == 0 then start else brkval
    }

    /** The limit a call reads: a fixed one, or the stack pointer less the margin. */
    function Top(sp: nat): nat
      reads this
      requires heapEnd < 0x10000
    {
      if heapEnd != 0 then heapEnd else (sp - margin) % 0x10000
    }

    /** The blocks tile the memory from the start to the break, their size words and links
        are in memory, and the list's head is the first free one. */
    ghost predicate Valid()
      reads this, mem
    {
      && mem.Length == SPACE && 2 <= start < SPACE
      && heapEnd < SPACE && margin < SPACE
      && WellFormed(start, blocks)
      && Held(mem[..], start, blocks, 0)
      && flp == Head(blocks, 0)
      && Brk() == EndOf(start, blocks) < SPACE
    }

    constructor (start: nat, mem: array<byte>)
      requires mem.Length == SPACE && 2 <= start < SPACE
      ensures Valid() && blocks == [] && this.start == start && this.mem == mem
      ensures margin == 32 && heapEnd == 0
    {
      this.start, this.mem := start, mem;
      brkval, flp, heapEnd, margin, blocks := 0, 0, 0, 32, [];
    }

    function GetWord(a: nat): (w: nat)
      reads this, mem
      requires a + 2 <= mem.Length
      ensures w == Word(mem[..], a)
    {
      var lo: int, hi: int := mem[a], mem[a + 1];
      lo + 256 * hi
    }

    method SetWord(a: nat, v: nat)
      requires a + 2 <= mem.Length && v < 0x10000
      modifies mem
      ensures mem[..] == PutWord(old(mem[..]), a, v)
    {
      mem[a], mem[a + 1] := v % 256, v / 256;
    }

    /** `*pp = v`: the link of the block at `prev`, or the list's head when there is none. */
    method SetNext(prev: nat, v: nat)
      requires mem.Length == SPACE && prev + 4 <= SPACE && v < 0x10000
      modifies mem, this`flp
      ensures mem[..] == SetLink(old(mem[..]), prev, v)
      ensures flp == if prev == 0 then v else old(flp)
    {
      if prev == 0 {
        flp := v;
      } else {
        SetWord(prev + 2, v);
      }
    }

    /** Lines 51 to 62: the free block `b`, `j`-th of the blocks, is given out. */
    method Take(prev: nat, b: nat, n: nat, ghost j: nat) returns (p: nat)
      requires Valid() && 2 <= n && j < |blocks| && blocks[j].free && blocks[j].size >= n
      requires b == blocks[j].addr && prev == LastFree(blocks[..j])
      requires mem.Length == SPACE && b + 4 <= SPACE
      modifies mem, this`flp, this`blocks
      ensures Valid() && p == b + 2
      ensures blocks == old(blocks[..j] + Carve(blocks[j], n) + blocks[j + 1..])
      ensures Untouched(old(mem[..]), mem[..], old(blocks))
    {
      hide Held, Head, WellFormed, Live, Word, PutWord, SetLink, LastFree, SameOn, Untouched, EndOf, SplitWords;
      ghost var m, x := mem[..], blocks[j];
      HeldCut(m, start, blocks, j, 0);
      Bound(j);
      InPlace(start, blocks, j, n);
      if GetWord(b) >= (n + 4) % 0x10000 {
        TakeSplit(m, start, blocks, j, n);
        CutBlock(b, n, x);
        SetNext(prev, b + 2 + n);
      } else {
        TakeWhole(m, start, blocks, j);
        SetNext(prev, GetWord(b + 2));
      }
      blocks := blocks[..j] + Carve(x, n) + blocks[j + 1..];
      p := b + 2;
    }

    /** Lines 53 to 57: the tail's size and link, and the head's size. */
    method CutBlock(b: nat, n: nat, ghost x: Block)
      requires mem.Length == SPACE && n >= 2 && x.addr == b && x.size >= n + 4 && x.End() <= SPACE
      requires x.size == Word(mem[..], b)
      modifies mem
      ensures mem[..] == SplitWords(old(mem[..]), x, n)
    {
      hide Word, PutWord;
      var t := b + 2 + n;
      SetWord(t, GetWord(b) - n - 2);
      SetWord(t + 2, GetWord(b + 2));
      SetWord(b, n);
    }

    /** A block and four bytes more fit a 16-bit size: the heap starts above address 1. */
    lemma {:induction false} Bound(j: nat)
      requires Valid() && j < |blocks|
      ensures blocks[j].size + 4 < 0x10000 && blocks[j].End() < SPACE
    {
      Apart(start, blocks, j, j);
    }

    /** Where malloc's room check is sound: the request and its size word fit 16 bits, or the
        break has reached its limit already. */
    predicate Fits(n: nat, sp: nat)
      reads this
      requires heapEnd < 0x10000
    {
      n + 2 < 0x10000 || Brk() >= Top(sp)
    }

    /** Memory up to `e` is below the limit: the fixed one, or the stack pointer less the margin
        (of 16 bits, so that a margin above the stack pointer counts from the top). */
    ghost predicate UpTo(e: nat, sp: nat)
      reads this`heapEnd, this`margin
    {
      if heapEnd != 0 then e <= heapEnd
      else if margin <= sp then e + margin <= sp
      else e + margin <= sp + 0x10000
    }

    lemma {:induction false} TopIsLimit(e: nat, sp: nat)
      requires heapEnd < SPACE && margin < SPACE && sp < SPACE
      ensures Top(sp) < SPACE && (e <= Top(sp) <==> UpTo(e, sp))
    {
    }

    /** The limits of a step of the machine, for a request of `n` bytes. */
    lemma {:induction false} MallocLimits(bs: seq<Block>, n: nat, sp: nat)
      requires WellFormed(start, bs) && heapEnd < SPACE && margin < SPACE && sp < SPACE
      ensures var o, m := HeapMachine.Malloc(start, bs, n, Top(sp)), if n < 2 then 2 else n;
        && (o.p == 0 <==> NoneFits(bs, m) && !UpTo(EndOf(start, bs) + m + 2, sp))
        && (EndOf(start, o.blocks) <= EndOf(start, bs) || UpTo(EndOf(start, o.blocks), sp))
    {
      hide HeapMachine.Malloc, WellFormed, IsLive, Live, UpTo;
      var o, m := HeapMachine.Malloc(start, bs, n, Top(sp)), if n < 2 then 2 else n;
      MallocCorrect(start, bs, n, Top(sp));
      TopIsLimit(EndOf(start, bs) + m + 2, sp);
      TopIsLimit(EndOf(start, o.blocks), sp);
    }

    lemma {:induction false} ReallocLimits(bs: seq<Block>, p: nat, n: nat, sp: nat)
      requires WellFormed(start, bs) && IsLive(bs, p) && heapEnd < SPACE && margin < SPACE && sp < SPACE
      ensures var o := HeapMachine.Realloc(start, bs, p, n, Top(sp));
        && (n > bs[IndexOf(bs, p)].size ==>
              n > 2 && (o.p == 0 <==> NoneFits(bs, n) && !UpTo(EndOf(start, bs) + n + 2, sp)))
        && (EndOf(start, o.blocks) <= EndOf(start, bs) || UpTo(EndOf(start, o.blocks), sp))
    {
      hide HeapMachine.Realloc, HeapMachine.Malloc, Tiled, Packed, IsLive, Live, UpTo;
      Apart(start, bs, IndexOf(bs, p), IndexOf(bs, p));
      ReallocCorrect(start, bs, p, n, Top(sp));
      TopIsLimit(EndOf(start, bs) + n + 2, sp);
      TopIsLimit(EndOf(start, HeapMachine.Realloc(start, bs, p, n, Top(sp)).blocks), sp);
    }

    lemma {:induction false} AlignedLimits(bs: seq<Block>, align: nat, n: nat, sp: nat)
      requires WellFormed(start, bs) && heapEnd < SPACE && margin < SPACE && sp < SPACE
      ensures var o, m := HeapMachine.AlignedAlloc(start, bs, align, n, Top(sp)), Padded(align, n);
        && (o.p == 0 <==> NoneFits(bs, m) && !UpTo(EndOf(start, bs) + m + 2, sp))
        && (EndOf(start, o.blocks) <= EndOf(start, bs) || UpTo(EndOf(start, o.blocks), sp))
    {
      hide HeapMachine.Malloc, HeapMachine.AlignedAlloc, WellFormed, IsLive, Live, UpTo;
      var o, m := HeapMachine.AlignedAlloc(start, bs, align, n, Top(sp)), Padded(align, n);
      MallocLimits(bs, m, sp);
      if align <= 2 {
        MallocLimits(bs, n, sp);
        AlignedAllocPlain(start, bs, align, n, Top(sp));
      } else {
        AlignedAllocFails(start, bs, align, n, Top(sp));
        if o.p != 0 {
          AlignedAllocGrants(start, bs, align, n, Top(sp));
        }
      }
      TopIsLimit(EndOf(start, o.blocks), sp);
    }

    /** What aligned_alloc asks malloc for. */
    static function Padded(align: nat, n: nat): (m: nat)
      ensures m == (if n < 2 then 2 else n) + (if align <= 2 then 0 else align + 4)
    {
      if align <= 2 then AtLeastLink(n) else AtLeastLink(n) + align + 4
    }

    /** malloc. Wherever `Fits`, it takes exactly the step of `HeapMachine.Malloc` and touches no
        live payload byte. Otherwise the sum in the room check wraps and the call does what the
        last clause says; `BreakCheckExact` and `WrappedBlockIsLost` say what that costs. */
    method Malloc(request: nat, sp: nat) returns (p: nat)
      requires Valid() && request < 0x10000 && sp < 0x10000
      modifies mem, this`brkval, this`flp, this`blocks
      ensures old(Fits(request, sp)) ==>
        && Valid()
        && Outcome(blocks, p) == HeapMachine.Malloc(start, old(blocks), request, old(Top(sp)))
        && Untouched(old(mem[..]), mem[..], old(blocks))
      ensures !old(Fits(request, sp)) ==>
        && p == (old(Brk()) + 2) % 0x10000 && old(Brk()) + 2 + request > SPACE
        && brkval == old(Brk()) + request + 2 - 0x10000
        && mem[..] == PutWord(old(mem[..]), old(Brk()), request)
        && flp == old(flp) && blocks == old(blocks)
      ensures request + 2 < 0x10000 ==>
        var m := if request < 2 then 2 else request;
        && (p == 0 <==> NoneFits(old(blocks), m) && !UpTo(old(Brk()) + m + 2, sp))
        && (Brk() <= old(Brk()) || UpTo(Brk(), sp))
      ensures request + 2 >= 0x10000 ==>
        if UpTo(old(Brk()) + 1, sp) then brkval == old(Brk()) + request + 2 - 0x10000
        else p == 0 && Brk() == old(Brk()) && blocks == old(blocks)
      ensures request + 2 < 0x10000 && heapEnd != 0 ==>
        var m := if request < 2 then 2 else request;
        && (p == 0 <==> NoneFits(old(blocks), m) && old(Brk()) + m + 2 > heapEnd)
        && (Brk() <= old(Brk()) || Brk() <= heapEnd)
      ensures request + 2 < 0x10000 && heapEnd == 0 && margin <= sp ==>
        var m := if request < 2 then 2 else request;
        && (p == 0 <==> NoneFits(old(blocks), m) && old(Brk()) + m + 2 + margin > sp)
        && (Brk() <= old(Brk()) || Brk() + margin <= sp)
    {
      hide Held, Head, WellFormed, EndOf, Live, Word, PutWord, LastFree, Carve, HeapMachine.Malloc, SameOn, Untouched,
        Top;
      MallocLimits(blocks, request, sp);
      TopIsLimit(Brk() + 1, sp);
      NoneSoBig(request, sp);
      var n := request;
      if n < 2 {
        n := 2;
      }
      var prev, b;
      ghost var j;
      prev, b, j := FindFit(n);
      if b != 0 {
        Bound(j);
        MallocAt(start, blocks, request, Top(sp), j);
        p := Take(prev, b, n, j);
      } else {
        MallocAbove(start, blocks, request, Top(sp));
        MallocAbove(start, blocks, n, Top(sp));
        p := Extend(n, Top(sp));
      }
    }

    /** Lines 47 to 50: the walk to the first free block of at least `n` bytes, the `j`-th of the
        blocks, and the free one before it; NULL when there is none. */
    method FindFit(n: nat) returns (prev: nat, b: nat, ghost j: nat)
      requires Valid()
      ensures b == 0 <==> NoneFits(blocks, n)
      ensures b == 0 ==> forall k :: 0 <= k < |blocks| && blocks[k].free ==> blocks[k].size < n
      ensures b != 0 ==>
        && j < |blocks| && blocks[j].free && blocks[j].size >= n && b == blocks[j].addr && b + 4 <= SPACE
        && prev == LastFree(blocks[..j])
        && forall k :: 0 <= k < j && blocks[k].free ==> blocks[k].size < n
    {
      hide Held, Head, Tiled, Packed, Live, Word, PutWord, LastFree, SameOn;
      prev, b := 0, flp;
      ghost var m := mem[..];
      j := NextFree(blocks, 0);
      WalkStart(blocks);
      AtBlock(m, j);
      while b != 0 && GetWord(b) < n
        invariant j <= |blocks| && m == mem[..] && b + 4 <= SPACE
        invariant b == AddrAt(blocks, j) && prev == LastFree(blocks[..j])
        invariant j < |blocks| ==> blocks[j].free && GetWord(b) == blocks[j].size
        invariant forall k :: 0 <= k < j && blocks[k].free ==> blocks[k].size < n
        decreases |blocks| - j
        modifies {}
      {
        NoneLeft(j);
        WalkStep(m, start, blocks, j);
        prev, b := b, GetWord(b + 2);
        j := NextFree(blocks, j + 1);
        AtBlock(m, j);
      }
      NoneLeft(j);
    }

    /** A request whose size word does not fit 16 bits is larger than any block. */
    lemma {:induction false} NoneSoBig(n: nat, sp: nat)
      requires Valid()
      ensures n + 2 >= 0x10000 ==> NoneFits(blocks, n)
      ensures n + 2 >= 0x10000 && !UpTo(Brk() + 1, sp) ==> !UpTo(Brk() + n + 2, sp)
    {
      if n + 2 >= 0x10000 {
        forall b | b in blocks && b.free
          ensures b.size < n
        {
          var j :| 0 <= j < |blocks| && blocks[j] == b;
          Bound(j);
        }
      }
    }

    /** What the walk reads at the block it stands at. */
    lemma {:induction false} AtBlock(m: seq<byte>, j: nat)
      requires Valid() && m == mem[..] && j <= |blocks| && (j < |blocks| ==> blocks[j].free)
      ensures AddrAt(blocks, j) + 4 <= SPACE
      ensures j < |blocks| ==> Word(m, blocks[j].addr) == blocks[j].size
    {
      if j < |blocks| {
        WalkStep(m, start, blocks, j);
      }
    }

    /** A walk whose pointer is NULL is at the end of the blocks. */
    lemma {:induction false} NoneLeft(j: nat)
      requires Valid() && j <= |blocks|
      ensures AddrAt(blocks, j) == 0 <==> j == |blocks|
    {
      if j < |blocks| {
        Apart(start, blocks, j, j);
      }
    }

    /** Lines 65 to 74: a block from the break. */
    method Extend(n: nat, top: nat) returns (p: nat)
      requires Valid() && 2 <= n < 0x10000 && top < 0x10000
      requires forall k :: 0 <= k < |blocks| && blocks[k].free ==> blocks[k].size < n
      modifies mem, this`brkval, this`blocks
      ensures n + 2 < 0x10000 || old(Brk()) >= top ==>
        && Valid()
        && Outcome(blocks, p) == HeapMachine.Malloc(start, old(blocks), n, top)
        && Untouched(old(mem[..]), mem[..], old(blocks))
      ensures n + 2 >= 0x10000 && old(Brk()) < top ==>
        && p == (old(Brk()) + 2) % 0x10000 && old(Brk()) + 2 + n > SPACE
        && brkval == old(Brk()) + n + 2 - 0x10000
        && mem[..] == PutWord(old(mem[..]), old(Brk()), n)
        && blocks == old(blocks)
    {
      hide Held, Head, WellFormed, EndOf, Untouched, Word, PutWord, HeapMachine.Malloc;
      MallocAbove(start, blocks, n, top);
      UntouchedSelf(mem[..], blocks);
      if brkval == 0 {
        brkval := start;
      }
      var size := (n + 2) % 0x10000;
      assert size == if n + 2 < 0x10000 then n + 2 else n + 2 - 0x10000;
      if brkval >= top || top - brkval < size {
        return 0;
      }
      if n + 2 < 0x10000 {
        TakeFromBreak(mem[..], start, blocks, n);
        AtBreak(start, blocks, n);
        LastIsEnd(start, blocks + [Block(brkval, n, false)]);
        blocks := blocks + [Block(brkval, n, false)];
      }
      SetWord(brkval, n);
      p := (brkval + 2) % 0x10000;
      assert brkval + size <= top;
      brkval := (brkval + size) % 0x10000;
    }

    /** free. The heap is then the layout of what is still live: the block joined with what
        touches it, or given back to the break with a free block that ends there. */
    method Free(p: nat)
      requires Valid() && (p == 0 || IsLive(blocks, p))
      modifies mem, this`brkval, this`flp, this`blocks
      ensures Valid()
      ensures blocks == if p == 0 then old(blocks) else HeapMachine.Free(start, old(blocks), p)
      ensures UntouchedBut(old(mem[..]), mem[..], old(blocks), p)
    {
      hide Held, Head, Tiled, Packed, Live, Word, IsLive, HeapMachine.Free;
      if p == 0 {
        return;
      }
      ghost var i := IndexOf(blocks, p);
      HeldCut(mem[..], start, blocks, i, 0);
      var b := p - 2;
      LastEnds(i);
      if p + GetWord(b) == brkval {
        FreeLast(b);
      } else {
        FreeMiddle(b, i);
      }
    }

    /** A live block ends at the break exactly when it is the last. */
    lemma {:induction false} LastEnds(i: nat)
      requires Valid() && i < |blocks|
      ensures brkval != 0
      ensures blocks[i].End() == brkval <==> i == |blocks| - 1
    {
      EndsAfter(start, blocks);
      if i < |blocks| - 1 {
        Apart(start, blocks, i, |blocks| - 1);
        Apart(start, blocks, |blocks| - 1, |blocks| - 1);
      }
    }

    /** Lines 84 to 94: the last block goes back to the break. */
    method FreeLast(b: nat)
      requires Valid() && blocks != [] && !blocks[|blocks| - 1].free && b == blocks[|blocks| - 1].addr
      modifies mem, this`brkval, this`flp, this`blocks
      ensures Valid()
      ensures blocks == HeapMachine.Free(start, old(blocks), b + 2)
      ensures UntouchedBut(old(mem[..]), mem[..], old(blocks), b + 2)
    {
      hide Held, Head, Tiled, Packed, Live, Word, PutWord, LastFree, HeapMachine.Free, SameOn, Untouched,
        UntouchedBut, Shrunk;
      ghost var m, l: seq<Block>, x := mem[..], blocks[..|blocks| - 1], blocks[|blocks| - 1];
      assert blocks == l + [x];
      LastGone(m, start, l, x);
      ShrunkIsFree(start, l, x);
      brkval := b;
      var prev: nat, cur: nat := 0, flp;
      ghost var j: nat := NextFree(l, 0);
      WalkStart(l);
      if j < |l| {
        WalkStep(m, start, l, j);
      }
      while cur != 0 && GetWord(cur + 2) != 0
        invariant j <= |l| && (j < |l| ==> l[j].free) && (j == |l| ==> NextFree(l, 0) == |l|)
        invariant cur == AddrAt(l, j) && prev == LastFree(l[..j]) && cur + 4 <= SPACE
        invariant mem[..] == m && (j < |l| ==> cur != 0)
        decreases |l| - j
        modifies {}
      {
        WalkStep(m, start, l, j);
        prev, cur := cur, GetWord(cur + 2);
        j := NextFree(l, j + 1);
        if j < |l| {
          WalkStep(m, start, l, j);
        }
      }
      FreeTail(m, start, l, j);
      if cur != 0 && cur + 2 + GetWord(cur) == brkval {
        brkval := cur;
        SetNext(prev, 0);
      }
      UntouchedPrefix(m, mem[..], l, x);
      blocks := Shrunk(l);
    }

    /** Lines 96 to 114: into the list in address order, joined with what touches it. */
    method FreeMiddle(b: nat, ghost i: nat)
      requires Valid() && i + 1 < |blocks| && !blocks[i].free && b == blocks[i].addr
      modifies mem, this`flp, this`blocks
      ensures Valid()
      ensures blocks == HeapMachine.Free(start, old(blocks), b + 2)
      ensures UntouchedBut(old(mem[..]), mem[..], old(blocks), b + 2)
    {
      hide Held, Head, Tiled, Packed, Live, Word, PutWord, LastFree, HeapMachine.Free;
      ghost var m := mem[..];
      var prev: nat, q: nat := 0, flp;
      ghost var j: nat := NextFree(blocks, 0);
      WalkStart(blocks);
      AtBlock(m, j);
      while q != 0 && q < b
        invariant j <= NextFree(blocks, i) && m == mem[..]
        invariant q == AddrAt(blocks, j) && prev == LastFree(blocks[..j])
        invariant j < |blocks| ==> blocks[j].free
        decreases |blocks| - j
        modifies {}
      {
        NoneLeft(j);
        WalkStep(m, start, blocks, j);
        Before(i, j);
        prev, q := q, GetWord(q + 2);
        NextFreeMonotone(blocks, j + 1, i);
        j := NextFree(blocks, j + 1);
      }
      NoneLeft(j);
      Before(i, j);
      WalkEnd(blocks, i, j);
      Insert(b, prev, q, i);
    }

    /** A free block comes before block `i` exactly when its address is lower. */
    lemma {:induction false} Before(i: nat, j: nat)
      requires Valid() && i < |blocks| && j <= |blocks| && (j < |blocks| ==> blocks[j].free) && !blocks[i].free
      ensures AddrAt(blocks, j) != 0 && AddrAt(blocks, j) < blocks[i].addr <==> j < i
    {
      if j < i {
        Apart(start, blocks, j, i);
      } else if j < |blocks| {
        Apart(start, blocks, i, j);
      }
    }

    /** Lines 102 to 114: `prev` and `q` are the free neighbours in the list. */
    method Insert(b: nat, prev: nat, q: nat, ghost i: nat)
      requires Valid() && i + 1 < |blocks| && !blocks[i].free && b == blocks[i].addr
      requires prev == LastFree(blocks[..i]) && q == Head(blocks[i + 1..], 0)
      modifies mem, this`flp, this`blocks
      ensures Valid()
      ensures blocks == HeapMachine.Free(start, old(blocks), b + 2)
      ensures UntouchedBut(old(mem[..]), mem[..], old(blocks), b + 2)
    {
      hide Held, Head, Tiled, Packed, Live, Word, PutWord, LastFree, HeapMachine.Free, GivenBack, SetLink,
        UntouchedBut, PrevWords;
      ghost var m, l, x, r := mem[..], blocks[..i], blocks[i], blocks[i + 1..];
      HeldCut(m, start, blocks, i, 0);
      Bound(i);
      NextJoins(m, x, r);
      PrevTouches(m, start, blocks, i);
      Cut(blocks, i);
      GivenBackIsFree(start, l, x, r);
      ghost var joins := b + 2 + GetWord(b) == q && q != 0;
      assert joins == r[0].free;
      LinkNext(b, q);
      ghost var m1 := mem[..];
      NextBytes(m, b, x.size, q, joins);
      if prev != 0 {
        SameWord(m, m1, 0, b, prev);
      }
      if i > 0 && blocks[i - 1].free {
        JoinedPrev(m, start, blocks, i);
      } else {
        LinkedIn(m, start, blocks, i);
      }
      LinkPrev(b, prev);
      blocks := GivenBack(l, x, r);
    }

    /** Lines 102 to 106. */
    method LinkNext(b: nat, q: nat)
      requires mem.Length == SPACE && b + 4 <= SPACE && q < 0x10000
      requires b + 2 + GetWord(b) == q != 0 ==> b + 4 <= q && q + 4 <= SPACE && GetWord(b) + 2 + GetWord(q) < 0x10000
      modifies mem
      ensures var m, joins := old(mem[..]), old(b + 2 + GetWord(b) == q && q != 0);
        mem[..] == NextWords(m, b, Word(m, b), q, joins)
    {
      hide Word, PutWord;
      ghost var m := mem[..];
      SetWord(b + 2, q);
      SameWord(m, mem[..], 0, b + 2, b);
      if q != 0 && b + 2 + GetWord(b) == q {
        SameWord(m, mem[..], b + 4, SPACE, q);
        SetWord(b, GetWord(b) + 2 + GetWord(q));
        SameWord(m, mem[..], b + 4, SPACE, q + 2);
        SetWord(b + 2, GetWord(q + 2));
      }
    }

    /** Lines 107 to 114. */
    method LinkPrev(b: nat, prev: nat)
      requires mem.Length == SPACE && b + 4 <= SPACE && prev + 4 <= SPACE
      requires prev != 0 && prev + 2 + GetWord(prev) == b ==> prev + 4 <= b && GetWord(prev) + 2 + GetWord(b) < 0x10000
      modifies mem, this`flp
      ensures var m, joins := old(mem[..]), old(prev != 0 && prev + 2 + GetWord(prev) == b);
        && mem[..] == (if joins then PrevWords(m, prev, b) else SetLink(m, prev, b))
        && flp == (if prev == 0 then b else old(flp))
    {
      hide Word, PutWord;
      ghost var m := mem[..];
      if prev != 0 && prev + 2 + GetWord(prev) == b {
        SetWord(prev, GetWord(prev) + 2 + GetWord(b));
        SameWord(m, mem[..], prev + 2, SPACE, b + 2);
        SetWord(prev + 2, GetWord(b + 2));
      } else {
        SetNext(prev, b);
      }
    }

    // ----- calloc, realloc and aligned_alloc

    /** A live block stands where its payload address says. */
    lemma {:induction false} At(p: nat)
      requires Valid() && IsLive(blocks, p)
      ensures var b := blocks[IndexOf(blocks, p)];
        && b.End() < SPACE && start + 2 <= p && Word(mem[..], b.addr) == b.size && b in blocks
        && forall c :: c in blocks && c != b ==> c.Payload() != p
    {
      var i := IndexOf(blocks, p);
      HeldCut(mem[..], start, blocks, i, 0);
      Bound(i);
      forall c | c in blocks && c != blocks[i]
        ensures c.Payload() != p
      {
        LivePayloadsDisjoint(start, blocks, blocks[i], c);
      }
    }

    /** memset to zero of `len` bytes from `p`; addresses are 16 bits. */
    static method Memset(mem: array<byte>, p: nat, len: nat)
      requires mem.Length == SPACE && p < SPACE && len < SPACE
      modifies mem
      ensures forall a :: 0 <= a < SPACE ==> mem[a] == if InRun(a, p, len) then 0 else old(mem[a])
    {
      for k := 0 to len
        invariant forall a :: 0 <= a < SPACE ==> mem[a] == if InRun(a, p, k) then 0 else old(mem[a])
      {
        mem[if p + k < SPACE then p + k else p + k - SPACE] := 0;
      }
    }

    /** memset of the first `len` bytes of a live block to zero. */
    method Clear(p: nat, len: nat)
      requires Valid() && IsLive(blocks, p) && len <= blocks[IndexOf(blocks, p)].size
      modifies mem
      ensures Valid()
      ensures p + len <= SPACE && forall a :: p <= a < p + len ==> mem[a] == 0
      ensures UntouchedBut(old(mem[..]), mem[..], blocks, p)
    {
      hide Held, Head, Tiled, Packed, IsLive;
      ghost var m, i := mem[..], IndexOf(blocks, p);
      At(p);
      Memset(mem, p, len);
      PayloadWrite(m, mem[..], start, blocks, i);
    }

    /** calloc: NULL when the product does not fit 16 bits, else malloc's block with the
        requested bytes zero. A product that malloc's own sum wraps is granted, and the memset
        then clears the data space all round, as the last clause says. */
    method Calloc(n: nat, size: nat, sp: nat) returns (p: nat)
      requires Valid() && n < 0x10000 && size < 0x10000 && sp < 0x10000
      modifies mem, this`brkval, this`flp, this`blocks
      ensures old(Fits(Product(n, size), sp)) || Product(n, size) > 0xffff ==>
        && Valid()
        && Outcome(blocks, p) == HeapMachine.Calloc(start, old(blocks), n, size, old(Top(sp)))
        && (p != 0 ==> p + Product(n, size) <= SPACE && forall a :: p <= a < p + Product(n, size) ==> mem[a] == 0)
        && Untouched(old(mem[..]), mem[..], old(blocks))
      ensures !old(Fits(Product(n, size), sp)) && Product(n, size) <= 0xffff ==>
        p == (old(Brk()) + 2) % 0x10000 && (p != 0 ==> Overrun(old(mem[..]), p, Product(n, size)))
      ensures Product(n, size) > 0xffff ==> p == 0 && blocks == old(blocks) && Brk() == old(Brk())
      ensures Product(n, size) + 2 < 0x10000 ==>
        var m := if Product(n, size) < 2 then 2 else Product(n, size);
        && (p == 0 <==> NoneFits(old(blocks), m) && !UpTo(old(Brk()) + m + 2, sp))
        && (Brk() <= old(Brk()) || UpTo(Brk(), sp))
    {
      hide Held, Head, Tiled, Packed, IsLive, HeapMachine.Malloc, Overrun, UpTo;
      if size != 0 && n > 0xffff / size {
        Overflows(n, size);
        return 0;
      }
      NoOverflow(n, size);
      p := Zeroed(n * size, sp);
    }

    /** Lines 123 to 126. */
    method Zeroed(n: nat, sp: nat) returns (p: nat)
      requires Valid() && n < 0x10000 && sp < 0x10000
      modifies mem, this`brkval, this`flp, this`blocks
      ensures old(Fits(n, sp)) ==>
        && Valid()
        && Outcome(blocks, p) == HeapMachine.Malloc(start, old(blocks), n, old(Top(sp)))
        && (p != 0 ==> p + n <= SPACE && forall a :: p <= a < p + n ==> mem[a] == 0)
        && Untouched(old(mem[..]), mem[..], old(blocks))
      ensures !old(Fits(n, sp)) ==> p == (old(Brk()) + 2) % 0x10000 && (p != 0 ==> Overrun(old(mem[..]), p, n))
      ensures n + 2 < 0x10000 ==>
        var m := if n < 2 then 2 else n;
        && (p == 0 <==> NoneFits(old(blocks), m) && !UpTo(old(Brk()) + m + 2, sp))
        && (Brk() <= old(Brk()) || UpTo(Brk(), sp))
    {
      hide Held, Head, Tiled, Packed, IsLive, HeapMachine.Malloc, Word, PutWord, UpTo;
      ghost var bs, top := blocks, Top(sp);
      var fits := Fits(n, sp);
      p := Malloc(n, sp);
      if p != 0 {
        if fits {
          MallocCorrect(start, bs, n, top);
          Clear(p, n);
          KeptLive(bs, p);
        } else {
          Memset(mem, p, n);
        }
      }
    }

    /** Every byte of the data space is zero but the one or two that `len` bytes from `p` leave
        of the size word before `p`. */
    ghost predicate Overrun(m: seq<byte>, p: nat, len: nat)
      reads this, mem
      requires |m| == SPACE && mem.Length == SPACE && 2 <= p <= SPACE && len < 0x10000
    {
      && p + len > SPACE
      && forall a :: 0 <= a < SPACE ==> mem[a] == if InRun(a, p, len) then 0 else PutWord(m, p - 2, len)[a]
    }

    /** The blocks live before a grant are live after it, elsewhere. */
    lemma {:induction false} KeptLive(bs: seq<Block>, p: nat)
      requires Valid() && !IsLive(bs, p) && Without(Live(blocks), p) == Live(bs)
      ensures forall b :: b in bs && !b.free ==> b in blocks && b.Payload() != p
    {
      forall b | b in bs && !b.free
        ensures b in blocks && b.Payload() != p
      {
        LiveIsLive(bs, b);
        WithoutGone(Live(blocks), p, b);
        LiveIsLive(blocks, b);
      }
    }

    /** realloc: the block stays when it is big enough; else its bytes move to a new one and
        the old is freed; when there is none, nothing changes. Growth that malloc's sum wraps gets
        an address from which the request runs past the data space. */
    method Realloc(p: nat, n: nat, sp: nat) returns (q: nat)
      requires Valid() && (p == 0 || IsLive(blocks, p)) && n < 0x10000 && sp < 0x10000
      modifies mem, this`brkval, this`flp, this`blocks
      ensures old(Fits(n, sp)) ==>
        && Valid()
        && Outcome(blocks, q) == HeapMachine.Realloc(start, old(blocks), p, n, old(Top(sp)))
        && UntouchedBut(old(mem[..]), mem[..], old(blocks), if q == 0 then 0 else p)
      ensures old(Fits(n, sp)) && p != 0 && q != 0 ==>
        var had := old(blocks)[IndexOf(old(blocks), p)].size;
        var kept := if n < had then n else had;
        && p + kept <= SPACE && q + kept <= SPACE
        && mem[q..q + kept] == old(mem[..])[p..p + kept]
      ensures !old(Fits(n, sp)) ==> q == (old(Brk()) + 2) % 0x10000 && old(Brk()) + 2 + n > SPACE
      ensures !old(Fits(n, sp)) && p == 0 ==>
        && brkval == old(Brk()) + n + 2 - 0x10000 && mem[..] == PutWord(old(mem[..]), old(Brk()), n)
        && flp == old(flp) && blocks == old(blocks)
      ensures p != 0 && n <= old(blocks)[IndexOf(old(blocks), p)].size ==>
        q == p && Brk() == old(Brk()) && blocks == old(blocks) && mem[..] == old(mem[..])
      ensures n + 2 < 0x10000 && (p != 0 ==> n > old(blocks)[IndexOf(old(blocks), p)].size) ==>
        var m := if n < 2 then 2 else n;
        && (q == 0 <==> NoneFits(old(blocks), m) && !UpTo(old(Brk()) + m + 2, sp))
        && (Brk() <= old(Brk()) || UpTo(Brk(), sp))
    {
      hide Held, Head, Tiled, Packed, IsLive, HeapMachine.Malloc, HeapMachine.Free, Word, PutWord, Live, UpTo;
      if p == 0 {
        q := Malloc(n, sp);
        return;
      }
      At(p);
      Bound(IndexOf(blocks, p));
      var had := GetWord(p - 2);
      if n <= had {
        return p;
      }
      if Fits(n, sp) {
        ReallocLimits(blocks, p, n, sp);
        q := Move(p, n, had, sp);
      } else {
        q := MoveOut(p, n, had, sp);
      }
    }

    /** Lines 138 to 143. */
    method Move(p: nat, n: nat, had: nat, sp: nat) returns (q: nat)
      requires Valid() && IsLive(blocks, p) && n < 0x10000 && sp < 0x10000 && Fits(n, sp)
      requires had == blocks[IndexOf(blocks, p)].size < n
      modifies mem, this`brkval, this`flp, this`blocks
      ensures Valid()
      ensures Outcome(blocks, q) == HeapMachine.Realloc(start, old(blocks), p, n, old(Top(sp)))
      ensures q != 0 ==> p + had <= SPACE && q + had <= SPACE && mem[q..q + had] == old(mem[..])[p..p + had]
      ensures UntouchedBut(old(mem[..]), mem[..], old(blocks), if q == 0 then 0 else p)
    {
      hide Held, Head, Tiled, Packed, IsLive, HeapMachine.Malloc, HeapMachine.Free, Word, Live;
      ghost var bs, top, m := blocks, Top(sp), mem[..];
      ghost var b := bs[IndexOf(bs, p)];
      At(p);
      q := Malloc(n, sp);
      if q != 0 {
        ghost var m1 := mem[..];
        MallocCorrect(start, bs, n, top);
        LiveStays(start, bs, p, blocks, q);
        KeptLive(bs, q);
        SameSlice(m, m1, p, b.End(), had);
        Copy(q, p, had);
        At(q);
        ghost var m2, g, bs1 := mem[..], blocks[IndexOf(blocks, q)], blocks;
        Free(p);
        SameSlice(m2, mem[..], q, g.End(), had);
        MovedRest(m, m1, m2, mem[..], bs, bs1, p, q);
      }
    }

    /** Lines 138 to 140 of growth that malloc's sum wraps: the address, and the copy to it with
        addresses counted in 16 bits. */
    method MoveOut(p: nat, n: nat, had: nat, sp: nat) returns (q: nat)
      requires Valid() && n < 0x10000 && sp < 0x10000 && !Fits(n, sp) && p + had <= SPACE
      modifies mem, this`brkval, this`flp, this`blocks
      ensures q == (old(Brk()) + 2) % 0x10000 && old(Brk()) + 2 + n > SPACE
    {
      hide Held, Head, Tiled, Packed, Live, Word, PutWord;
      q := Malloc(n, sp);
      if q != 0 {
        for k := 0 to had {
          mem[if q + k < SPACE then q + k else q + k - SPACE] := mem[p + k];
        }
      }
    }

    /** memcpy of `len` bytes from one live block to another. */
    method Copy(q: nat, p: nat, len: nat)
      requires Valid() && IsLive(blocks, p) && IsLive(blocks, q) && p != q
      requires len <= blocks[IndexOf(blocks, p)].size && len <= blocks[IndexOf(blocks, q)].size
      modifies mem
      ensures Valid() && q + len <= SPACE && p + len <= SPACE
      ensures mem[q..q + len] == old(mem[..])[p..p + len]
      ensures UntouchedBut(old(mem[..]), mem[..], blocks, q)
    {
      hide Held, Head, Tiled, Packed, IsLive;
      ghost var m, i, j := mem[..], IndexOf(blocks, q), IndexOf(blocks, p);
      At(p);
      At(q);
      LivePayloadsDisjoint(start, blocks, blocks[i], blocks[j]);
      CopyBytes(mem, q, p, len);
      PayloadWrite(m, mem[..], start, blocks, i);
    }

    static method CopyBytes(mem: array<byte>, q: nat, p: nat, len: nat)
      requires q + len <= mem.Length && p + len <= mem.Length && (q + len <= p || p + len <= q)
      modifies mem
      ensures mem[q..q + len] == old(mem[p..p + len])
      ensures forall a :: 0 <= a < mem.Length && !(q <= a < q + len) ==> mem[a] == old(mem[a])
    {
      for k := 0 to len
        invariant mem[q..q + k] == old(mem[p..p + k])
        invariant forall a :: 0 <= a < mem.Length && !(q <= a < q + k) ==> mem[a] == old(mem[a])
      {
        mem[q + k] := mem[p + k];
      }
    }

    /** Where aligned_alloc's sums are sound. */
    predicate AlignedSound(align: nat, n: nat, sp: nat)
      reads this
      requires heapEnd < 0x10000
    {
      if align <= 2 then Fits(n, sp)
      else AtLeastLink(n) + align + 4 < 0x10000 && Fits(AtLeastLink(n) + align + 4, sp)
    }

    /** aligned_alloc for a power of two. At 1 and 2 it is malloc. The second clause is a padded
        request that wraps: NULL and nothing changed when malloc refuses what is left of it,
        else an address from which the request does not fit the block malloc gave. The last
        two are malloc's own wrap. */
    method AlignedAlloc(align: nat, n: nat, sp: nat, ghost k: nat) returns (a: nat)
      requires Valid() && align == Pow2(k) && align < 0x10000 && n < 0x10000 && sp < 0x10000
      modifies mem, this`brkval, this`flp, this`blocks
      ensures old(AlignedSound(align, n, sp)) ==>
        && Valid()
        && Outcome(blocks, a) == HeapMachine.AlignedAlloc(start, old(blocks), align, n, old(Top(sp)))
        && Untouched(old(mem[..]), mem[..], old(blocks))
      ensures align > 2 && AtLeastLink(n) + align + 4 >= 0x10000 ==>
        var o := HeapMachine.Malloc(start, old(blocks), AtLeastLink(n) + align + 4 - 0x10000, old(Top(sp)));
        && (o.p == 0 ==> a == 0 && Valid() && blocks == old(blocks) && Untouched(old(mem[..]), mem[..], old(blocks)))
        && (o.p != 0 ==>
              && IsLive(o.blocks, o.p) && a == AlignUp(o.p + 4, align) % 0x10000
              && AlignUp(o.p + 4, align) + n > o.blocks[IndexOf(o.blocks, o.p)].End())
      ensures align > 2 && AtLeastLink(n) + align + 4 < 0x10000 && !old(Fits(AtLeastLink(n) + align + 4, sp)) ==>
        a == if old(Brk()) + 2 == SPACE then 0 else AlignUp(old(Brk()) + 6, align) % 0x10000
      ensures align <= 2 && !old(Fits(n, sp)) ==> a == (old(Brk()) + 2) % 0x10000
      ensures Padded(align, n) + 2 < 0x10000 ==>
        && (a == 0 <==> NoneFits(old(blocks), Padded(align, n)) && !UpTo(old(Brk()) + Padded(align, n) + 2, sp))
        && (Brk() <= old(Brk()) || UpTo(Brk(), sp))
    {
      hide Held, Head, WellFormed, EndOf, Untouched, UntouchedBut, IsLive, HeapMachine.Malloc, CutAt, Word, PutWord,
        Live, Pow2, And, AlignUp, UpTo;
      AlignedLimits(blocks, align, n, sp);
      if align <= 2 {
        a := Malloc(n, sp);
      } else {
        a := AlignedOver(align, n, sp, k);
      }
    }

    /** Lines 155 to 168: the alignments that a block need not have. */
    method AlignedOver(align: nat, n: nat, sp: nat, ghost k: nat) returns (a: nat)
      requires Valid() && 2 < align == Pow2(k) && align < 0x10000 && n < 0x10000 && sp < 0x10000
      modifies mem, this`brkval, this`flp, this`blocks
      ensures old(AlignedSound(align, n, sp)) ==>
        && Valid()
        && Outcome(blocks, a) == HeapMachine.AlignedAlloc(start, old(blocks), align, n, old(Top(sp)))
        && Untouched(old(mem[..]), mem[..], old(blocks))
      ensures AtLeastLink(n) + align + 4 >= 0x10000 ==>
        var o := HeapMachine.Malloc(start, old(blocks), AtLeastLink(n) + align + 4 - 0x10000, old(Top(sp)));
        && (o.p == 0 ==> a == 0 && Valid() && blocks == old(blocks) && Untouched(old(mem[..]), mem[..], old(blocks)))
        && (o.p != 0 ==>
              && IsLive(o.blocks, o.p) && a == AlignUp(o.p + 4, align) % 0x10000
              && AlignUp(o.p + 4, align) + n > o.blocks[IndexOf(o.blocks, o.p)].End())
      ensures AtLeastLink(n) + align + 4 < 0x10000 && !old(Fits(AtLeastLink(n) + align + 4, sp)) ==>
        a == if old(Brk()) + 2 == SPACE then 0 else AlignUp(old(Brk()) + 6, align) % 0x10000
    {
      hide Held, Head, WellFormed, EndOf, Untouched, UntouchedBut, IsLive, HeapMachine.Malloc, CutAt, Word, PutWord,
        Live, Pow2, And, AlignUp, UpTo;
      var least := if n < 2 then 2 else n;
      var request, sound := (least + align + 4) % 0x10000, AlignedSound(align, n, sp);
      ghost var bs, top, m := blocks, Top(sp), mem[..];
      Halved(align, k);
      var raw := Malloc(request, sp);
      MallocCorrect(start, bs, request, top);
      if raw == 0 {
        return 0;
      }
      if sound {
        AlignedIsCut(start, bs, align, n, top);
        MallocGrants(start, bs, request, top);
        FreshPayload(start, bs, request, top);
        KeptLive(bs, raw);
        ghost var m1, bs1 := mem[..], blocks;
        a := AlignIn(raw, align, k);
        UntouchedThen(m, m1, mem[..], bs, bs1, raw);
      } else {
        if least + align + 4 >= 0x10000 {
          At(raw);
          NeverFits(least, align, raw);
        }
        a := AlignOut(raw, align, k);
      }
    }

    /** Lines 160 to 167 of a wrapped request: the address, and two size words that need not be
        the block's. */
    method AlignOut(raw: nat, align: nat, ghost k: nat) returns (a: nat)
      requires mem.Length == SPACE && 2 <= raw <= SPACE && align == Pow2(k) && 2 < align <= 0x8000
      modifies mem
      ensures a == AlignUp(raw + 4, align) % 0x10000
    {
      hide Pow2, And, AlignUp;
      MaskIsAlignUp(raw + 4, align, k);
      AlignedIsEven(raw + 4, align, k);
      a := And((raw + 4 + align - 1) % 0x10000, 0xffff - (align - 1));
      var total, lead := GetWord(raw - 2), (a - raw) % 0x10000;
      SetWord((a - 2) % 0x10000, (total - lead) % 0x10000);
      SetWord(raw - 2, (lead - 2) % 0x10000);
    }

    /** Lines 160 to 168: the live block at `raw` is cut at its first aligned payload. */
    method AlignIn(raw: nat, align: nat, ghost k: nat) returns (a: nat)
      requires Valid() && IsLive(blocks, raw) && align == Pow2(k)
      requires raw + align + 6 <= blocks[IndexOf(blocks, raw)].End()
      modifies mem, this`brkval, this`flp, this`blocks
      ensures Valid()
      ensures Outcome(blocks, a) == HeapMachine.CutAt(start, old(blocks), raw, AlignUp(raw + 4, align))
      ensures UntouchedBut(old(mem[..]), mem[..], old(blocks), raw)
    {
      hide Held, Head, Tiled, Packed, IsLive, CutAt, Word, Live, Pow2, And, SameOn;
      At(raw);
      Pow2Is16();
      MaskIsAlignUp(raw + 4, align, k);
      a := And((raw + 4 + align - 1) % 0x10000, 0xffff - (align - 1));
      CutLead(raw, a);
    }

    /** Lines 162 to 168: the live block at `raw` is cut before `a` and its lead freed. */
    method CutLead(raw: nat, a: nat)
      requires Valid() && IsLive(blocks, raw)
      requires raw + 4 <= a <= blocks[IndexOf(blocks, raw)].End() - 2
      modifies mem, this`brkval, this`flp, this`blocks
      ensures Valid()
      ensures Outcome(blocks, a) == HeapMachine.CutAt(start, old(blocks), raw, a)
      ensures UntouchedBut(old(mem[..]), mem[..], old(blocks), raw)
    {
      hide Held, Head, Tiled, Packed, IsLive, HeapMachine.Free, Word, Live, SplitAt;
      ghost var bs, i, m := blocks, IndexOf(blocks, raw), mem[..];
      At(raw);
      var total, lead := GetWord(raw - 2), a - raw;
      SplitHeld(m, start, bs, i, a);
      SplitUntouched(m, start, bs, i, a);
      SplitKeeps(start, bs, i, a);
      CutLive(start, bs, i, a);
      SetWord(a - 2, total - lead);
      SetWord(raw - 2, lead - 2);
      blocks := SplitAt(bs, i, a);
      SplitOthers(bs, i, a);
      Free(raw);
    }
  }

  lemma {:induction false} UntouchedSelf(m: seq<byte>, bs: seq<Block>)
    ensures Untouched(m, m, bs)
  {
  }

  /** What a grant and what is then done in the granted block leave alone. */
  lemma {:induction false} UntouchedThen(m: seq<byte>, m1: seq<byte>, m2: seq<byte>, bs: seq<Block>,
                                         bs1: seq<Block>, p: nat)
    requires Untouched(m, m1, bs) && UntouchedBut(m1, m2, bs1, p)
    requires forall b :: b in bs && !b.free ==> b in bs1 && b.Payload() != p
    ensures Untouched(m, m2, bs)
  {
    forall b | b in bs && !b.free
      ensures SameOn(m, m2, b.Payload(), b.End())
    {
      assert SameOn(m, m1, b.Payload(), b.End()) && SameOn(m1, m2, b.Payload(), b.End());
    }
  }

  /** What the three steps of a move leave alone. */
  lemma {:induction false} MovedRest(m: seq<byte>, m1: seq<byte>, m2: seq<byte>, m3: seq<byte>,
                  bs: seq<Block>, bs1: seq<Block>, p: nat, q: nat)
    requires Untouched(m, m1, bs) && UntouchedBut(m1, m2, bs1, q) && UntouchedBut(m2, m3, bs1, p)
    requires forall b :: b in bs && !b.free ==> b in bs1 && b.Payload() != q
    ensures UntouchedBut(m, m3, bs, p)
  {
    forall b | b in bs && !b.free && b.Payload() != p
      ensures SameOn(m, m3, b.Payload(), b.End())
    {
      assert SameOn(m, m1, b.Payload(), b.End()) && SameOn(m1, m2, b.Payload(), b.End());
    }
  }

  /** Cutting block `i` leaves the other blocks. */
  lemma {:induction false} SplitOthers(bs: seq<Block>, i: nat, a: nat)
    requires i < |bs| && bs[i].Payload() + 4 <= a <= bs[i].End()
    ensures forall b :: b in bs && b != bs[i] ==> b in SplitAt(bs, i, a)
  {
    var bs' := SplitAt(bs, i, a);
    forall b | b in bs && b != bs[i]
      ensures b in bs'
    {
      var j :| 0 <= j < |bs| && bs[j] == b;
      assert bs'[if j < i then j else j + 1] == b;
    }
  }

  /** The code's mask rounds up to a multiple when `align` is a power of two, in 16 bits. */
  lemma {:induction false} MaskIsAlignUp(x: nat, align: nat, k: nat)
    requires align == Pow2(k) && align <= 0x10000 && x + align - 1 < 0x20000
    ensures And((x + align - 1) % 0x10000, 0xffff - (align - 1)) == AlignUp(x, align) % 0x10000
  {
    hide Pow2, And, Low, AlignUp;
    Pow2Is16();
    if k > 16 {
      Pow2Monotone(16, k);
    }
    var y, z := x + align - 1, (x + align - 1) % 0x10000;
    AndMask(z, k, 16);
    DropsLow(x, align, k);
    if y >= 0x10000 {
      LowWraps(z, k);
    }
    LowAtMost(z, k);
    Rounded(y, z, Low(z, k));
  }

  lemma {:induction false} DropsLow(x: nat, align: nat, k: nat)
    requires align == Pow2(k)
    ensures AlignUp(x, align) == x + align - 1 - Low(x + align - 1, k)
  {
    hide Pow2, Low, AlignUp;
    AlignUpDrops(x, align);
    LowIsMod(x + align - 1, k);
  }

  lemma {:induction false} LowAtMost(x: nat, k: nat)
    ensures Low(x, k) <= x
  {
    if k > 0 {
      LowAtMost(x / 2, k - 1);
    }
  }

  /** A power of two divides 2^16. */
  lemma {:induction false} LowWraps(z: nat, k: nat)
    requires k <= 16
    ensures Low(z + 0x10000, k) == Low(z, k)
  {
    hide Pow2, Low;
    Pow2Is16();
    Pow2Add(16 - k, k);
    ModShift(z, Pow2(16 - k), Pow2(k));
    LowIsMod(z, k);
    LowIsMod(z + 0x10000, k);
  }

  lemma {:induction false} Rounded(y: nat, z: nat, r: nat)
    requires y < 0x20000 && z == y % 0x10000 && r <= z
    ensures (y - r) % 0x10000 == z - r
  {
  }

  /** A power of two above 2 that fits 16 bits is at most half of them. */
  lemma {:induction false} Halved(align: nat, k: nat)
    requires align == Pow2(k) && align < 0x10000
    ensures align <= 0x8000
  {
    Pow2Is16();
    assert Pow2(16) == 2 * Pow2(15);
    if k >= 16 {
      Pow2Monotone(16, k);
    } else {
      Pow2Monotone(k, 15);
    }
  }

  /** A multiple of a power of two above 2 is even, in 16 bits too. */
  lemma {:induction false} AlignedIsEven(x: nat, align: nat, k: nat)
    requires align == Pow2(k) && align > 2
    ensures AlignUp(x, align) % 0x10000 % 2 == 0
  {
    hide AlignUp, Pow2;
    AlignUpIsMultiple(x, align);
    AtLeastOne(k);
    Doubles(k);
    EvenMultiple(AlignUp(x, align), Pow2(k - 1));
    EvenRest(AlignUp(x, align));
  }

  lemma {:induction false} EvenRest(a: nat)
    requires a % 2 == 0
    ensures a % 0x10000 % 2 == 0
  {
  }

  lemma {:induction false} AtLeastOne(k: nat)
    requires Pow2(k) > 2
    ensures k > 0
  {
  }

  lemma {:induction false} EvenMultiple(a: nat, h: nat)
    requires h > 0 && a % (2 * h) == 0
    ensures a % 2 == 0
  {
    DivModBack(a, 2 * h);
    var q := a / (2 * h);
    MulAssoc(q, h, 2);
    DivModUnique(a, 2, q * h, 0);
  }

  lemma {:induction false} Pow2Is16()
    ensures Pow2(16) == 0x10000
  {
    assert Pow2(4) == 16;
    Pow2Add(4, 4);
    Pow2Add(8, 8);
  }

  /** `a` is one of the `len` addresses from `p` on, counted in 16 bits. */
  predicate InRun(a: int, p: nat, len: nat) {
    p <= a < p + len || a + SPACE < p + len
  }

  /** Those whose distance from `p`, in 16 bits, is below `len`. */
  lemma {:induction false} RunIsDistance(a: nat, p: nat, len: nat)
    requires a < SPACE && p < SPACE && len <= SPACE
    ensures InRun(a, p, len) <==> (a - p) % 0x10000 < len
  {
  }

  // ----- the room check in 16 bits

  /** Line 69 as coded: the break is below the limit and the sum, modulo 2^16, fits. */
  predicate RoomCheck(brk: nat, top: nat, n: nat) {
    !(brk >= top || top - brk < (n + 2) % 0x10000)
  }

  /** The check says "there is room" exactly when there is, at every break and limit, if and
      only if the request and its size word fit 16 bits. */
  lemma {:induction false} BreakCheckExact(n: nat)
    requires n < 0x10000
    ensures n + 2 < 0x10000 <==>
      forall brk: nat, top: nat :: brk < 0x10000 && top < 0x10000 ==>
        (RoomCheck(brk, top, n) <==> brk + n + 2 <= top)
  {
    if n + 2 >= 0x10000 {
      assert RoomCheck(256, 512, n);
    }
  }

  /** What a wrapped request costs: the returned payload is no block of any heap that ends at
      the new break. */
  lemma {:induction false} WrappedBlockIsLost(start: nat, brk: nat, n: nat, bs: seq<Block>)
    requires n < 0x10000 <= n + 2
    requires Tiled(start, bs) && EndOf(start, bs) == brk + n + 2 - 0x10000
    ensures !IsLive(bs, brk + 2)
  {
    if IsLive(bs, brk + 2) {
      var i := IndexOf(bs, brk + 2);
      Apart(start, bs, i, i);
    }
  }

  /** Line 157 as coded: the size asked for, modulo 2^16, holds an aligned `n` bytes at `raw`. */
  predicate AlignedFits(raw: nat, n: nat, align: nat)
    requires align > 0
  {
    AlignUp(raw + 4, align) + n <= raw + (n + align + 4) % 0x10000
  }

  /** The block asked for has room for the aligned one wherever it lies when the sum fits 16
      bits, and wherever it lies has none when it does not. */
  lemma {:induction false} AlignedRequestExact(n: nat, align: nat, raw: nat)
    requires 2 <= n < 0x10000 && 2 < align < 0x10000
    ensures AlignedFits(raw, n, align) <==> n + align + 4 < 0x10000
  {
    hide AlignUp;
  }

  /** Nor has a block of up to three bytes more, as malloc may grant. */
  lemma {:induction false} NeverFits(n: nat, align: nat, raw: nat)
    requires 2 <= n < 0x10000 && 2 < align <= 0x8000 && n + align + 4 >= 0x10000
    ensures AlignUp(raw + 4, align) + n > raw + AtLeastLink(n + align + 4 - 0x10000) + 3
  {
    hide AlignUp;
  }

  lemma {:induction false} Overflows(n: nat, size: nat)
    requires size > 0 && n > 0xffff / size
    ensures n * size > 0xffff
  {
    var q := 0xffff / size;
    assert 0xffff == q * size + 0xffff % size;
    assert n * size >= (q + 1) * size;
  }

  lemma {:induction false} NoOverflow(n: nat, size: nat)
    requires size == 0 || n <= 0xffff / size
    ensures n * size <= 0xffff
  {
    if size > 0 {
      var q := 0xffff / size;
      assert n * size <= q * size;
    }
  }
}
