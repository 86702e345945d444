/** Whole runs of the allocator: any sequence of calls a program may make, and any order in
which it frees what it holds. */
module HeapRuns {
  import opened HeapBlocks
  import opened HeapLayout
  import opened HeapMachine

  /** One call. `top` is the limit read at that call, which moves with the stack. */
  datatype Call =
    | CallMalloc(n: nat, top: nat)
    | CallFree(p: nat)
    | CallCalloc(n: nat, size: nat, top: nat)
    | CallRealloc(p: nat, n: nat, top: nat)
    | CallAligned(align: nat, n: nat, top: nat)

  /** free and realloc are given NULL or a live pointer. */
  predicate Legal(bs: seq<Block>, c: Call) {
    match c
    case CallFree(p) => p == 0 || IsLive(bs, p)
    case CallRealloc(p, _, _) => p == 0 || IsLive(bs, p)
    case _ => true
  }

  ghost function Step(start: nat, bs: seq<Block>, c: Call): Outcome
    requires WellFormed(start, bs) && Legal(bs, c)
  {
    match c
    case CallMalloc(n, top) => Malloc(start, bs, n, top)
    case CallFree(p) => Outcome(if p == 0 then bs else Free(start, bs, p), 0)
    case CallCalloc(n, size, top) => Calloc(start, bs, n, size, top)
    case CallRealloc(p, n, top) => Realloc(start, bs, p, n, top)
    case CallAligned(align, n, top) => AlignedAlloc(start, bs, align, n, top)
  }

  lemma {:induction false} StepKeeps(start: nat, bs: seq<Block>, c: Call)
    requires WellFormed(start, bs) && Legal(bs, c)
    ensures WellFormed(start, Step(start, bs, c).blocks)
  {
    hide Malloc, Free, IsLive, WellFormed;
    match c
    case CallMalloc(n, top) => MallocCorrect(start, bs, n, top);
    case CallFree(p) => if p != 0 { FreeCorrect(start, bs, p); }
    case CallCalloc(n, size, top) => MallocCorrect(start, bs, n * size, top);
    case CallRealloc(p, n, top) =>
      if p == 0 { MallocCorrect(start, bs, n, top); } else { ReallocCorrect(start, bs, p, n, top); }
    case CallAligned(align, n, top) =>
      if align <= 2 {
        MallocCorrect(start, bs, n, top);
      } else {
        AlignedAllocFails(start, bs, align, n, top);
        if Malloc(start, bs, AtLeastLink(n) + align + 4, top).p != 0 {
          AlignedAllocGrants(start, bs, align, n, top);
        }
      }
  }

  /** `states` is a run: it starts with the empty heap and each state comes from the one
      before by a legal call. */
  ghost predicate IsRun(start: nat, calls: seq<Call>, states: seq<seq<Block>>) {
    && |states| == |calls| + 1 && states[0] == []
    && forall i :: 0 <= i < |calls| ==> StepFrom(start, states[i], calls[i], states[i + 1])
  }

  ghost predicate StepFrom(start: nat, bs: seq<Block>, c: Call, bs': seq<Block>) {
    WellFormed(start, bs) ==> Legal(bs, c) && bs' == Step(start, bs, c).blocks
  }

  /** In every state of every run the blocks tile the heap exactly, no free block touches
      another or the break, the free list ascends, and the free blocks are no more than the
      live ones. */
  lemma {:induction false} RunKeepsHeap(start: nat, calls: seq<Call>, states: seq<seq<Block>>, k: nat)
    requires IsRun(start, calls, states) && k < |states|
    ensures WellFormed(start, states[k])
    ensures |FreeAddrs(states[k])| <= |Live(states[k])|
    ensures forall i, j :: 0 <= i < j < |FreeAddrs(states[k])| ==> FreeAddrs(states[k])[i] < FreeAddrs(states[k])[j]
    ensures states[k] == Layout(start, Live(states[k]))
  {
    if k > 0 {
      RunKeepsHeap(start, calls, states, k - 1);
      assert StepFrom(start, states[k - 1], calls[k - 1], states[k]);
      StepKeeps(start, states[k - 1], calls[k - 1]);
    }
    NoMoreFreeThanLive(states[k]);
    FreeListAscends(start, states[k]);
    LayoutOfHeap(start, states[k]);
  }

  // ----- the limit

  /** The limit that a call reads; free reads none. */
  function LimitOf(c: Call): nat {
    if c.CallFree? then 0 else c.top
  }

  /** No call takes the break over a limit that it has not passed and that the call keeps to. */
  lemma {:induction false} StepKeepsLimit(start: nat, bs: seq<Block>, c: Call, limit: nat)
    requires WellFormed(start, bs) && Legal(bs, c) && EndOf(start, bs) <= limit && LimitOf(c) <= limit
    ensures EndOf(start, Step(start, bs, c).blocks) <= limit
  {
    hide Malloc, Free, IsLive, WellFormed, EndOf, Live;
    match c
    case CallMalloc(n, top) => MallocCorrect(start, bs, n, top);
    case CallFree(p) => if p != 0 { FreeCorrect(start, bs, p); }
    case CallCalloc(n, size, top) =>
      CallocCorrect(start, bs, n, size, top);
      MallocCorrect(start, bs, n * size, top);
    case CallRealloc(p, n, top) =>
      if p == 0 { MallocCorrect(start, bs, n, top); } else { ReallocCorrect(start, bs, p, n, top); }
    case CallAligned(align, n, top) => AlignedKeepsLimit(start, bs, align, n, top, limit);
  }

  lemma {:induction false} AlignedKeepsLimit(start: nat, bs: seq<Block>, align: nat, n: nat, top: nat, limit: nat)
    requires WellFormed(start, bs) && EndOf(start, bs) <= limit && top <= limit
    ensures EndOf(start, AlignedAlloc(start, bs, align, n, top).blocks) <= limit
  {
    hide Malloc, AlignedAlloc, IsLive, WellFormed, EndOf, Live;
    if align <= 2 {
      AlignedAllocPlain(start, bs, align, n, top);
      MallocCorrect(start, bs, n, top);
    } else {
      AlignedAllocFails(start, bs, align, n, top);
      if Malloc(start, bs, AtLeastLink(n) + align + 4, top).p != 0 {
        AlignedAllocGrants(start, bs, align, n, top);
      }
    }
  }

  /** Over a whole run, the heap stays under the highest limit that any of its calls read. */
  lemma {:induction false} RunKeepsLimit(start: nat, calls: seq<Call>, states: seq<seq<Block>>, k: nat, limit: nat)
    requires IsRun(start, calls, states) && k < |states| && start <= limit
    requires forall i :: 0 <= i < k ==> LimitOf(calls[i]) <= limit
    ensures EndOf(start, states[k]) <= limit
    ensures forall b :: b in states[k] ==> start <= b.addr && b.End() <= limit
  {
    hide WellFormed, Legal, Step, FreeAddrs, Live, Layout, LimitOf;
    RunKeepsHeap(start, calls, states, k);
    if k > 0 {
      RunKeepsLimit(start, calls, states, k - 1, limit);
      RunKeepsHeap(start, calls, states, k - 1);
      assert StepFrom(start, states[k - 1], calls[k - 1], states[k]);
      StepKeepsLimit(start, states[k - 1], calls[k - 1], limit);
    }
    InsideHeap(start, states[k]);
  }

  lemma {:induction false} InsideHeap(start: nat, bs: seq<Block>)
    requires WellFormed(start, bs)
    ensures forall b :: b in bs ==> start <= b.addr && b.End() <= EndOf(start, bs)
  {
    forall b | b in bs
      ensures start <= b.addr && b.End() <= EndOf(start, bs)
    {
      var i :| 0 <= i < |bs| && bs[i] == b;
      Apart(start, bs, i, i);
    }
  }

  // ----- freeing in any order

  /** The heap after freeing the payloads `ps` one after another. */
  function FreeAll(start: nat, bs: seq<Block>, ps: seq<nat>): seq<Block>
    decreases ps
  {
    if ps == [] then bs else FreeAll(start, Free(start, bs, ps[0]), ps[1..])
  }

  ghost predicate DistinctLive(bs: seq<Block>, ps: seq<nat>) {
    && (forall i :: 0 <= i < |ps| ==> IsLive(bs, ps[i]))
    && (forall i, j :: 0 <= i < j < |ps| ==> ps[i] != ps[j])
  }

  /** The live blocks whose payloads are not in `ps`. */
  function Keep(live: seq<Block>, ps: seq<nat>): seq<Block> {
    if live == [] then []
    else (if live[0].Payload() in ps then [] else [live[0]]) + Keep(live[1..], ps)
  }

  lemma {:induction false} KeepFirst(live: seq<Block>, ps: seq<nat>)
    requires ps != []
    ensures Keep(Without(live, ps[0]), ps[1..]) == Keep(live, ps)
  {
    if live != [] {
      KeepFirst(live[1..], ps);
      assert live[0].Payload() in ps <==> live[0].Payload() == ps[0] || live[0].Payload() in ps[1..];
      if live[0].Payload() != ps[0] {
        assert Without(live, ps[0])[1..] == Without(live[1..], ps[0]);
      }
    }
  }

  lemma {:induction false} KeepAll(live: seq<Block>)
    ensures Keep(live, []) == live
  {
    if live != [] {
      KeepAll(live[1..]);
    }
  }

  lemma {:induction false} KeepNone(live: seq<Block>, ps: seq<nat>)
    requires forall b :: b in live ==> b.Payload() in ps
    ensures Keep(live, ps) == []
  {
    if live != [] {
      KeepNone(live[1..], ps);
    }
  }

  /** Freeing one of several live payloads leaves the others live. */
  lemma {:induction false} StillLive(start: nat, bs: seq<Block>, ps: seq<nat>)
    requires WellFormed(start, bs) && DistinctLive(bs, ps) && ps != []
    ensures DistinctLive(Free(start, bs, ps[0]), ps[1..])
  {
    var bs' := Free(start, bs, ps[0]);
    FreeCorrect(start, bs, ps[0]);
    forall i | 0 <= i < |ps[1..]|
      ensures IsLive(bs', ps[1..][i])
    {
      var b := bs[IndexOf(bs, ps[i + 1])];
      LiveIsLive(bs, b);
      WithoutGone(Live(bs), ps[0], b);
      LiveIsLive(bs', b);
    }
  }

  /** The heap after freeing a set of live blocks depends on the set only, never on the
      order: it is the layout of what is still live. */
  lemma {:induction false} FreeOrderIrrelevant(start: nat, bs: seq<Block>, ps: seq<nat>)
    requires WellFormed(start, bs) && DistinctLive(bs, ps)
    ensures FreeAll(start, bs, ps) == Layout(start, Keep(Live(bs), ps))
    decreases ps
  {
    if ps == [] {
      KeepAll(Live(bs));
      LayoutOfHeap(start, bs);
    } else {
      StillLive(start, bs, ps);
      FreeCorrect(start, bs, ps[0]);
      FreeOrderIrrelevant(start, Free(start, bs, ps[0]), ps[1..]);
      KeepFirst(Live(bs), ps);
    }
  }

  /** Freeing every live block, in any order, restores the empty heap. */
  lemma {:induction false} FreeAllEmpties(start: nat, bs: seq<Block>, ps: seq<nat>)
    requires WellFormed(start, bs) && DistinctLive(bs, ps)
    requires forall b :: b in bs && !b.free ==> b.Payload() in ps
    ensures FreeAll(start, bs, ps) == []
  {
    FreeOrderIrrelevant(start, bs, ps);
    forall b | b in Live(bs)
      ensures b.Payload() in ps
    {
      LiveIsLive(bs, b);
    }
    KeepNone(Live(bs), ps);
  }
}
