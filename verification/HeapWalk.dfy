/** Walking the free list: from a free block's link to the next free block. */
module HeapWalk {
  import opened HeapBlocks
  import opened HeapMemory
  import opened Bytes
  import opened HeapMoves

  /** A block's address by index, 0 past the end: what a list pointer holds. */
  function AddrAt(bs: seq<Block>, j: nat): nat {
    if j < |bs| then bs[j].addr else 0
  }

  lemma {:induction false} HeadIsNextFree(bs: seq<Block>, k: nat)
    requires k <= |bs|
    ensures Head(bs[k..], 0) == AddrAt(bs, NextFree(bs, k))
    decreases |bs| - k
  {
    if k < |bs| && !bs[k].free {
      assert bs[k..][1..] == bs[k + 1..];
      HeadIsNextFree(bs, k + 1);
    }
  }

  /** Blocks that are not free do not change what a walk has behind it. */
  lemma {:induction false} LastFreeSkips(bs: seq<Block>, k: nat, j: nat)
    requires k <= j <= |bs|
    requires forall x :: k <= x < j ==> !bs[x].free
    ensures LastFree(bs[..j]) == LastFree(bs[..k])
    decreases j
  {
    if k < j {
      assert bs[..j][..j - 1] == bs[..j - 1];
      LastFreeSkips(bs, k, j - 1);
    }
  }

  lemma {:induction false} WalkStart(bs: seq<Block>)
    ensures Head(bs, 0) == AddrAt(bs, NextFree(bs, 0))
    ensures LastFree(bs[..NextFree(bs, 0)]) == 0
  {
    HeadIsNextFree(bs, 0);
    assert bs[0..] == bs && bs[..0] == [];
    LastFreeSkips(bs, 0, NextFree(bs, 0));
  }

  lemma {:induction false} WalkStep(m: seq<byte>, s: nat, bs: seq<Block>, j: nat)
    requires Held(m, s, bs, 0) && j < |bs| && bs[j].free
    ensures bs[j].addr + 4 <= |m|
    ensures Word(m, bs[j].addr) == bs[j].size
    ensures Word(m, bs[j].addr + 2) == AddrAt(bs, NextFree(bs, j + 1))
    ensures LastFree(bs[..NextFree(bs, j + 1)]) == bs[j].addr
    ensures s <= bs[j].addr
  {
    HeldCut(m, s, bs, j, 0);
    HeadIsNextFree(bs, j + 1);
    LastFreeSkips(bs, j + 1, NextFree(bs, j + 1));
    assert LastFree(bs[..j + 1]) == bs[j].addr;
  }

  /** A later start finds no earlier block. */
  lemma {:induction false} NextFreeMonotone(bs: seq<Block>, j: nat, k: nat)
    requires j <= k <= |bs|
    ensures NextFree(bs, j) <= NextFree(bs, k)
  {
  }

  /** The walk that stops at the first free block past block `i` has the free neighbours
      of `i` on either side. */
  lemma {:induction false} WalkEnd(bs: seq<Block>, i: nat, j: nat)
    requires i < |bs| && !bs[i].free && j == NextFree(bs, i)
    ensures AddrAt(bs, j) == Head(bs[i + 1..], 0)
    ensures LastFree(bs[..j]) == LastFree(bs[..i])
  {
    HeadIsNextFree(bs, i + 1);
    LastFreeSkips(bs, i, j);
  }
}
