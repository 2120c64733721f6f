/** The free list that kfree leaves. coalesce takes up to two free neighbours off their chains,
    and each removal may put free_list_head somewhere else. */
module KfreeLists {
  import opened HeapModel
  import opened FreeLinks
  import opened Blocks
  import opened HeapOps
  import opened HeapLaws
  import opened Removals

  /** The address of the block that kfree lists. */
  function Listed(h: Heap, i: nat): int
    requires i < |h.blocks|
  {
    if FreeLeft(h.blocks, i) then h.blocks[i - 1].addr else h.blocks[i].addr
  }

  lemma NeighboursAre(h: Heap, i: nat)
    requires HeapOk(h) && i < |h.blocks| && !h.blocks[i].free
    ensures FreeRight(h.blocks, i) ==> h.blocks[i + 1].addr in h.links.next
    ensures FreeLeft(h.blocks, i) ==> h.blocks[i - 1].addr in h.links.next
    ensures FreeRight(h.blocks, i) && FreeLeft(h.blocks, i) ==> h.blocks[i - 1].addr != h.blocks[i + 1].addr
  {
    AllOrdered(h.blocks);
  }

  /** The links g between the two halves of kfree: coalesce has taken the free neighbours off
      their chains, right one first, and the merged block is about to be pushed. */
  lemma ReleaseLinks(h: Heap, i: nat) returns (g: Links)
    requires HeapOk(h) && i < |h.blocks| && !h.blocks[i].free
    ensures LinksOk(g) && Unlinked(g, Listed(h, i)) && Release(h, i).links == Add(g, Listed(h, i))
    ensures var bs, l := h.blocks, h.links;
            && (FreeRight(bs, i) && FreeLeft(bs, i) ==>
                  && bs[i + 1].addr in l.next && bs[i + 1].addr in l.prev
                  && bs[i - 1].addr in Remove(l, bs[i + 1].addr).next
                  && bs[i - 1].addr in Remove(l, bs[i + 1].addr).prev
                  && g == Remove(Remove(l, bs[i + 1].addr), bs[i - 1].addr))
            && (FreeRight(bs, i) && !FreeLeft(bs, i) ==>
                  bs[i + 1].addr in l.next && bs[i + 1].addr in l.prev && g == Remove(l, bs[i + 1].addr))
            && (!FreeRight(bs, i) && FreeLeft(bs, i) ==>
                  bs[i - 1].addr in l.next && bs[i - 1].addr in l.prev && g == Remove(l, bs[i - 1].addr))
            && (!FreeRight(bs, i) && !FreeLeft(bs, i) ==> g == l)
  {
    NeighboursAre(h, i);
    MarkOk(h, i);
    var q := CoalescePrev(CoalesceNext(Pending(Heap(SetFree(h.blocks, i, true), h.links), i)));
    assert BlockOk(q.heap.blocks[q.at]);
    if FreeRight(h.blocks, i) && FreeLeft(h.blocks, i) {
      RemoveOk(h.links, h.blocks[i + 1].addr);
    }
    g := q.heap.links;
  }

  /** free_list_head just before kfree pushes the merged block. */
  ghost function HeadLeft(h: Heap, i: nat): int
    requires HeapOk(h) && i < |h.blocks| && !h.blocks[i].free
  {
    NeighboursAre(h, i);
    var bs, l := h.blocks, h.links;
    if FreeRight(bs, i) && FreeLeft(bs, i) then HeadPastBoth(l, bs[i + 1].addr, bs[i - 1].addr)
    else if FreeRight(bs, i) then HeadPast(l, bs[i + 1].addr)
    else if FreeLeft(bs, i) then HeadPast(l, bs[i - 1].addr)
    else l.head
  }

  /** A list without the neighbours that kfree merges. */
  function Unmerged(bs: seq<Block>, i: nat, s: seq<int>): seq<int> {
    var t := if FreeRight(bs, i) then Without(s, bs[i + 1].addr) else s;
    if FreeLeft(bs, i) then Without(t, bs[i - 1].addr) else t
  }

  /** The free list after kfree, from the links before it: the merged block, then the chain
      that free_list_head is left on, without the merged neighbours. */
  lemma ReleaseLists(h: Heap, i: nat)
    requires HeapOk(h) && i < |h.blocks| && !h.blocks[i].free
    ensures HeadLeft(h, i) != 0 ==> HeadLeft(h, i) in h.links.next
    ensures FreeList(Release(h, i).links) == [Listed(h, i)] + Unmerged(h.blocks, i, Chain(h.links, HeadLeft(h, i)))
  {
    var bs, l := h.blocks, h.links;
    NeighboursAre(h, i);
    var g := ReleaseLinks(h, i);
    AddPushesFront(g, Listed(h, i));
    if FreeRight(bs, i) && FreeLeft(bs, i) {
      BothRemovedList(l, bs[i + 1].addr, bs[i - 1].addr);
    } else if FreeRight(bs, i) {
      RemovedList(l, bs[i + 1].addr);
    } else if FreeLeft(bs, i) {
      RemovedList(l, bs[i - 1].addr);
    }
  }

  /** kfree forgets every other listed block exactly when its removals leave free_list_head
      NULL. */
  lemma ReleaseForgetsList(h: Heap, i: nat)
    requires HeapOk(h) && i < |h.blocks| && !h.blocks[i].free
    ensures FreeList(Release(h, i).links) == [Listed(h, i)] <==> HeadLeft(h, i) == 0
  {
    var bs, l, y := h.blocks, h.links, HeadLeft(h, i);
    ReleaseLists(h, i);
    NeighboursAre(h, i);
    if y != 0 {
      ChainStarts(l, y);
      if FreeRight(bs, i) && FreeLeft(bs, i) {
        BothRemovedList(l, bs[i + 1].addr, bs[i - 1].addr);
        FirstSurvives(Chain(l, y), bs[i + 1].addr, bs[i - 1].addr);
      } else if FreeRight(bs, i) {
        RemovedList(l, bs[i + 1].addr);
      } else if FreeLeft(bs, i) {
        RemovedList(l, bs[i - 1].addr);
      }
    }
  }

  /** The neighbours of block i can be merged without loss to the free list. */
  ghost predicate ListSurvives(h: Heap, i: nat)
    requires HeapOk(h) && i < |h.blocks| && !h.blocks[i].free
  {
    NeighboursAre(h, i);
    var bs, l := h.blocks, h.links;
    if FreeRight(bs, i) && FreeLeft(bs, i) then BothKept(l, bs[i + 1].addr, bs[i - 1].addr)
    else if FreeRight(bs, i) then Kept(l, bs[i + 1].addr)
    else if FreeLeft(bs, i) then Kept(l, bs[i - 1].addr)
    else true
  }

  /** kfree's law for the free list, through no removal, one or two: it is the old list
      without the merged neighbours and with the merged block in front, exactly under that
      condition on the links of the neighbours. */
  lemma ReleaseKeepsList(h: Heap, i: nat)
    requires HeapOk(h) && i < |h.blocks| && !h.blocks[i].free
    ensures FreeList(Release(h, i).links) == [Listed(h, i)] + Unmerged(h.blocks, i, FreeList(h.links))
       <==> ListSurvives(h, i)
  {
    var bs, l := h.blocks, h.links;
    NeighboursAre(h, i);
    var g := ReleaseLinks(h, i);
    AddPushesFront(g, Listed(h, i));
    SameRest(Listed(h, i), FreeList(g), Unmerged(bs, i, FreeList(l)));
    if FreeRight(bs, i) && FreeLeft(bs, i) {
      BothRemovedKeeps(l, bs[i + 1].addr, bs[i - 1].addr);
    } else if FreeRight(bs, i) {
      RemoveKeepsList(l, bs[i + 1].addr);
    } else if FreeLeft(bs, i) {
      RemoveKeepsList(l, bs[i - 1].addr);
    }
  }

  lemma SameRest(a: int, s: seq<int>, t: seq<int>)
    ensures [a] + s == [a] + t <==> s == t
  {
    assert ([a] + s)[1..] == s && ([a] + t)[1..] == t;
  }
}
