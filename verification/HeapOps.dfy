/** The operations of src/memory/kheap.c on heap values, and the invariant each keeps. */
module HeapOps {
  import opened HeapModel
  import opened FreeLinks
  import opened Blocks

  // ---------------------------------------------------------------- first fit

  /** The search loop of kmalloc: the first block of the chain from a with room for n, or 0. */
  ghost function FirstFit(h: Heap, a: int, n: int): int
    requires HeapOk(h)
    requires a != 0 ==> a in h.links.next
    decreases if a != 0 then h.links.rank[a] + 1 else 0
  {
    if a == 0 then 0
    else if n <= SizeAt(h, a) then a
    else assert LinkOk(h.links, a); FirstFit(h, h.links.next[a], n)
  }

  ghost function SizeAt(h: Heap, a: int): int
    requires IsBlock(h.blocks, a)
  {
    h.blocks[IndexOf(h.blocks, a)].size
  }

  // ---------------------------------------------------------------- a block waiting to be listed

  /** A heap whose block at index `at` is flagged free but not yet on the free list. */
  datatype Pending = Pending(heap: Heap, at: nat)

  ghost predicate PendingOk(p: Pending) {
    var bs, l := p.heap.blocks, p.heap.links;
    && p.at < |bs| && bs[p.at].free && bs[p.at].addr !in l.next
    && Spaced(bs) && LinksOk(l)
    && (forall i :: 0 <= i < |bs| && i != p.at ==> (bs[i].free <==> bs[i].addr in l.next))
    && (forall a {:trigger IsBlock(bs, a)} :: a in l.next ==> IsBlock(bs, a))
  }

  /** coalesce, lines 124-139. */
  ghost function CoalesceNext(p: Pending): (r: Pending)
    requires PendingOk(p)
    ensures PendingOk(r) && r.at == p.at
    ensures r.heap.blocks == MergeNext(p.heap.blocks, p.at)
  {
    var bs, l := p.heap.blocks, p.heap.links;
    if p.at + 1 < |bs| && bs[p.at + 1].free then
      CoalesceNextOk(p);
      Pending(Heap(MergeAt(bs, p.at), Remove(l, bs[p.at + 1].addr)), p.at)
    else p
  }

  /** coalesce, lines 142-158, and expand_heap, lines 96-108. */
  ghost function CoalescePrev(p: Pending): (r: Pending)
    requires PendingOk(p)
    ensures PendingOk(r)
    ensures r.heap.blocks == MergePrev(p.heap.blocks, p.at)
  {
    var bs, l := p.heap.blocks, p.heap.links;
    if 0 < p.at && bs[p.at - 1].free then
      CoalescePrevOk(p);
      Pending(Heap(MergeAt(bs, p.at - 1), Remove(l, bs[p.at - 1].addr)), p.at - 1)
    else p
  }

  ghost function Finish(p: Pending): (h: Heap)
    requires PendingOk(p)
    ensures HeapOk(h) && h.blocks == p.heap.blocks
  {
    FinishOk(p);
    Heap(p.heap.blocks, Add(p.heap.links, p.heap.blocks[p.at].addr))
  }

  lemma MergedBlocks(bs: seq<Block>, i: nat, l: Links)
    requires Spaced(bs) && i + 1 < |bs|
    requires forall a :: a in l.next ==> IsBlock(bs, a)
    requires bs[i + 1].addr !in l.next
    ensures forall a :: a in l.next ==> IsBlock(MergeAt(bs, i), a)
  {
    var m := MergeAt(bs, i);
    forall a | a in l.next ensures IsBlock(m, a) {
      var k := IndexOf(bs, a);
      var k' := if k <= i then k else k - 1;
      assert k != i + 1 && m[k'].addr == a;
    }
  }

  lemma CoalesceNextOk(p: Pending)
    requires PendingOk(p) && p.at + 1 < |p.heap.blocks| && p.heap.blocks[p.at + 1].free
    ensures PendingOk(Pending(Heap(MergeAt(p.heap.blocks, p.at),
                                   Remove(p.heap.links, p.heap.blocks[p.at + 1].addr)), p.at))
  {
    var bs, l, i := p.heap.blocks, p.heap.links, p.at;
    var a := bs[i + 1].addr;
    RemoveOk(l, a);
    MergeSpaced(bs, i);
    AllOrdered(bs);
    MergedBlocks(bs, i, Remove(l, a));
    var m := MergeAt(bs, i);
    assert forall k :: 0 <= k < |m| && k != i ==> m[k] == if k < i then bs[k] else bs[k + 1];
  }

  lemma CoalescePrevOk(p: Pending)
    requires PendingOk(p) && 0 < p.at && p.heap.blocks[p.at - 1].free
    ensures PendingOk(Pending(Heap(MergeAt(p.heap.blocks, p.at - 1),
                                   Remove(p.heap.links, p.heap.blocks[p.at - 1].addr)), p.at - 1))
  {
    var bs, l, i := p.heap.blocks, p.heap.links, p.at - 1;
    var a := bs[i].addr;
    RemoveOk(l, a);
    MergeSpaced(bs, i);
    AllOrdered(bs);
    MergedBlocks(bs, i, Remove(l, a));
    var m := MergeAt(bs, i);
    assert forall k :: 0 <= k < |m| && k != i ==> m[k] == if k < i then bs[k] else bs[k + 1];
  }

  lemma FinishOk(p: Pending)
    requires PendingOk(p)
    ensures HeapOk(Heap(p.heap.blocks, Add(p.heap.links, p.heap.blocks[p.at].addr)))
  {
    AllOrdered(p.heap.blocks);
    AddOk(p.heap.links, p.heap.blocks[p.at].addr);
  }

  // ---------------------------------------------------------------- kfree

  /** kfree of NULL, of a block already free, or of a live block. */
  ghost function Kfree(h: Heap, ptr: int): (h': Heap)
    requires HeapOk(h)
    requires ptr != 0 ==> IsBlock(h.blocks, ptr - HEADER_SIZE)
    ensures HeapOk(h')
  {
    if ptr == 0 then h else
    var i := IndexOf(h.blocks, ptr - HEADER_SIZE);
    if h.blocks[i].free then h else
    Release(h, i)
  }

  ghost function Release(h: Heap, i: nat): (h': Heap)
    requires HeapOk(h) && i < |h.blocks| && !h.blocks[i].free
    ensures HeapOk(h') && h'.blocks == FreedBlocks(h.blocks, i)
  {
    MarkOk(h, i);
    Finish(CoalescePrev(CoalesceNext(Pending(Heap(SetFree(h.blocks, i, true), h.links), i))))
  }

  lemma MarkOk(h: Heap, i: nat)
    requires HeapOk(h) && i < |h.blocks| && !h.blocks[i].free
    ensures PendingOk(Pending(Heap(SetFree(h.blocks, i, true), h.links), i))
  {
    var bs := SetFree(h.blocks, i, true);
    SetFreeSpaced(h.blocks, i, true);
    SameBlocks(h.blocks, bs, h.links);
  }

  lemma SameBlocks(bs: seq<Block>, cs: seq<Block>, l: Links)
    requires |bs| == |cs| && forall k :: 0 <= k < |bs| ==> bs[k].addr == cs[k].addr
    requires forall a :: a in l.next ==> IsBlock(bs, a)
    ensures forall a :: a in l.next ==> IsBlock(cs, a)
  {
    forall a | a in l.next ensures IsBlock(cs, a) {
      assert cs[IndexOf(bs, a)].addr == a;
    }
  }

  // ---------------------------------------------------------------- kmalloc, after the search

  /** kmalloc, lines 224-257: take the block off the list, and give back what is not needed. */
  ghost function Place(h: Heap, a: int, n: int): (h': Heap)
    requires HeapOk(h) && a in h.links.next && 8 <= n && n % 8 == 0 && n <= SizeAt(h, a)
    ensures HeapOk(h') && h'.blocks == PlacedBlocks(h.blocks, IndexOf(h.blocks, a), n)
  {
    PlaceOk(h, a, n);
    var i := IndexOf(h.blocks, a);
    var l := Remove(h.links, a);
    if n + MIN_BLOCK_SIZE <= h.blocks[i].size then
      Heap(SplitAt(h.blocks, i, n), Add(l, a + HEADER_SIZE + n))
    else
      Heap(SetFree(h.blocks, i, false), l)
  }

  lemma PlaceOk(h: Heap, a: int, n: int)
    requires HeapOk(h) && a in h.links.next && 8 <= n && n % 8 == 0 && n <= SizeAt(h, a)
    ensures var i := IndexOf(h.blocks, a);
            var l := Remove(h.links, a);
            && (n + MIN_BLOCK_SIZE <= h.blocks[i].size ==>
                  HeapOk(Heap(SplitAt(h.blocks, i, n), Add(l, a + HEADER_SIZE + n))))
            && HeapOk(Heap(SetFree(h.blocks, i, false), l))
  {
    var bs, i := h.blocks, IndexOf(h.blocks, a);
    var l := Remove(h.links, a);
    RemoveOk(h.links, a);
    AllOrdered(bs);
    SetFreeSpaced(bs, i, false);
    SameBlocks(bs, SetFree(bs, i, false), l);
    if n + MIN_BLOCK_SIZE <= bs[i].size {
      SplitOk(h, i, n);
    }
  }

  lemma SplitOk(h: Heap, i: nat, n: int)
    requires HeapOk(h) && i < |h.blocks| && h.blocks[i].free
    requires 8 <= n && n % 8 == 0 && n + MIN_BLOCK_SIZE <= h.blocks[i].size
    ensures HeapOk(Heap(SplitAt(h.blocks, i, n),
                        Add(Remove(h.links, h.blocks[i].addr), h.blocks[i].addr + HEADER_SIZE + n)))
  {
    var a := h.blocks[i].addr;
    var l, b := Remove(h.links, a), a + HEADER_SIZE + n;
    RemoveOk(h.links, a);
    SplitSpaced(h.blocks, i, n);
    SplitAddressIsNew(h, i, n);
    assert BlockOk(h.blocks[i]);
    AddOk(l, b);
    SplitBlocks(h.blocks, i, n, Add(l, b));
    SplitFlags(h, i, n, Add(l, b));
  }

  lemma SplitFlags(h: Heap, i: nat, n: int, l: Links)
    requires HeapOk(h) && i < |h.blocks| && 0 <= n && n + MIN_BLOCK_SIZE <= h.blocks[i].size
    requires l.next.Keys == h.links.next.Keys - {h.blocks[i].addr} + {h.blocks[i].addr + HEADER_SIZE + n}
    ensures var m := SplitAt(h.blocks, i, n);
            forall k :: 0 <= k < |m| ==> (m[k].free <==> m[k].addr in l.next)
  {
    var bs, m := h.blocks, SplitAt(h.blocks, i, n);
    AllOrdered(bs);
    forall k | 0 <= k < |m| ensures m[k].free <==> m[k].addr in l.next {
      if k < i {
        assert m[k] == bs[k];
      } else if i + 1 < k {
        assert m[k] == bs[k - 1];
      }
    }
  }

  lemma SplitAddressIsNew(h: Heap, i: nat, n: int)
    requires HeapOk(h) && i < |h.blocks| && 0 <= n && n + MIN_BLOCK_SIZE <= h.blocks[i].size
    ensures h.blocks[i].addr + HEADER_SIZE + n !in h.links.next
  {
    var b := h.blocks[i].addr + HEADER_SIZE + n;
    AllOrdered(h.blocks);
    assert b in h.links.next ==> IsBlock(h.blocks, b);
  }

  lemma SplitBlocks(bs: seq<Block>, i: nat, n: int, l: Links)
    requires i < |bs|
    requires forall a :: a in l.next ==> IsBlock(bs, a) || a == bs[i].addr + HEADER_SIZE + n
    ensures forall a :: a in l.next ==> IsBlock(SplitAt(bs, i, n), a)
  {
    var m := SplitAt(bs, i, n);
    forall x | x in l.next ensures IsBlock(m, x) {
      var k := IndexOf(bs, x);
      assert m[if k == |bs| then i + 1 else if k <= i then k else k + 1].addr == x;
    }
  }
}
