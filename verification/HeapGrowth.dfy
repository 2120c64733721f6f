/** expand_heap and kmalloc on heap values. */
module HeapGrowth {
  import opened Machine
  import opened HeapModel
  import opened FreeLinks
  import opened Blocks
  import opened HeapOps

  // ---------------------------------------------------------------- the frame loop

  function AppendPage(h: Heap, f: int): Heap {
    Heap(h.blocks + [Block(f, PAGE_PAYLOAD, true)], Enroll(h.links, f))
  }

  /** The heap after the first k rounds of the frame loop, lines 63-91. */
  function AppendPages(h: Heap, frames: seq<int>, k: nat): Heap
    requires k <= |frames|
  {
    if k == 0 then h else AppendPage(AppendPages(h, frames, k - 1), frames[k - 1])
  }

  lemma AppendPageOk(h: Heap, f: int)
    requires HeapOk(h) && FrameOk(f) && Behind(h.blocks, f)
    ensures HeapOk(AppendPage(h, f)) && Unlinked(AppendPage(h, f).links, f) && f !in h.links.next
  {
    var bs, cs := h.blocks, AppendPage(h, f).blocks;
    AllOrdered(bs);
    AppendSpaced(bs, f);
    assert f in h.links.next ==> IsBlock(bs, f);
    EnrollOk(h.links, f);
    forall i | 0 <= i < |cs| ensures cs[i].free <==> cs[i].addr in Enroll(h.links, f).next {
      if i < |bs| {
        assert cs[i] == bs[i] && bs[i].addr != f;
      }
    }
    forall a | a in Enroll(h.links, f).next ensures IsBlock(cs, a) {
      assert cs[if a == f then |bs| else IndexOf(bs, a)].addr == a;
    }
  }

  /** The old blocks, then one free block per frame. */
  lemma {:induction false} AppendedBlocks(h: Heap, frames: seq<int>, k: nat)
    requires k <= |frames|
    ensures AppendPages(h, frames, k).blocks
      == h.blocks + seq(k, j requires 0 <= j < k => Block(frames[j], PAGE_PAYLOAD, true))
  {
    if k > 0 {
      AppendedBlocks(h, frames, k - 1);
    }
  }

  /** l' is l with some more addresses, all of them free and linked to nothing. */
  ghost predicate Enrolled(l: Links, l': Links) {
    && l'.head == l.head && l.next.Keys <= l'.next.Keys && l.prev.Keys <= l'.prev.Keys
    && (forall a :: a in l'.next ==> l'.next[a] == if a in l.next then l.next[a] else 0)
    && (forall a :: a in l'.prev ==> l'.prev[a] == if a in l.prev then l.prev[a] else 0)
  }

  /** Frames extend the heap page by page; the pages are free but not linked, and the links of
      the older blocks stay as they were. */
  lemma {:induction false} AppendPagesOk(s: System, k: nat)
    requires SystemOk(s) && k <= |s.supply|
    ensures HeapOk(AppendPages(s.heap, s.supply, k))
    ensures Enrolled(s.heap.links, AppendPages(s.heap, s.supply, k).links)
    ensures k < |s.supply| ==> Behind(AppendPages(s.heap, s.supply, k).blocks, s.supply[k])
    decreases k
  {
    if k > 0 {
      AppendPagesOk(s, k - 1);
      var h := AppendPages(s.heap, s.supply, k - 1);
      assert FrameAhead(s, k - 1);
      AppendPageOk(h, s.supply[k - 1]);
    }
    assert k < |s.supply| ==> FrameAhead(s, k);
  }

  /** A frame behind the heap is not yet one of its blocks. */
  lemma FirstFrameIsNew(s: System)
    requires SystemOk(s) && s.supply != []
    ensures s.supply[0] !in s.heap.links.next
  {
    var bs := s.heap.blocks;
    AllOrdered(bs);
    assert FrameAhead(s, 0);
    assert s.supply[0] in s.heap.links.next ==> IsBlock(bs, s.supply[0]);
    assert forall i :: 0 <= i < |bs| ==> bs[i].addr < s.supply[0];
  }

  lemma FirstPageUnlinked(s: System, k: nat)
    requires SystemOk(s) && k <= |s.supply|
    ensures var h := AppendPages(s.heap, s.supply, k);
            && HeapOk(h) && |h.blocks| == |s.heap.blocks| + k
            && (0 < k ==> h.blocks[|s.heap.blocks|] == Block(s.supply[0], PAGE_PAYLOAD, true)
                          && Unlinked(h.links, s.supply[0]))
  {
    AppendPagesOk(s, k);
    AppendedBlocks(s.heap, s.supply, k);
    if 0 < k {
      FirstFrameIsNew(s);
    }
  }

  // ---------------------------------------------------------------- expand_heap

  function PagesNeeded(m: nat): (r: nat)
    ensures 0 < r && m + HEADER_SIZE <= r * PAGE_SIZE < m + HEADER_SIZE + PAGE_SIZE
  {
    (m + HEADER_SIZE + PAGE_SIZE - 1) / PAGE_SIZE
  }

  /** Merging never moves the end of the heap forward. */
  lemma MergeBehind(bs: seq<Block>, i: nat)
    requires Spaced(bs) && i + 1 < |bs|
    ensures forall f :: Behind(bs, f) ==> Behind(MergeAt(bs, i), f)
  {
    var m := MergeAt(bs, i);
    assert Follows(bs, i + 1);
    assert End(m[i]) <= End(bs[i + 1]);
    assert i + 2 < |bs| ==> m[|m| - 1] == bs[|bs| - 1];
  }

  lemma MergedBehind(bs: seq<Block>, i: nat)
    requires Spaced(bs) && i < |bs|
    ensures forall f :: Behind(bs, f) ==> Behind(MergePrev(bs, i), f) && Behind(MergeNext(bs, i), f)
  {
    if 0 < i { MergeBehind(bs, i - 1); }
    if i + 1 < |bs| { MergeBehind(bs, i); }
  }

  /** How many of the wanted frames alloc_frame can still give. */
  function Drawn(s: System, pages: nat): nat {
    if pages <= |s.supply| then pages else |s.supply|
  }

  /** Lines 95-111: merge the first new page into a free predecessor, then list the result. */
  ghost function Adopt(h: Heap, i: nat): (h': Heap)
    requires HeapOk(h) && i < |h.blocks| && h.blocks[i].free && Unlinked(h.links, h.blocks[i].addr)
    ensures HeapOk(h') && h'.blocks == MergePrev(h.blocks, i)
  {
    AdoptOk(h, i);
    Finish(CoalescePrev(Pending(Heap(h.blocks, Drop(h.links, h.blocks[i].addr)), i)))
  }

  lemma AdoptOk(h: Heap, i: nat)
    requires HeapOk(h) && i < |h.blocks| && h.blocks[i].free && Unlinked(h.links, h.blocks[i].addr)
    ensures PendingOk(Pending(Heap(h.blocks, Drop(h.links, h.blocks[i].addr)), i))
  {
    AllOrdered(h.blocks);
    DropOk(h.links, h.blocks[i].addr);
  }

  /** The system after k rounds of the frame loop. */
  ghost function Grow(s: System, k: nat): (r: System)
    requires SystemOk(s) && k <= |s.supply|
    ensures SystemOk(r) && r.supply == s.supply[k..]
    ensures |r.heap.blocks| == |s.heap.blocks| + k
    ensures 0 < k ==> r.heap.blocks[|s.heap.blocks|].free && Unlinked(r.heap.links, r.heap.blocks[|s.heap.blocks|].addr)
  {
    FirstPageUnlinked(s, k);
    GrowOk(s, k);
    System(AppendPages(s.heap, s.supply, k), s.supply[k..])
  }

  lemma GrowOk(s: System, k: nat)
    requires SystemOk(s) && k <= |s.supply|
    ensures SystemOk(System(AppendPages(s.heap, s.supply, k), s.supply[k..]))
  {
    AppendPagesOk(s, k);
    var r := System(AppendPages(s.heap, s.supply, k), s.supply[k..]);
    forall j | 0 <= j < |r.supply| ensures FrameAhead(r, j) {
      assert FrameAhead(s, k + j);
    }
  }

  /** The frames stay ahead of a heap that has not grown. */
  lemma StillAhead(s: System, h: Heap)
    requires SystemOk(s) && HeapOk(h)
    requires forall f :: Behind(s.heap.blocks, f) ==> Behind(h.blocks, f)
    ensures SystemOk(System(h, s.supply))
  {
    var t := System(h, s.supply);
    forall j | 0 <= j < |t.supply| ensures FrameAhead(t, j) {
      assert FrameAhead(s, j);
    }
  }

  datatype Expansion = Expansion(sys: System, ok: bool)

  ghost function Expand(s: System, pages: nat): (r: Expansion)
    requires SystemOk(s) && 0 < pages
    ensures SystemOk(r.sys)
    ensures r.ok <==> pages <= |s.supply|
    ensures r.sys.supply == s.supply[Drawn(s, pages)..]
  {
    var k := Drawn(s, pages);
    var g := Grow(s, k);
    if k < pages then Expansion(g, false)
    else
      var h := Adopt(g.heap, |s.heap.blocks|);
      MergedBehind(g.heap.blocks, |s.heap.blocks|);
      StillAhead(g, h);
      Expansion(System(h, g.supply), true)
  }

  // ---------------------------------------------------------------- kmalloc

  function RoundUp(n: nat): (r: nat)
    ensures r % 8 == 0 && n <= r < n + 8
    ensures 0 < n ==> 8 <= r
  {
    (n + 7) / 8 * 8
  }

  datatype Served = Served(sys: System, ptr: int)

  ghost function Kmalloc(s: System, n: nat): (r: Served)
    requires SystemOk(s)
    ensures SystemOk(r.sys)
  {
    if n == 0 then Served(s, 0)
    else if FirstFit(s.heap, s.heap.links.head, RoundUp(n)) != 0 then Retry(s, RoundUp(n))
    else OnMiss(s, RoundUp(n))
  }

  /** Lines 202-221, and the placement after a successful second search. */
  ghost function OnMiss(s: System, size: nat): (r: Served)
    requires SystemOk(s) && 8 <= size && size % 8 == 0
    ensures SystemOk(r.sys) && r.sys.supply == s.supply[Drawn(s, PagesNeeded(size + HEADER_SIZE))..]
  {
    RetryAfter(Expand(s, PagesNeeded(size + HEADER_SIZE)), size)
  }

  lemma OnMissIs(s: System, size: nat, pages: nat, e: Expansion)
    requires SystemOk(s) && 8 <= size && size % 8 == 0 && pages == PagesNeeded(size + HEADER_SIZE)
    requires e == Expand(s, pages)
    ensures OnMiss(s, size) == RetryAfter(e, size)
  {
  }

  /** The same once expand_heap has returned. */
  ghost function RetryAfter(e: Expansion, size: nat): (r: Served)
    requires SystemOk(e.sys) && 8 <= size && size % 8 == 0
    ensures SystemOk(r.sys) && r.sys.supply == e.sys.supply
  {
    if e.ok then Retry(e.sys, size) else Served(e.sys, 0)
  }

  /** A search, and the placement if it finds a block. */
  ghost function Retry(s: System, size: nat): (r: Served)
    requires SystemOk(s) && 8 <= size && size % 8 == 0
    ensures SystemOk(r.sys) && r.sys.supply == s.supply
  {
    var fit := FirstFit(s.heap, s.heap.links.head, size);
    if fit == 0 then Served(s, 0) else Serve(s, fit, size)
  }

  lemma PlacedBehind(bs: seq<Block>, i: nat, n: int)
    requires i < |bs|
    ensures forall f :: Behind(bs, f) ==> Behind(PlacedBlocks(bs, i, n), f)
  {
  }

  ghost function Serve(s: System, a: int, size: nat): (r: Served)
    requires SystemOk(s) && a == FirstFit(s.heap, s.heap.links.head, size) && a != 0 && 8 <= size && size % 8 == 0
    ensures SystemOk(r.sys) && r.sys.supply == s.supply
  {
    FirstFitFits(s.heap, s.heap.links.head, size);
    PlacedBehind(s.heap.blocks, IndexOf(s.heap.blocks, a), size);
    StillAhead(s, Place(s.heap, a, size));
    Served(System(Place(s.heap, a, size), s.supply), a + HEADER_SIZE)
  }

  /** The search answers with the first block of the chain that is large enough, a free one;
      it answers 0 exactly when no block of the chain is. */
  lemma {:induction false} FirstFitFits(h: Heap, a: int, n: int)
    requires HeapOk(h) && (a != 0 ==> a in h.links.next)
    ensures var c, r := Chain(h.links, a), FirstFit(h, a, n);
            && (forall x :: x in c ==> x in h.links.next && IsBlock(h.blocks, x))
            && (r == 0 ==> forall x :: x in c ==> SizeAt(h, x) < n)
            && (r != 0 ==> r in h.links.next && n <= SizeAt(h, r)
                           && exists k :: 0 <= k < |c| && c[k] == r && forall j :: 0 <= j < k ==> SizeAt(h, c[j]) < n)
    decreases if a != 0 then h.links.rank[a] + 1 else 0
  {
    if a != 0 {
      var b := h.links.next[a];
      assert LinkOk(h.links, a);
      FirstFitFits(h, b, n);
      var c, d, r := Chain(h.links, a), Chain(h.links, b), FirstFit(h, a, n);
      assert c == [a] + d;
      if n <= SizeAt(h, a) {
        assert c[0] == r;
      } else if r != 0 {
        var k :| 0 <= k < |d| && d[k] == r && forall j :: 0 <= j < k ==> SizeAt(h, d[j]) < n;
        assert c[k + 1] == r;
      }
    }
  }
}
