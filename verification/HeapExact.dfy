/** What one call does to the heap, in plain numbers: a header is 48 bytes, a page 4096, and a
    block is split when at least 96 bytes are left. */
module HeapExact {
  import opened HeapModel
  import opened FreeLinks
  import opened Blocks
  import opened HeapOps
  import opened HeapGrowth
  import opened HeapLaws

  // ---------------------------------------------------------------- kmalloc served by its first search

  /** The search finds only listed blocks. */
  lemma FoundIsListed(h: Heap, n: int)
    requires HeapOk(h) && FirstFit(h, h.links.head, n) != 0
    ensures FirstFit(h, h.links.head, n) in FreeList(h.links)
  {
    FirstFitFits(h, h.links.head, n);
  }

  /** The physical list after a placement in the block at index i. */
  lemma PlacedExactly(h: Heap, a: int, n: int, i: nat, z: int)
    requires HeapOk(h) && a in h.links.next && 8 <= n && n % 8 == 0 && n <= SizeAt(h, a)
    requires i == IndexOf(h.blocks, a) && z == SizeAt(h, a)
    ensures Place(h, a, n).blocks
         == h.blocks[..i]
            + (if n + 96 <= z then [Block(a, n, false), Block(a + 48 + n, z - n - 48, true)] else [Block(a, z, false)])
            + h.blocks[i + 1..]
  {
    assert h.blocks == h.blocks[..i] + [h.blocks[i]] + h.blocks[i + 1..];
  }

  /** The free list after a placement in a listed block. */
  lemma PlacedList(h: Heap, a: int, n: int, z: int)
    requires HeapOk(h) && a in h.links.next && 8 <= n && n % 8 == 0 && n <= SizeAt(h, a)
    requires z == SizeAt(h, a) && a in FreeList(h.links)
    ensures FreeList(Place(h, a, n).links)
         == (if n + 96 <= z then [a + 48 + n] else []) + Without(FreeList(h.links), a)
  {
    RemoveCases(h.links, a);
    RemoveOk(h.links, a);
    if n + 96 <= z {
      SplitAddressIsNew(h, IndexOf(h.blocks, a), n);
      assert BlockOk(h.blocks[IndexOf(h.blocks, a)]);
      AddPushesFront(Remove(h.links, a), a + 48 + n);
    }
  }

  /** kmalloc(m) served by the first block of its list that is large enough, at index i with
      address a and size z. The request is rounded up to a multiple of 8; the block is split
      when 96 bytes more than that are there, and goes out whole otherwise. */
  lemma ServedExactly(s: System, m: nat, n: nat, i: nat, a: int, z: int)
    requires SystemOk(s) && 0 < m && n == (m + 7) / 8 * 8
    requires a == FirstFit(s.heap, s.heap.links.head, n) != 0
    requires i == IndexOf(s.heap.blocks, a) && i < |s.heap.blocks| && z == s.heap.blocks[i].size
    ensures var r := Kmalloc(s, m);
            && r.ptr == a + 48 && r.sys.supply == s.supply
            && r.sys.heap.blocks
               == s.heap.blocks[..i]
                  + (if n + 96 <= z then [Block(a, n, false), Block(a + 48 + n, z - n - 48, true)]
                     else [Block(a, z, false)])
                  + s.heap.blocks[i + 1..]
            && FreeList(r.sys.heap.links)
               == (if n + 96 <= z then [a + 48 + n] else []) + Without(FreeList(s.heap.links), a)
  {
    FirstFitFits(s.heap, s.heap.links.head, n);
    FoundIsListed(s.heap, n);
    PlacedExactly(s.heap, a, n, i, z);
    PlacedList(s.heap, a, n, z);
    HitIsPlace(s, m, n, a);
  }

  lemma HitIsPlace(s: System, m: nat, n: nat, a: int)
    requires SystemOk(s) && 0 < m && n == (m + 7) / 8 * 8 && a == FirstFit(s.heap, s.heap.links.head, n) != 0
    requires a in s.heap.links.next && IsBlock(s.heap.blocks, a) && n <= SizeAt(s.heap, a)
    ensures Kmalloc(s, m).ptr == a + 48 && Kmalloc(s, m).sys == System(Place(s.heap, a, n), s.supply)
  {
  }

  /** The split happens exactly from 96 bytes more on: then, and only then, the live block has the
      rounded size and a free block with the rest lies behind it. */
  lemma SplitIff(s: System, m: nat, n: nat, i: nat, a: int, z: int)
    requires SystemOk(s) && 0 < m && n == (m + 7) / 8 * 8
    requires a == FirstFit(s.heap, s.heap.links.head, n) != 0
    requires i == IndexOf(s.heap.blocks, a) && i < |s.heap.blocks| && z == s.heap.blocks[i].size
    ensures var bs := Kmalloc(s, m).sys.heap.blocks;
            && i < |bs|
            && (n + 96 <= z <==>
                  bs[i] == Block(a, n, false) && i + 1 < |bs| && bs[i + 1] == Block(a + 48 + n, z - n - 48, true))
            && (z < n + 96 ==> bs[i] == Block(a, z, false) && |bs| == |s.heap.blocks|)
  {
    ServedExactly(s, m, n, i, a, z);
    NegativeRest(s, m, i);
  }

  /** No block of a heap has a size below 8. */
  lemma NegativeRest(s: System, m: nat, i: nat)
    requires SystemOk(s)
    ensures var bs := Kmalloc(s, m).sys.heap.blocks;
            forall k :: 0 <= k < |bs| ==> 8 <= bs[k].size
  {
    var bs := Kmalloc(s, m).sys.heap.blocks;
    forall k | 0 <= k < |bs| ensures 8 <= bs[k].size {
      assert BlockOk(bs[k]);
    }
  }

  /** kmalloc(0) answers NULL and does nothing. */
  lemma NothingRequested(s: System)
    requires SystemOk(s)
    ensures Kmalloc(s, 0).ptr == 0 && Kmalloc(s, 0).sys == s
  {
  }

  // ---------------------------------------------------------------- expand_heap

  /** One free page for each of the first k frames. */
  function FreePages(frames: seq<int>, k: nat): seq<Block>
    requires k <= |frames|
  {
    seq(k, j requires 0 <= j < k => Block(frames[j], 4048, true))
  }

  /** The blocks when fresh pages come: a free last block takes in the first of them, and every
      other page is a block behind it. */
  function Extending(bs: seq<Block>, fs: seq<Block>): seq<Block>
    requires fs != []
  {
    if bs != [] && bs[|bs| - 1].free
    then bs[..|bs| - 1] + [Block(bs[|bs| - 1].addr, bs[|bs| - 1].size + 4096, true)] + fs[1..]
    else bs + fs
  }

  lemma FirstPageMerged(bs: seq<Block>, fs: seq<Block>)
    requires fs != [] && fs[0].free && fs[0].size == 4048
    ensures MergePrev(bs + fs, |bs|) == Extending(bs, fs)
  {
    var g, n := bs + fs, |bs|;
    if bs != [] {
      assert g[n - 1] == bs[n - 1] && g[n] == fs[0];
      assert g[..n - 1] == bs[..n - 1] && g[n + 1..] == fs[1..];
    }
  }

  /** expand_heap with enough frames. */
  lemma ExpandedExactly(s: System, pages: nat)
    requires SystemOk(s) && 0 < pages <= |s.supply|
    ensures Expand(s, pages).ok && Expand(s, pages).sys.supply == s.supply[pages..]
    ensures Expand(s, pages).sys.heap.blocks == Extending(s.heap.blocks, FreePages(s.supply, pages))
  {
    var fs := FreePages(s.supply, pages);
    ExpandedBlocks(s, pages);
    assert Pages(s.supply, pages) == fs;
    FirstPageMerged(s.heap.blocks, fs);
  }

  /** expand_heap without enough frames: every frame left becomes a free block behind the old ones,
      nothing is merged, the free list is as it was, and no page is linked to anything. */
  lemma FailedExactly(s: System, pages: nat)
    requires SystemOk(s) && |s.supply| < pages
    ensures var e := Expand(s, pages);
            && !e.ok && e.sys.supply == []
            && e.sys.heap.blocks == s.heap.blocks + FreePages(s.supply, |s.supply|)
            && e.sys.heap.links.head == s.heap.links.head
            && FreeList(e.sys.heap.links) == FreeList(s.heap.links)
            && forall j :: 0 <= j < |s.supply| ==> Unlinked(e.sys.heap.links, s.supply[j])
  {
    var k := |s.supply|;
    AppendedBlocks(s.heap, s.supply, k);
    AppendPagesOk(s, k);
    var l := AppendPages(s.heap, s.supply, k).links;
    ChainEnrolled(s.heap.links, l, s.heap.links.head);
    forall j | 0 <= j < k ensures Unlinked(l, s.supply[j]) {
      FrameIsNew(s, j);
    }
  }

  /** No frame of the supply is yet a block. */
  lemma FrameIsNew(s: System, j: nat)
    requires SystemOk(s) && j < |s.supply|
    ensures s.supply[j] !in s.heap.links.next && s.supply[j] != 0
  {
    FrameBehindAll(s, j);
    AllOrdered(s.heap.blocks);
    assert FrameAhead(s, j);
    assert s.supply[j] in s.heap.links.next ==> IsBlock(s.heap.blocks, s.supply[j]);
  }

  lemma {:induction false} FrameBehindAll(s: System, j: nat)
    requires SystemOk(s) && j < |s.supply|
    ensures Behind(s.heap.blocks, s.supply[j])
    decreases j
  {
    assert FrameAhead(s, j);
    if 0 < j {
      FrameBehindAll(s, j - 1);
    }
  }

  // ---------------------------------------------------------------- a request that fails for want of frames

  lemma {:induction false} SearchUnchanged(h: Heap, g: Heap, fs: seq<Block>, a: int, n: int)
    requires HeapOk(h) && HeapOk(g) && g.blocks == h.blocks + fs && Enrolled(h.links, g.links)
    requires a != 0 ==> a in h.links.next
    ensures a != 0 ==> a in g.links.next
    ensures FirstFit(g, a, n) == FirstFit(h, a, n)
    decreases if a != 0 then h.links.rank[a] + 1 else 0
  {
    if a != 0 {
      assert LinkOk(h.links, a);
      SameSize(h, g, fs, a);
      SearchUnchanged(h, g, fs, h.links.next[a], n);
    }
  }

  lemma SameSize(h: Heap, g: Heap, fs: seq<Block>, a: int)
    requires HeapOk(h) && HeapOk(g) && g.blocks == h.blocks + fs && IsBlock(h.blocks, a)
    ensures IsBlock(g.blocks, a) && SizeAt(g, a) == SizeAt(h, a)
  {
    var i := IndexOf(h.blocks, a);
    assert g.blocks[i] == h.blocks[i];
    IndexOfBlock(g.blocks, i);
  }

  /** kmalloc(m) that misses and lacks the frames, with the page count in plain numbers. */
  lemma StarvedExactly(s: System, m: nat, n: nat)
    requires SystemOk(s) && 0 < m && n == (m + 7) / 8 * 8 && FirstFit(s.heap, s.heap.links.head, n) == 0
    requires |s.supply| < (n + 48 + 48 + 4095) / 4096
    ensures var t := Kmalloc(s, m).sys;
            && Kmalloc(s, m).ptr == 0 && t.supply == []
            && t.heap.blocks == s.heap.blocks + FreePages(s.supply, |s.supply|)
            && t.heap.links.head == s.heap.links.head && FreeList(t.heap.links) == FreeList(s.heap.links)
            && forall j :: 0 <= j < |s.supply| ==> Unlinked(t.heap.links, s.supply[j])
  {
    var pages := PagesNeeded(n + HEADER_SIZE);
    FailedExactly(s, pages);
    StarvedIs(s, m, n, pages);
  }

  lemma StarvedIs(s: System, m: nat, n: nat, pages: nat)
    requires SystemOk(s) && 0 < m && n == (m + 7) / 8 * 8 && FirstFit(s.heap, s.heap.links.head, n) == 0
    requires pages == PagesNeeded(n + HEADER_SIZE) && !Expand(s, pages).ok
    ensures Kmalloc(s, m).ptr == 0 && Kmalloc(s, m).sys == Expand(s, pages).sys
  {
    OnMissIs(s, n, pages, Expand(s, pages));
    assert Kmalloc(s, m) == OnMiss(s, n);
  }

  /** After a request that failed for want of frames, a request that the list could serve before
      gets the same answer as before. */
  lemma FailureLeavesList(s: System, m: nat, n: nat, q: nat)
    requires SystemOk(s) && 0 < m && n == (m + 7) / 8 * 8 && FirstFit(s.heap, s.heap.links.head, n) == 0
    requires |s.supply| < (n + 48 + 48 + 4095) / 4096
    requires 0 < q && FirstFit(s.heap, s.heap.links.head, (q + 7) / 8 * 8) != 0
    ensures Kmalloc(Kmalloc(s, m).sys, q).ptr == Kmalloc(s, q).ptr != 0
  {
    var t, c := Kmalloc(s, m).sys, (q + 7) / 8 * 8;
    var k := |s.supply|;
    StarvedExactly(s, m, n);
    StarvedIs(s, m, n, PagesNeeded(n + HEADER_SIZE));
    AppendPagesOk(s, k);
    SearchUnchanged(s.heap, t.heap, FreePages(s.supply, k), s.heap.links.head, c);
    HitAnswers(s, q, c);
    HitAnswers(t, q, c);
  }

  lemma HitAnswers(s: System, q: nat, c: nat)
    requires SystemOk(s) && 0 < q && c == (q + 7) / 8 * 8 && FirstFit(s.heap, s.heap.links.head, c) != 0
    ensures Kmalloc(s, q).ptr == FirstFit(s.heap, s.heap.links.head, c) + 48 && Kmalloc(s, q).ptr != 0
  {
    var a := FirstFit(s.heap, s.heap.links.head, c);
    FirstFitFits(s.heap, s.heap.links.head, c);
    HitIsPlace(s, q, c, a);
    assert BlockOk(s.heap.blocks[IndexOf(s.heap.blocks, a)]);
  }

  lemma GrownIs(s: System, m: nat, n: nat, pages: nat)
    requires SystemOk(s) && 0 < m && n == (m + 7) / 8 * 8 && FirstFit(s.heap, s.heap.links.head, n) == 0
    requires pages == (n + 48 + 48 + 4095) / 4096
    ensures Kmalloc(s, m) == RetryAfter(Expand(s, pages), n)
  {
    OnMissIs(s, n, pages, Expand(s, pages));
    assert Kmalloc(s, m) == OnMiss(s, n);
  }

  /** kmalloc(m) that misses and gets its frames: their number in plain numbers, and the second
      search on the heap that expand_heap leaves. */
  lemma GrownExactly(s: System, m: nat, n: nat, pages: nat, e: System, a: int)
    requires SystemOk(s) && 0 < m && n == (m + 7) / 8 * 8 && FirstFit(s.heap, s.heap.links.head, n) == 0
    requires pages == (n + 48 + 48 + 4095) / 4096 && pages <= |s.supply|
    requires e == Expand(s, pages).sys && a == FirstFit(e.heap, e.heap.links.head, n)
    ensures Kmalloc(s, m).sys.supply == s.supply[pages..]
    ensures a == 0 ==> Kmalloc(s, m) == Served(e, 0)
    ensures a != 0 ==> a in e.heap.links.next && IsBlock(e.heap.blocks, a) && n <= SizeAt(e.heap, a)
    ensures a != 0 ==> Kmalloc(s, m).ptr == a + 48 && Kmalloc(s, m).sys.heap == Place(e.heap, a, n)
  {
    GrownIs(s, m, n, pages);
    RetriedExactly(Expand(s, pages), n, a);
  }

  lemma RetriedExactly(e: Expansion, n: nat, a: int)
    requires SystemOk(e.sys) && e.ok && 8 <= n && n % 8 == 0
    requires a == FirstFit(e.sys.heap, e.sys.heap.links.head, n)
    ensures a == 0 ==> RetryAfter(e, n) == Served(e.sys, 0)
    ensures a != 0 ==> a in e.sys.heap.links.next && IsBlock(e.sys.heap.blocks, a) && n <= SizeAt(e.sys.heap, a)
    ensures a != 0 ==> RetryAfter(e, n).ptr == a + 48 && RetryAfter(e, n).sys.heap == Place(e.sys.heap, a, n)
  {
    FirstFitFits(e.sys.heap, e.sys.heap.links.head, n);
  }

  // ---------------------------------------------------------------- kfree

  /** The blocks when block i becomes free: it takes in the block behind it, and is taken in by
      the one before it, whenever those are free. */
  function Freeing(bs: seq<Block>, i: nat): seq<Block>
    requires i < |bs|
  {
    var b := bs[i];
    var right, left := i + 1 < |bs| && bs[i + 1].free, 0 < i && bs[i - 1].free;
    bs[..if left then i - 1 else i]
    + [Block(if left then bs[i - 1].addr else b.addr,
             b.size + (if right then 48 + bs[i + 1].size else 0) + (if left then bs[i - 1].size + 48 else 0),
             true)]
    + bs[if right then i + 2 else i + 1..]
  }

  lemma RightPart(bs: seq<Block>, i: nat, c: Block)
    requires i < |bs|
    requires c.addr == bs[i].addr && c.free
    requires c.size == bs[i].size + if i + 1 < |bs| && bs[i + 1].free then 48 + bs[i + 1].size else 0
    ensures MergeNext(SetFree(bs, i, true), i)
         == bs[..i] + [c] + bs[if i + 1 < |bs| && bs[i + 1].free then i + 2 else i + 1..]
  {
  }

  lemma LeftPart(front: seq<Block>, c: Block, back: seq<Block>)
    requires c.free
    ensures MergePrev(front + [c] + back, |front|)
         == if front != [] && front[|front| - 1].free
            then front[..|front| - 1]
                 + [Block(front[|front| - 1].addr, front[|front| - 1].size + 48 + c.size, true)] + back
            else front + [c] + back
  {
    var q, i := front + [c] + back, |front|;
    assert q[i] == c && (0 < i ==> q[i - 1] == front[i - 1]);
    assert q[i + 1..] == back && (0 < i ==> q[..i - 1] == front[..i - 1]);
  }

  lemma FreedParts(bs: seq<Block>, i: nat)
    requires i < |bs|
    ensures FreedBlocks(bs, i) == Freeing(bs, i)
  {
    var right := i + 1 < |bs| && bs[i + 1].free;
    var c := Block(bs[i].addr, bs[i].size + (if right then 48 + bs[i + 1].size else 0), true);
    RightPart(bs, i, c);
    LeftPart(bs[..i], c, bs[if right then i + 2 else i + 1..]);
    assert 0 < i ==> bs[..i][..i - 1] == bs[..i - 1];
  }

  /** kfree of a live block, whatever its neighbours. */
  lemma FreedExactly(h: Heap, i: nat)
    requires HeapOk(h) && i < |h.blocks| && !h.blocks[i].free
    ensures IsBlock(h.blocks, h.blocks[i].addr) && Kfree(h, h.blocks[i].addr + 48).blocks == Freeing(h.blocks, i)
  {
    FreedParts(h.blocks, i);
    IndexOfBlock(h.blocks, i);
    assert BlockOk(h.blocks[i]);
    FreedIs(h, h.blocks[i].addr + 48, i);
  }

  lemma FreedIs(h: Heap, ptr: int, i: nat)
    requires HeapOk(h) && ptr != 0 && i < |h.blocks| && i == IndexOf(h.blocks, ptr - 48) && !h.blocks[i].free
    ensures Kfree(h, ptr) == Release(h, i)
  {
  }

  /** kfree of NULL or of a block that is free already does nothing. */
  lemma NothingFreed(h: Heap, ptr: int)
    requires HeapOk(h) && (ptr != 0 ==> IsBlock(h.blocks, ptr - 48) && h.blocks[IndexOf(h.blocks, ptr - 48)].free)
    ensures Kfree(h, ptr) == h
  {
  }
}
