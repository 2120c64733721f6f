/** Laws that tie kmalloc, kfree and expand_heap together. */
module HeapLaws {
  import opened Machine
  import opened HeapModel
  import opened FreeLinks
  import opened Blocks
  import opened HeapOps
  import opened HeapGrowth

  // ---------------------------------------------------------------- kfree undoes kmalloc

  predicate FreeLeft(bs: seq<Block>, i: nat) {
    0 < i <= |bs| && bs[i - 1].free
  }

  predicate FreeRight(bs: seq<Block>, i: nat) {
    i + 1 < |bs| && bs[i + 1].free
  }

  /** A split and the forward merge that follows the release cancel out. */
  lemma SplitThenMerge(bs: seq<Block>, i: nat, n: int)
    requires i < |bs| && bs[i].free
    ensures MergeAt(SetFree(SplitAt(bs, i, n), i, true), i) == bs
  {
    var m := SetFree(SplitAt(bs, i, n), i, true);
    assert m[..i] == bs[..i] && m[i + 2..] == bs[i + 1..];
    assert Block(m[i].addr, m[i].size + HEADER_SIZE + m[i + 1].size, m[i].free) == bs[i];
    assert bs == bs[..i] + [bs[i]] + bs[i + 1..];
  }

  /** When releasing a block just placed gives back the list as it was. */
  lemma PlacedThenFreed(bs: seq<Block>, i: nat, n: int)
    requires i < |bs| && bs[i].free
    ensures FreedBlocks(PlacedBlocks(bs, i, n), i) == bs
       <==> !FreeLeft(bs, i) && (n + MIN_BLOCK_SIZE <= bs[i].size || !FreeRight(bs, i))
  {
    var p := PlacedBlocks(bs, i, n);
    var m := SetFree(p, i, true);
    if n + MIN_BLOCK_SIZE <= bs[i].size {
      SplitThenMerge(bs, i, n);
      assert MergeNext(m, i) == bs;
    } else {
      assert m == bs;
    }
    var q := MergeNext(m, i);
    assert FreeLeft(bs, i) ==> |MergePrev(q, i)| < |q| <= |bs|;
  }

  lemma IndexOfPlaced(h: Heap, a: int, n: int)
    requires HeapOk(h) && a in h.links.next && 8 <= n && n % 8 == 0 && n <= SizeAt(h, a)
    ensures var p, i := Place(h, a, n), IndexOf(h.blocks, a);
            IndexOf(p.blocks, a) == i && i < |p.blocks| && !p.blocks[i].free
  {
    var p, i := Place(h, a, n), IndexOf(h.blocks, a);
    assert p.blocks[i].addr == a && !p.blocks[i].free;
    IndexOfBlock(p.blocks, i);
  }

  /** The block at a could be placed and released without a trace on the physical list. */
  ghost predicate Reversible(h: Heap, a: int, size: int)
    requires IsBlock(h.blocks, a)
  {
    var i := IndexOf(h.blocks, a);
    !FreeLeft(h.blocks, i) && (size + MIN_BLOCK_SIZE <= SizeAt(h, a) || !FreeRight(h.blocks, i))
  }

  lemma FreeUndoesPlace(h: Heap, a: int, n: int)
    requires HeapOk(h) && a in h.links.next && 8 <= n && n % 8 == 0 && n <= SizeAt(h, a)
    ensures var p := Place(h, a, n);
            && IsBlock(p.blocks, a) && a + HEADER_SIZE != 0
            && (Kfree(p, a + HEADER_SIZE).blocks == h.blocks <==> Reversible(h, a, n))
  {
    var i := IndexOf(h.blocks, a);
    assert BlockOk(h.blocks[i]);
    IndexOfPlaced(h, a, n);
    PlacedThenFreed(h.blocks, i, n);
    assert Kfree(Place(h, a, n), a + HEADER_SIZE).blocks == FreedBlocks(PlacedBlocks(h.blocks, i, n), i);
  }

  /** Freeing what a request without expansion just returned restores the physical list
      (addresses, sizes, flags) exactly when the block used had no free left neighbour and
      either was split or had no free right neighbour. */
  lemma FreeUndoesMalloc(s: System, n: nat)
    requires SystemOk(s)
    requires 0 < n && FirstFit(s.heap, s.heap.links.head, RoundUp(n)) != 0
    ensures var r, a := Kmalloc(s, n), FirstFit(s.heap, s.heap.links.head, RoundUp(n));
            && r.ptr == a + HEADER_SIZE && r.ptr != 0 && r.sys.supply == s.supply
            && IsBlock(s.heap.blocks, a) && IsBlock(r.sys.heap.blocks, a)
            && (Kfree(r.sys.heap, r.ptr).blocks == s.heap.blocks <==> Reversible(s.heap, a, RoundUp(n)))
  {
    FirstFitFits(s.heap, s.heap.links.head, RoundUp(n));
    FreeUndoesPlace(s.heap, FirstFit(s.heap, s.heap.links.head, RoundUp(n)), RoundUp(n));
  }

  // ---------------------------------------------------------------- the second search

  lemma {:induction false} ChainEnrolled(l: Links, l': Links, a: int)
    requires LinksOk(l) && LinksOk(l') && Enrolled(l, l') && (a != 0 ==> a in l.next)
    ensures Chain(l', a) == Chain(l, a)
    decreases if a != 0 then l.rank[a] + 1 else 0
  {
    if a != 0 {
      assert LinkOk(l, a);
      ChainEnrolled(l, l', l.next[a]);
    }
  }

  /** The links just before expand_heap lists its first page still extend the old ones. */
  lemma GrownLinks(s: System, k: nat)
    requires SystemOk(s) && 0 < k <= |s.supply|
    ensures var g := Grow(s, k);
            var d := Drop(g.heap.links, s.supply[0]);
            && g.heap.blocks[|s.heap.blocks|] == Block(s.supply[0], PAGE_PAYLOAD, true)
            && g.heap.blocks[..|s.heap.blocks|] == s.heap.blocks
            && LinksOk(d) && Enrolled(s.heap.links, d) && Unlinked(d, s.supply[0])
  {
    AppendPagesOk(s, k);
    AppendedBlocks(s.heap, s.supply, k);
    FirstPageUnlinked(s, k);
    FirstFrameIsNew(s);
    DropOk(Grow(s, k).heap.links, s.supply[0]);
  }

  /** The list that the page or the merged block is pushed onto. */
  ghost function ListBehind(h: Heap): seq<int>
    requires HeapOk(h)
  {
    var bs, l := h.blocks, h.links;
    if bs == [] || !bs[|bs| - 1].free then FreeList(l) else
    var a := bs[|bs| - 1].addr;
    if a in FreeList(l) then Without(FreeList(l), a)
    else if l.prev[a] != 0 then FreeList(l)
    else assert LinkOk(l, a); Chain(l, l.next[a])
  }

  /** The block expand_heap puts at the head of the free list. */
  function Frontmost(s: System): Block
    requires s.supply != []
  {
    var bs := s.heap.blocks;
    if bs != [] && bs[|bs| - 1].free
    then bs[|bs| - 1].(size := bs[|bs| - 1].size + PAGE_SIZE)
    else Block(s.supply[0], PAGE_PAYLOAD, true)
  }

  /** The links after expand_heap has listed its first page. */
  lemma AdoptedLinks(h: Heap, i: nat)
    requires HeapOk(h) && i < |h.blocks| && h.blocks[i].free && Unlinked(h.links, h.blocks[i].addr)
    ensures var d := Drop(h.links, h.blocks[i].addr);
            if 0 < i && h.blocks[i - 1].free
            then && h.blocks[i - 1].addr in d.next && h.blocks[i - 1].addr in d.prev
                 && Adopt(h, i).links == Add(Remove(d, h.blocks[i - 1].addr), h.blocks[i - 1].addr)
            else Adopt(h, i).links == Add(d, h.blocks[i].addr)
  {
    AdoptOk(h, i);
  }

  lemma ListLeft(h: Heap, d: Links, a: int)
    requires HeapOk(h) && LinksOk(d) && Enrolled(h.links, d)
    requires h.blocks != [] && h.blocks[|h.blocks| - 1] == Block(a, h.blocks[|h.blocks| - 1].size, true)
    ensures a in d.next && a in d.prev && LinksOk(Remove(d, a)) && Unlinked(Remove(d, a), a)
    ensures FreeList(Remove(d, a)) == ListBehind(h)
  {
    var l := h.links;
    assert LinkOk(l, a);
    ChainEnrolled(l, d, l.head);
    ChainEnrolled(l, d, l.next[a]);
    RemoveCases(d, a);
    RemoveOk(d, a);
  }

  /** The links after a successful expansion; d is what they are just before the last step. */
  lemma ExpandedLinks(s: System, pages: nat) returns (d: Links)
    requires SystemOk(s) && 0 < pages <= |s.supply|
    ensures LinksOk(d) && Enrolled(s.heap.links, d) && Unlinked(d, s.supply[0])
    ensures var bs, l := s.heap.blocks, Expand(s, pages).sys.heap.links;
            if bs != [] && bs[|bs| - 1].free
            then && bs[|bs| - 1].addr in d.next && bs[|bs| - 1].addr in d.prev
                 && l == Add(Remove(d, bs[|bs| - 1].addr), bs[|bs| - 1].addr)
            else l == Add(d, s.supply[0])
  {
    var g, i := Grow(s, pages).heap, |s.heap.blocks|;
    GrownLinks(s, pages);
    d := Drop(g.links, s.supply[0]);
    AdoptedLinks(g, i);
    assert 0 < i ==> g.blocks[i - 1] == g.blocks[..i][i - 1];
  }

  /** expand_heap puts one block in front and nothing else on the list. */
  lemma ExpandedList(s: System, pages: nat)
    requires SystemOk(s) && 0 < pages <= |s.supply|
    ensures FreeList(Expand(s, pages).sys.heap.links) == [Frontmost(s).addr] + ListBehind(s.heap)
  {
    var bs := s.heap.blocks;
    var d := ExpandedLinks(s, pages);
    if bs != [] && bs[|bs| - 1].free {
      ListLeft(s.heap, d, bs[|bs| - 1].addr);
      AddPushesFront(Remove(d, bs[|bs| - 1].addr), bs[|bs| - 1].addr);
    } else {
      ChainEnrolled(s.heap.links, d, d.head);
      AddPushesFront(d, s.supply[0]);
    }
  }

  lemma SizeOfBlock(h: Heap, i: nat)
    requires HeapOk(h) && i < |h.blocks|
    ensures IsBlock(h.blocks, h.blocks[i].addr) && SizeAt(h, h.blocks[i].addr) == h.blocks[i].size
  {
    IndexOfBlock(h.blocks, i);
  }

  /** The position and size of a block after the first page of `pages` joined `bs`. */
  lemma JoinedBlock(bs: seq<Block>, pages: seq<Block>, i: nat)
    requires pages != [] && pages[0].free && pages[0].size == PAGE_PAYLOAD && i < |bs| + 1
    requires i == |bs| ==> bs == [] || !bs[|bs| - 1].free
    ensures var m := MergePrev(bs + pages, |bs|);
            && i < |m|
            && m[i] == if i == |bs| then pages[0]
                       else if i == |bs| - 1 && bs[i].free then bs[i].(size := bs[i].size + PAGE_SIZE) else bs[i]
  {
    var g, n := bs + pages, |bs|;
    assert 0 < n ==> g[n - 1] == bs[n - 1];
    assert i < n ==> g[i] == bs[i];
    assert g[n] == pages[0];
  }

  /** One free block for each of the first k frames. */
  function Pages(frames: seq<int>, k: nat): seq<Block>
    requires k <= |frames|
  {
    seq(k, j requires 0 <= j < k => Block(frames[j], PAGE_PAYLOAD, true))
  }

  lemma ExpandedBlocks(s: System, pages: nat)
    requires SystemOk(s) && 0 < pages <= |s.supply|
    ensures Expand(s, pages).sys.heap.blocks == MergePrev(s.heap.blocks + Pages(s.supply, pages), |s.heap.blocks|)
  {
    AppendedBlocks(s.heap, s.supply, pages);
  }

  /** The place of the block that expand_heap lists. */
  function FrontIndex(bs: seq<Block>): nat {
    if bs != [] && bs[|bs| - 1].free then |bs| - 1 else |bs|
  }

  lemma JoinedSize(s: System, h: Heap, pages: nat, i: nat)
    requires SystemOk(s) && 0 < pages <= |s.supply| && HeapOk(h)
    requires h.blocks == MergePrev(s.heap.blocks + Pages(s.supply, pages), |s.heap.blocks|)
    requires i < |s.heap.blocks| || i == FrontIndex(s.heap.blocks)
    ensures var b := if i == FrontIndex(s.heap.blocks) then Frontmost(s) else s.heap.blocks[i];
            IsBlock(h.blocks, b.addr) && SizeAt(h, b.addr) == b.size
  {
    JoinedBlock(s.heap.blocks, Pages(s.supply, pages), i);
    SizeOfBlock(h, i);
  }

  lemma JoinedSizeAt(s: System, h: Heap, pages: nat, x: int)
    requires SystemOk(s) && 0 < pages <= |s.supply| && HeapOk(h)
    requires h.blocks == MergePrev(s.heap.blocks + Pages(s.supply, pages), |s.heap.blocks|)
    requires IsBlock(s.heap.blocks, x) || x == Frontmost(s).addr
    ensures IsBlock(h.blocks, x)
    ensures SizeAt(h, x) == if x == Frontmost(s).addr then Frontmost(s).size else SizeAt(s.heap, x)
  {
    if x == Frontmost(s).addr {
      JoinedSize(s, h, pages, FrontIndex(s.heap.blocks));
    } else {
      JoinedSize(s, h, pages, IndexOf(s.heap.blocks, x));
    }
  }

  /** Expansion changes the size of no block but the one it merges with. */
  lemma ExpandedSize(s: System, pages: nat, x: int)
    requires SystemOk(s) && 0 < pages <= |s.supply|
    requires IsBlock(s.heap.blocks, x) || x == Frontmost(s).addr
    ensures var h := Expand(s, pages).sys.heap;
            && IsBlock(h.blocks, x)
            && SizeAt(h, x) == if x == Frontmost(s).addr then Frontmost(s).size else SizeAt(s.heap, x)
  {
    ExpandedBlocks(s, pages);
    JoinedSizeAt(s, Expand(s, pages).sys.heap, pages, x);
  }

  /** x is on the chain behind a free last block that has no prev_free: the chain that
      remove_from_free_list makes the free list. */
  ghost predicate BehindLast(h: Heap, x: int)
    requires HeapOk(h)
  {
    var bs, l := h.blocks, h.links;
    && bs != [] && bs[|bs| - 1].free && l.prev[bs[|bs| - 1].addr] == 0
    && (assert LinkOk(l, bs[|bs| - 1].addr); x in Chain(l, l.next[bs[|bs| - 1].addr]))
  }

  lemma NotListed(h: Heap, x: int)
    requires HeapOk(h) && x in ListBehind(h)
    ensures x in FreeList(h.links) || BehindLast(h, x)
  {
    if h.blocks != [] {
      WithoutMembers(FreeList(h.links), h.blocks[|h.blocks| - 1].addr);
    }
  }

  /** The search on a list that begins with `front`, over blocks whose sizes are known. */
  lemma SearchBehind(h: Heap, front: int, behind: seq<int>, size: int)
    requires HeapOk(h) && FreeList(h.links) == [front] + behind
    ensures IsBlock(h.blocks, front) && forall x :: x in behind ==> IsBlock(h.blocks, x)
    ensures FirstFit(h, h.links.head, size) != 0 
       <==> size <= SizeAt(h, front) || exists x :: x in behind && size <= SizeAt(h, x)
  {
    FirstFitFits(h, h.links.head, size);
    assert FreeList(h.links)[0] == front;
  }

  /** What decides the second search: the block put in front, and the chain brought back. */
  ghost predicate Refills(s: System, size: int)
    requires SystemOk(s) && s.supply != []
  {
    size <= Frontmost(s).size
    || exists x :: BehindLast(s.heap, x) && IsBlock(s.heap.blocks, x) && size <= SizeAt(s.heap, x)
  }

  lemma FrontOrBehind(s: System, pages: nat, x: int, size: int)
    requires SystemOk(s) && 0 < pages <= |s.supply|
    requires FirstFit(s.heap, s.heap.links.head, size) == 0
    requires x in ListBehind(s.heap)
    ensures var h := Expand(s, pages).sys.heap;
            IsBlock(h.blocks, x) && (size <= SizeAt(h, x) ==> Refills(s, size))
  {
    BehindAreBlocks(s.heap);
    ExpandedSize(s, pages, x);
    NotListed(s.heap, x);
    FirstFitFits(s.heap, s.heap.links.head, size);
  }

  lemma RefillsFound(s: System, pages: nat, size: int)
    requires SystemOk(s) && 0 < pages <= |s.supply|
    requires FirstFit(s.heap, s.heap.links.head, size) == 0
    requires Refills(s, size)
    ensures var h := Expand(s, pages).sys.heap;
            FirstFit(h, h.links.head, size) != 0
  {
    var h := Expand(s, pages).sys.heap;
    ExpandedList(s, pages);
    SearchBehind(h, Frontmost(s).addr, ListBehind(s.heap), size);
    ExpandedSize(s, pages, Frontmost(s).addr);
    if Frontmost(s).size < size {
      var x :| BehindLast(s.heap, x) && IsBlock(s.heap.blocks, x) && size <= SizeAt(s.heap, x);
      FirstFitFits(s.heap, s.heap.links.head, size);
      BehindIsListed(s.heap, x);
      ExpandedSize(s, pages, x);
      SizeOfBlock(s.heap, |s.heap.blocks| - 1);
    }
  }

  /** When kmalloc's second search succeeds: after a failed first search and a successful
      expansion it finds a block exactly when the request fits the block put in front, or
      one of the chain that the merge brought back. */
  lemma SecondSearch(s: System, pages: nat, size: int)
    requires SystemOk(s) && 0 < pages <= |s.supply|
    requires FirstFit(s.heap, s.heap.links.head, size) == 0
    ensures var h := Expand(s, pages).sys.heap;
            FirstFit(h, h.links.head, size) != 0 <==> Refills(s, size)
  {
    var h := Expand(s, pages).sys.heap;
    if Refills(s, size) {
      RefillsFound(s, pages, size);
    } else {
      ExpandedList(s, pages);
      SearchBehind(h, Frontmost(s).addr, ListBehind(s.heap), size);
      ExpandedSize(s, pages, Frontmost(s).addr);
      forall x | x in ListBehind(s.heap) ensures SizeAt(h, x) < size {
        FrontOrBehind(s, pages, x, size);
      }
    }
  }

  lemma BehindAreBlocks(h: Heap)
    requires HeapOk(h)
    ensures forall x :: x in ListBehind(h) ==> IsBlock(h.blocks, x)
  {
    var bs, l := h.blocks, h.links;
    if l.head != 0 { ChainFalls(l, l.head); }
    if bs != [] && bs[|bs| - 1].free {
      var n := l.next[bs[|bs| - 1].addr];
      WithoutMembers(FreeList(l), bs[|bs| - 1].addr);
      assert LinkOk(l, bs[|bs| - 1].addr);
      if n != 0 { ChainFalls(l, n); }
    }
  }

  lemma BehindIsListed(h: Heap, x: int)
    requires HeapOk(h) && BehindLast(h, x)
    ensures x in ListBehind(h) || x in FreeList(h.links)
  {
    var bs, l := h.blocks, h.links;
    var a := bs[|bs| - 1].addr;
    if a in FreeList(l) {
      if a != l.head { ChainEntry(l, l.head, a); }
    }
  }

  lemma ExpandAndRetryAnswers(s: System, pages: nat, size: nat)
    requires SystemOk(s) && 8 <= size && size % 8 == 0 && 0 < pages <= |s.supply|
    requires FirstFit(s.heap, s.heap.links.head, size) == 0
    ensures RetryAfter(Expand(s, pages), size).ptr != 0 <==> Refills(s, size)
  {
    SecondSearch(s, pages, size);
    RetryAnswers(Expand(s, pages).sys, size);
  }

  lemma RetryAnswers(s: System, size: nat)
    requires SystemOk(s) && 8 <= size && size % 8 == 0
    ensures Retry(s, size).ptr != 0 <==> FirstFit(s.heap, s.heap.links.head, size) != 0
  {
    var fit := FirstFit(s.heap, s.heap.links.head, size);
    FirstFitFits(s.heap, s.heap.links.head, size);
    assert fit != 0 ==> BlockOk(s.heap.blocks[IndexOf(s.heap.blocks, fit)]);
  }

  lemma HitServed(s: System, n: nat)
    requires SystemOk(s) && 0 < n && FirstFit(s.heap, s.heap.links.head, RoundUp(n)) != 0
    ensures Kmalloc(s, n).ptr != 0
  {
    var fit := FirstFit(s.heap, s.heap.links.head, RoundUp(n));
    FirstFitFits(s.heap, s.heap.links.head, RoundUp(n));
    assert BlockOk(s.heap.blocks[IndexOf(s.heap.blocks, fit)]);
  }

  lemma MissServed(s: System, n: nat)
    requires SystemOk(s) && 0 < n && FirstFit(s.heap, s.heap.links.head, RoundUp(n)) == 0
    requires PagesNeeded(RoundUp(n) + HEADER_SIZE) <= |s.supply|
    ensures Kmalloc(s, n).ptr != 0 <==> Refills(s, RoundUp(n))
  {
    MissAnswers(s, RoundUp(n));
  }

  lemma MissAnswers(s: System, size: nat)
    requires SystemOk(s) && 8 <= size && size % 8 == 0 && FirstFit(s.heap, s.heap.links.head, size) == 0
    requires PagesNeeded(size + HEADER_SIZE) <= |s.supply|
    ensures OnMiss(s, size).ptr != 0 <==> Refills(s, size)
  {
    ExpandAndRetryAnswers(s, PagesNeeded(size + HEADER_SIZE), size);
  }

  /** Exactly when kmalloc answers a positive request, on every path: the first search finds a
      block, or the frames suffice and the expansion refills the list. */
  lemma RequestServed(s: System, n: nat)
    requires SystemOk(s) && 0 < n
    ensures Kmalloc(s, n).ptr != 0
       <==> || FirstFit(s.heap, s.heap.links.head, RoundUp(n)) != 0
            || (PagesNeeded(RoundUp(n) + HEADER_SIZE) <= |s.supply| && Refills(s, RoundUp(n)))
  {
    if FirstFit(s.heap, s.heap.links.head, RoundUp(n)) != 0 {
      HitServed(s, n);
    } else if PagesNeeded(RoundUp(n) + HEADER_SIZE) <= |s.supply| {
      MissServed(s, n);
    } else {
      StarvedServed(s, n);
    }
  }

  lemma StarvedServed(s: System, n: nat)
    requires SystemOk(s) && 0 < n && FirstFit(s.heap, s.heap.links.head, RoundUp(n)) == 0
    requires |s.supply| < PagesNeeded(RoundUp(n) + HEADER_SIZE)
    ensures Kmalloc(s, n).ptr == 0
  {
    assert !Expand(s, PagesNeeded(RoundUp(n) + HEADER_SIZE)).ok;
  }

  /** Requests of at most 4048 rounded bytes never meet the "should not happen" exit. */
  lemma SmallRequestServed(s: System, n: nat)
    requires SystemOk(s) && 0 < n && RoundUp(n) <= PAGE_PAYLOAD
    requires PagesNeeded(RoundUp(n) + HEADER_SIZE) <= |s.supply|
    ensures Kmalloc(s, n).ptr != 0
  {
    if FirstFit(s.heap, s.heap.links.head, RoundUp(n)) == 0 {
      MissServed(s, n);
      assert |s.heap.blocks| > 0 ==> BlockOk(s.heap.blocks[|s.heap.blocks| - 1]);
    } else {
      HitServed(s, n);
    }
  }

  /** Larger requests do, whenever the last block is live: the frames are drawn, yet the
      answer is NULL. */
  lemma LargeRequestRefused(s: System, n: nat)
    requires SystemOk(s) && PAGE_PAYLOAD < RoundUp(n)
    requires FirstFit(s.heap, s.heap.links.head, RoundUp(n)) == 0
    requires PagesNeeded(RoundUp(n) + HEADER_SIZE) <= |s.supply|
    requires s.heap.blocks != [] && !s.heap.blocks[|s.heap.blocks| - 1].free
    ensures Kmalloc(s, n).ptr == 0
    ensures |Kmalloc(s, n).sys.supply| == |s.supply| - PagesNeeded(RoundUp(n) + HEADER_SIZE)
  {
    MissServed(s, n);
  }
}
