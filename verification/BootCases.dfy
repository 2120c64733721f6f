/** States that the kernel reaches right after boot, in which the heap does less than its
    comments say. */
module BootCases {
  import opened Machine
  import opened HeapModel
  import opened FreeLinks
  import opened Blocks
  import opened HeapOps
  import opened HeapGrowth
  import opened HeapLaws
  import opened KfreeLists
  import opened HeapRuns
  import opened Tiling
  import opened Boot

  // ---------------------------------------------------------------- heaps without links

  /** No free block has a neighbour on a chain. */
  ghost predicate Linkless(l: Links) {
    forall x :: x in l.next && x in l.prev ==> l.next[x] == 0 && l.prev[x] == 0
  }

  /** A heap with these blocks whose free blocks have no neighbours on any chain: the list is
      empty or holds `head` alone. */
  ghost predicate Sparse(h: Heap, bs: seq<Block>, head: int) {
    HeapOk(h) && h.blocks == bs && h.links.head == head && Linkless(h.links)
  }

  lemma SparseList(h: Heap, bs: seq<Block>, head: int)
    requires Sparse(h, bs, head)
    ensures FreeList(h.links) == if head == 0 then [] else [head]
  {
    if head != 0 {
      assert LinkOk(h.links, head);
      assert Chain(h.links, 0) == [];
    }
  }

  lemma SparseFit(h: Heap, bs: seq<Block>, i: nat, n: int)
    requires i < |bs| && bs[i].free && Sparse(h, bs, bs[i].addr)
    ensures bs[i].addr in h.links.next && SizeAt(h, bs[i].addr) == bs[i].size
    ensures FirstFit(h, h.links.head, n) == if n <= bs[i].size then bs[i].addr else 0
  {
    SizeOfBlock(h, i);
    assert LinkOk(h.links, bs[i].addr);
    assert FirstFit(h, 0, n) == 0;
  }

  lemma LinklessRemove(l: Links, a: int)
    requires LinksOk(l) && Linkless(l) && a in l.next
    ensures Linkless(Remove(l, a)) && Remove(l, a).head == 0
  {
  }

  lemma LinklessAdd(l: Links, a: int)
    requires Linkless(l) && l.head == 0
    ensures Linkless(Add(l, a)) && Add(l, a).head == a
  {
  }

  /** A request served from the listed block. */
  lemma SparsePlace(h: Heap, bs: seq<Block>, i: nat, n: int)
    requires i < |bs| && bs[i].free && Sparse(h, bs, bs[i].addr) && 8 <= n <= bs[i].size && n % 8 == 0
    ensures bs[i].addr in h.links.next && SizeAt(h, bs[i].addr) == bs[i].size
    ensures Sparse(Place(h, bs[i].addr, n), PlacedBlocks(bs, i, n),
                   if n + MIN_BLOCK_SIZE <= bs[i].size then bs[i].addr + HEADER_SIZE + n else 0)
  {
    SparseFit(h, bs, i, n);
    IndexOfBlock(bs, i);
    LinklessRemove(h.links, bs[i].addr);
    LinklessAdd(Remove(h.links, bs[i].addr), bs[i].addr + HEADER_SIZE + n);
  }

  /** An expansion that merges into a free last block, or finds the list empty. */
  lemma SparseExpand(s: System, bs: seq<Block>, head: int, pages: nat)
    requires SystemOk(s) && Sparse(s.heap, bs, head) && 0 < pages <= |s.supply|
    requires head == 0 || (bs != [] && bs[|bs| - 1].free)
    ensures Sparse(Expand(s, pages).sys.heap, MergePrev(bs + Pages(s.supply, pages), |bs|), Frontmost(s).addr)
  {
    ExpandedBlocks(s, pages);
    var d := ExpandedLinks(s, pages);
    LinklessEnrolled(s.heap.links, d);
    if bs != [] && bs[|bs| - 1].free {
      LinklessRemove(d, bs[|bs| - 1].addr);
      LinklessAdd(Remove(d, bs[|bs| - 1].addr), bs[|bs| - 1].addr);
    } else {
      LinklessAdd(d, s.supply[0]);
    }
  }

  lemma LinklessEnrolled(l: Links, d: Links)
    requires LinksOk(l) && LinksOk(d) && Linkless(l) && Enrolled(l, d)
    ensures Linkless(d) && d.head == l.head
  {
  }

  /** A release that merges a neighbour, or finds the list empty. */
  lemma SparseRelease(h: Heap, bs: seq<Block>, head: int, i: nat)
    requires Sparse(h, bs, head) && i < |bs| && !bs[i].free
    requires head == 0 || FreeLeft(bs, i) || FreeRight(bs, i)
    ensures Sparse(Release(h, i), FreedBlocks(bs, i), Listed(h, i))
  {
    var l := h.links;
    NeighboursAre(h, i);
    var g := ReleaseLinks(h, i);
    if FreeRight(bs, i) {
      LinklessRemove(l, bs[i + 1].addr);
      RemoveOk(l, bs[i + 1].addr);
    }
    if FreeLeft(bs, i) {
      LinklessRemove(if FreeRight(bs, i) then Remove(l, bs[i + 1].addr) else l, bs[i - 1].addr);
    }
    LinklessAdd(g, Listed(h, i));
  }

  // ---------------------------------------------------------------- one call at such a heap

  ghost predicate At(s: System, bs: seq<Block>, head: int) {
    SystemOk(s) && Sparse(s.heap, bs, head)
  }

  /** kmalloc served by the listed block. */
  lemma AtServe(s: System, bs: seq<Block>, i: nat, n: nat)
    requires i < |bs| && bs[i].free && At(s, bs, bs[i].addr) && 0 < n && RoundUp(n) <= bs[i].size
    ensures Kmalloc(s, n).ptr == bs[i].addr + HEADER_SIZE && Kmalloc(s, n).sys.supply == s.supply
    ensures At(Kmalloc(s, n).sys, PlacedBlocks(bs, i, RoundUp(n)),
               if RoundUp(n) + MIN_BLOCK_SIZE <= bs[i].size then bs[i].addr + HEADER_SIZE + RoundUp(n) else 0)
  {
    SparseFit(s.heap, bs, i, RoundUp(n));
    SparsePlace(s.heap, bs, i, RoundUp(n));
    assert BlockOk(bs[i]);
  }

  /** The blocks with one page merged into the last. */
  function Grown(bs: seq<Block>): seq<Block>
    requires bs != []
  {
    bs[|bs| - 1 := bs[|bs| - 1].(size := bs[|bs| - 1].size + PAGE_SIZE)]
  }

  /** kmalloc with an empty list, one page and a free last block: wherever the page lies, its
      bytes are counted as if it lay behind that block. */
  lemma AtGrow(s: System, bs: seq<Block>, n: nat)
    requires bs != [] && bs[|bs| - 1].free && At(s, bs, 0) && s.supply != []
    requires 0 < n && PagesNeeded(RoundUp(n) + HEADER_SIZE) == 1
    requires RoundUp(n) + MIN_BLOCK_SIZE <= bs[|bs| - 1].size + PAGE_SIZE
    ensures Kmalloc(s, n).ptr == bs[|bs| - 1].addr + HEADER_SIZE && Kmalloc(s, n).sys.supply == s.supply[1..]
    ensures At(Kmalloc(s, n).sys, SplitAt(Grown(bs), |bs| - 1, RoundUp(n)),
               bs[|bs| - 1].addr + HEADER_SIZE + RoundUp(n))
  {
    assert FirstFit(s.heap, 0, RoundUp(n)) == 0;
    assert Kmalloc(s, n) == OnMiss(s, RoundUp(n));
    MissGrows(s, bs, RoundUp(n));
  }

  lemma MissGrows(s: System, bs: seq<Block>, size: nat)
    requires bs != [] && bs[|bs| - 1].free && At(s, bs, 0) && s.supply != [] && 8 <= size && size % 8 == 0
    requires PagesNeeded(size + HEADER_SIZE) == 1 && size + MIN_BLOCK_SIZE <= bs[|bs| - 1].size + PAGE_SIZE
    ensures OnMiss(s, size).ptr == bs[|bs| - 1].addr + HEADER_SIZE
    ensures Sparse(OnMiss(s, size).sys.heap, SplitAt(Grown(bs), |bs| - 1, size),
                   bs[|bs| - 1].addr + HEADER_SIZE + size)
  {
    SparseExpand(s, bs, 0, 1);
    MergedLast(bs, Pages(s.supply, 1));
    OnMissIs(s, size, 1, Expand(s, 1));
    AfterServes(Expand(s, 1), Grown(bs), |bs| - 1, size);
  }

  lemma AfterServes(e: Expansion, bs: seq<Block>, i: nat, size: nat)
    requires e.ok && i < |bs| && bs[i].free && At(e.sys, bs, bs[i].addr) && 8 <= size && size % 8 == 0
    requires size + MIN_BLOCK_SIZE <= bs[i].size
    ensures RetryAfter(e, size).ptr == bs[i].addr + HEADER_SIZE
    ensures Sparse(RetryAfter(e, size).sys.heap, SplitAt(bs, i, size), bs[i].addr + HEADER_SIZE + size)
  {
    RetryServes(e.sys, bs, i, size);
  }

  lemma RetryServes(s: System, bs: seq<Block>, i: nat, size: nat)
    requires i < |bs| && bs[i].free && At(s, bs, bs[i].addr) && 8 <= size <= bs[i].size && size % 8 == 0
    ensures Retry(s, size).ptr == bs[i].addr + HEADER_SIZE
    ensures Sparse(Retry(s, size).sys.heap, PlacedBlocks(bs, i, size),
                   if size + MIN_BLOCK_SIZE <= bs[i].size then bs[i].addr + HEADER_SIZE + size else 0)
  {
    SparseFit(s.heap, bs, i, size);
    SparsePlace(s.heap, bs, i, size);
    assert BlockOk(bs[i]);
  }

  lemma MergedLast(bs: seq<Block>, pages: seq<Block>)
    requires bs != [] && bs[|bs| - 1].free && |pages| == 1 && pages[0].size == PAGE_PAYLOAD
    ensures MergePrev(bs + pages, |bs|) == Grown(bs)
  {
    var g := bs + pages;
    assert g[|bs| - 1] == bs[|bs| - 1] && g[|bs|] == pages[0];
    assert g[..|bs| - 1] == bs[..|bs| - 1];
  }

  /** kmalloc of more than the listed block, and more than the last one with a page, holds: the
      pages are drawn, and the answer is NULL. */
  lemma AtRefused(s: System, bs: seq<Block>, head: nat, n: nat, pages: nat)
    requires bs != [] && bs[|bs| - 1].free && head < |bs| && bs[head].free && At(s, bs, bs[head].addr)
    requires 0 < n && bs[head].size < RoundUp(n) && bs[|bs| - 1].size + PAGE_SIZE < RoundUp(n)
    requires pages == PagesNeeded(RoundUp(n) + HEADER_SIZE) <= |s.supply|
    ensures Kmalloc(s, n).ptr == 0
    ensures At(Kmalloc(s, n).sys, MergePrev(bs + Pages(s.supply, pages), |bs|), bs[|bs| - 1].addr)
  {
    SparseFit(s.heap, bs, head, RoundUp(n));
    assert Kmalloc(s, n) == OnMiss(s, RoundUp(n));
    MissRefused(s, bs, head, RoundUp(n), pages);
  }

  lemma DrawsPages(s: System, n: nat, pages: nat)
    requires SystemOk(s) && 0 < n && FirstFit(s.heap, s.heap.links.head, RoundUp(n)) == 0
    requires pages == PagesNeeded(RoundUp(n) + HEADER_SIZE) <= |s.supply|
    ensures Kmalloc(s, n).sys.supply == s.supply[pages..]
  {
    WantedIsDrawn(s, Malloc(n));
  }

  lemma MissRefused(s: System, bs: seq<Block>, head: nat, size: nat, pages: nat)
    requires bs != [] && bs[|bs| - 1].free && head < |bs| && bs[head].free && At(s, bs, bs[head].addr)
    requires 8 <= size && size % 8 == 0 && bs[|bs| - 1].size + PAGE_SIZE < size
    requires pages == PagesNeeded(size + HEADER_SIZE) <= |s.supply|
    ensures OnMiss(s, size).ptr == 0
    ensures Sparse(OnMiss(s, size).sys.heap, MergePrev(bs + Pages(s.supply, pages), |bs|), bs[|bs| - 1].addr)
  {
    SparseExpand(s, bs, bs[head].addr, pages);
    LastMerged(bs, Pages(s.supply, pages));
    OnMissIs(s, size, pages, Expand(s, pages));
    AfterRefuses(Expand(s, pages), MergePrev(bs + Pages(s.supply, pages), |bs|), |bs| - 1, size);
  }

  lemma AfterRefuses(e: Expansion, bs: seq<Block>, i: nat, size: nat)
    requires e.ok && i < |bs| && bs[i].free && At(e.sys, bs, bs[i].addr) && bs[i].size < size
    requires 8 <= size && size % 8 == 0
    ensures RetryAfter(e, size).ptr == 0
    ensures Sparse(RetryAfter(e, size).sys.heap, bs, bs[i].addr)
  {
    SparseFit(e.sys.heap, bs, i, size);
  }

  lemma LastMerged(bs: seq<Block>, pages: seq<Block>)
    requires bs != [] && bs[|bs| - 1].free && pages != [] && pages[0].size == PAGE_PAYLOAD
    ensures var m := MergePrev(bs + pages, |bs|);
            && |m| == |bs| + |pages| - 1
            && m[|bs| - 1] == Block(bs[|bs| - 1].addr, bs[|bs| - 1].size + PAGE_SIZE, true)
            && (forall j :: 1 <= j < |pages| ==> m[|bs| - 1 + j] == pages[j])
  {
    var g := bs + pages;
    assert g[|bs| - 1] == bs[|bs| - 1] && g[|bs|] == pages[0];
  }

  /** kfree of a block with a free neighbour. */
  lemma AtFree(s: System, bs: seq<Block>, head: int, i: nat)
    requires At(s, bs, head) && i < |bs| && !bs[i].free && (FreeLeft(bs, i) || FreeRight(bs, i))
    ensures Legal(s, Free(bs[i].addr + HEADER_SIZE))
    ensures At(Step(s, Free(bs[i].addr + HEADER_SIZE)), FreedBlocks(bs, i), Listed(s.heap, i))
  {
    var op := Free(bs[i].addr + HEADER_SIZE);
    IndexOfBlock(bs, i);
    assert BlockOk(bs[i]);
    assert Legal(s, op);
    SparseRelease(s.heap, bs, head, i);
    assert Step(s, op).heap == Release(s.heap, i);
  }

  // ---------------------------------------------------------------- after boot

  /** Page j of RAM as a free block, and the five pages of kheap_init. */
  function Page(j: int): Block {
    Block(RAM_BASE + j * PAGE_SIZE, PAGE_PAYLOAD, true)
  }

  const BOOT_BLOCKS := [Page(0), Page(1), Page(2), Page(3), Page(4)]

  /** kheap_init leaves five free blocks of which only the first is listed. */
  lemma BootShape(reserved: set<int>)
    requires AboveLowFrames(reserved)
    ensures At(Booted(reserved), BOOT_BLOCKS, RAM_BASE)
    ensures Booted(reserved).supply == Start(reserved).supply[5..] && LOW_FRAMES <= |Start(reserved).supply|
    ensures FreeList(Booted(reserved).heap.links) == [RAM_BASE]
    ensures forall j :: 1 <= j < 5 ==> Unlinked(Booted(reserved).heap.links, Page(j).addr)
  {
    var s, t := Start(reserved), Booted(reserved);
    LowFramesInLine(reserved);
    SparseExpand(s, [], 0, 5);
    BootPages(s);
    SparseList(t.heap, BOOT_BLOCKS, RAM_BASE);
  }

  lemma BootPages(s: System)
    requires s.heap.blocks == [] && Contiguous(s, LOW_FRAMES) && Base(s) == RAM_BASE
    ensures MergePrev([] + Pages(s.supply, 5), 0) == BOOT_BLOCKS && s.supply[0] == RAM_BASE
  {
    assert InLine(s, 0) && InLine(s, 1) && InLine(s, 2) && InLine(s, 3) && InLine(s, 4);
    assert [] + Pages(s.supply, 5) == BOOT_BLOCKS;
  }

  /** Five free pages of which the first is listed, and frames left. */
  ghost predicate FivePages(s: System, bs: seq<Block>) {
    && |bs| == 5 && At(s, bs, bs[0].addr) && 123 <= |s.supply|
    && forall j :: 0 <= j < 5 ==> bs[j].free && bs[j].size == PAGE_PAYLOAD
  }

  lemma BootIsFive(reserved: set<int>)
    requires AboveLowFrames(reserved)
    ensures FivePages(Booted(reserved), BOOT_BLOCKS)
  {
    BootShape(reserved);
  }

  /** The first request after boot, for every size: it is answered exactly up to 8144 rounded
      bytes, the last page and the one merged into it. */
  lemma BootRequest(reserved: set<int>, n: nat)
    requires AboveLowFrames(reserved) && 0 < n
    ensures Kmalloc(Booted(reserved), n).ptr != 0 <==> RoundUp(n) <= PAGE_PAYLOAD + PAGE_SIZE
  {
    BootIsFive(reserved);
    RequestAt(Booted(reserved), BOOT_BLOCKS, n);
  }

  lemma RequestAt(s: System, bs: seq<Block>, n: nat)
    requires FivePages(s, bs) && 0 < n
    ensures Kmalloc(s, n).ptr != 0 <==> RoundUp(n) <= PAGE_PAYLOAD + PAGE_SIZE
  {
    SparseFit(s.heap, bs, 0, RoundUp(n));
    RequestServed(s, n);
    NothingBehind(s.heap);
    assert BlockOk(bs[0]);
  }

  lemma NothingBehind(h: Heap)
    requires HeapOk(h) && Linkless(h.links)
    ensures forall x :: !BehindLast(h, x)
  {
    if h.blocks != [] && h.blocks[|h.blocks| - 1].free {
      var a := h.blocks[|h.blocks| - 1].addr;
      assert h.links.next[a] == 0 && Chain(h.links, 0) == [];
    }
  }

  // ---------------------------------------------------------------- three requests

  /** kmalloc(4048): the first page is taken whole, and nothing is listed. */
  lemma TakeFirst(s: System, bs: seq<Block>)
    requires FivePages(s, bs)
    ensures Kmalloc(s, 4048).ptr == bs[0].addr + HEADER_SIZE && Kmalloc(s, 4048).sys.supply == s.supply
    ensures At(Kmalloc(s, 4048).sys, SetFree(bs, 0, false), 0)
  {
    AtServe(s, bs, 0, 4048);
  }

  /** Where the rest of the last page begins after the next request. */
  function RestAddr(bs: seq<Block>): int
    requires |bs| == 5
  {
    bs[4].addr + HEADER_SIZE + 4000
  }

  /** The blocks after kmalloc(4048) and kmalloc(4000). */
  function Two(bs: seq<Block>): (cs: seq<Block>)
    requires |bs| == 5
    ensures |cs| == 6 && cs[0] == bs[0].(free := false) && forall j :: 1 <= j < 4 ==> cs[j] == bs[j]
    ensures cs[4] == Block(bs[4].addr, 4000, false)
    ensures cs[5] == Block(RestAddr(bs), bs[4].size + PAGE_SIZE - 4048, true)
  {
    SplitAt(Grown(SetFree(bs, 0, false)), 4, 4000)
  }

  /** Then kmalloc(4000): a frame joins the last page, which is split, and the rest is listed. */
  lemma TakeSecond(s: System, bs: seq<Block>, one: seq<Block>)
    requires |bs| == 5 && bs[4].free && bs[4].size == PAGE_PAYLOAD && one == SetFree(bs, 0, false)
    requires At(s, one, 0) && s.supply != []
    ensures At(Kmalloc(s, 4000).sys, Two(bs), RestAddr(bs))
  {
    assert one[4] == bs[4] && RoundUp(4000) == 4000;
    assert Two(bs) == SplitAt(Grown(one), 4, RoundUp(4000));
    AtGrow(s, one, 4000);
  }

  /** Then kmalloc(4096): the rest is taken whole, so the last block is live. */
  lemma TakeThird(s: System, bs: seq<Block>)
    requires |bs| == 5 && bs[4].free && bs[4].size == PAGE_PAYLOAD && At(s, Two(bs), RestAddr(bs))
    ensures At(Kmalloc(s, 4096).sys, SetFree(Two(bs), 5, false), 0)
  {
    AtServe(s, Two(bs), 5, 4096);
  }

  // ---------------------------------------------------------------- what the code gets wrong there

  /** The booted kernel after kmalloc(4048) and kmalloc(4000). */
  lemma AfterTwo(reserved: set<int>) returns (s1: System, s2: System)
    requires AboveLowFrames(reserved)
    ensures s1 == Kmalloc(Booted(reserved), 4048).sys && s2 == Kmalloc(s1, 4000).sys
    ensures At(s2, Two(BOOT_BLOCKS), RestAddr(BOOT_BLOCKS))
  {
    BootIsFive(reserved);
    TakeFirst(Booted(reserved), BOOT_BLOCKS);
    s1 := Kmalloc(Booted(reserved), 4048).sys;
    TakeSecond(s1, BOOT_BLOCKS, SetFree(BOOT_BLOCKS, 0, false));
    s2 := Kmalloc(s1, 4000).sys;
  }

  /** After three requests on the booted kernel, kmalloc refuses every size above 4048 rounded
      bytes, with enough frames or without: the exit that should not happen is taken. */
  lemma RefusedAfterBoot(reserved: set<int>, n: nat) returns (s1: System, s2: System, s3: System)
    requires AboveLowFrames(reserved) && PAGE_PAYLOAD < RoundUp(n)
    ensures s1 == Kmalloc(Booted(reserved), 4048).sys && s2 == Kmalloc(s1, 4000).sys
    ensures s3 == Kmalloc(s2, 4096).sys && Kmalloc(s3, n).ptr == 0
  {
    s1, s2 := AfterTwo(reserved);
    TakeThird(s2, BOOT_BLOCKS);
    s3 := Kmalloc(s2, 4096).sys;
    RefusedAt(s3, SetFree(Two(BOOT_BLOCKS), 5, false), n);
  }

  lemma RefusedAt(s: System, bs: seq<Block>, n: nat)
    requires bs != [] && !bs[|bs| - 1].free && At(s, bs, 0) && PAGE_PAYLOAD < RoundUp(n)
    ensures Kmalloc(s, n).ptr == 0
  {
    assert FirstFit(s.heap, 0, RoundUp(n)) == 0;
    RequestServed(s, n);
  }

  /** After two requests the list holds a block of 4096 bytes. Freeing the first request drops
      that block from the list, though it stays free. */
  lemma ForgottenAfterBoot(reserved: set<int>) returns (s1: System, s2: System)
    requires AboveLowFrames(reserved)
    ensures s1 == Kmalloc(Booted(reserved), 4048).sys && s2 == Kmalloc(s1, 4000).sys
    ensures FreeList(s2.heap.links) == [RestAddr(BOOT_BLOCKS)] && Legal(s2, Free(RAM_BASE + HEADER_SIZE))
    ensures FreeList(Step(s2, Free(RAM_BASE + HEADER_SIZE)).heap.links) == [RAM_BASE]
    ensures Block(RestAddr(BOOT_BLOCKS), 4096, true) in Step(s2, Free(RAM_BASE + HEADER_SIZE)).heap.blocks
  {
    s1, s2 := AfterTwo(reserved);
    ForgottenAt(s2, BOOT_BLOCKS, Two(BOOT_BLOCKS));
  }

  lemma ForgottenAt(s: System, bs: seq<Block>, cs: seq<Block>)
    requires |bs| == 5 && cs == Two(bs) && bs[1].free && bs[4].size == PAGE_PAYLOAD && At(s, cs, RestAddr(bs))
    ensures FreeList(s.heap.links) == [RestAddr(bs)] && Legal(s, Free(bs[0].addr + HEADER_SIZE))
    ensures var t := Step(s, Free(bs[0].addr + HEADER_SIZE));
            FreeList(t.heap.links) == [bs[0].addr] && Block(RestAddr(bs), 4096, true) in t.heap.blocks
  {
    assert BlockOk(cs[5]);
    ListAt(s, cs, cs[5].addr);
    FreeLists(s, cs, cs[5].addr, 0);
    MergedFront(cs);
  }

  lemma FreeLists(s: System, bs: seq<Block>, head: int, i: nat)
    requires At(s, bs, head) && i < |bs| && !bs[i].free && (FreeLeft(bs, i) || FreeRight(bs, i))
    ensures Legal(s, Free(bs[i].addr + HEADER_SIZE))
    ensures var t := Step(s, Free(bs[i].addr + HEADER_SIZE));
            t.heap.blocks == FreedBlocks(bs, i) && FreeList(t.heap.links) == [Listed(s.heap, i)]
  {
    AtFree(s, bs, head, i);
    assert BlockOk(bs[i]) && (FreeLeft(bs, i) ==> BlockOk(bs[i - 1]));
    ListAt(Step(s, Free(bs[i].addr + HEADER_SIZE)), FreedBlocks(bs, i), Listed(s.heap, i));
  }

  lemma ListAt(s: System, bs: seq<Block>, head: int)
    requires At(s, bs, head) && head != 0
    ensures FreeList(s.heap.links) == [head]
  {
    SparseList(s.heap, bs, head);
  }

  lemma MergedFront(bs: seq<Block>)
    requires |bs| == 6 && bs[1].free
    ensures bs[5] in FreedBlocks(bs, 0)
  {
    assert FreedBlocks(bs, 0)[4] == bs[5];
  }

  /** Right after boot, kfree of what kmalloc(4048) returned does not restore the heap: the
      page comes back merged with the one behind it. */
  lemma NotRestoredAfterBoot(reserved: set<int>)
    requires AboveLowFrames(reserved)
    ensures var s := Booted(reserved);
            && Kmalloc(s, 4048).ptr == RAM_BASE + HEADER_SIZE
            && IsBlock(Kmalloc(s, 4048).sys.heap.blocks, RAM_BASE)
            && Kfree(Kmalloc(s, 4048).sys.heap, RAM_BASE + HEADER_SIZE).blocks != s.heap.blocks
  {
    var s, bs := Booted(reserved), BOOT_BLOCKS;
    BootIsFive(reserved);
    TakeFirst(s, bs);
    NotRestoredAt(s, bs);
  }

  lemma NotRestoredAt(s: System, bs: seq<Block>)
    requires FivePages(s, bs)
    ensures IsBlock(Kmalloc(s, 4048).sys.heap.blocks, bs[0].addr)
    ensures Kfree(Kmalloc(s, 4048).sys.heap, bs[0].addr + HEADER_SIZE).blocks != bs
  {
    SparseFit(s.heap, bs, 0, 4048);
    FreeUndoesMalloc(s, 4048);
    IndexOfBlock(bs, 0);
  }

  // ---------------------------------------------------------------- over the image

  /** The blocks after a request that draws 123 pages. */
  function Drained(bs: seq<Block>, frames: seq<int>): (cs: seq<Block>)
    requires |bs| == 5 && bs[4].free && 123 <= |frames|
    ensures |cs| == 127 && cs[4] == Block(bs[4].addr, bs[4].size + PAGE_SIZE, true)
    ensures cs[126] == Block(frames[122], PAGE_PAYLOAD, true)
  {
    LastMerged(bs, Pages(frames, 123));
    MergePrev(bs + Pages(frames, 123), 5)
  }

  lemma Drain(s: System, bs: seq<Block>)
    requires FivePages(s, bs)
    ensures Kmalloc(s, 503712).ptr == 0 && Kmalloc(s, 503712).sys.supply == s.supply[123..]
    ensures At(Kmalloc(s, 503712).sys, Drained(bs, s.supply), bs[4].addr)
  {
    assert RoundUp(503712) == 503712 && PagesNeeded(503712 + HEADER_SIZE) == 123;
    AtRefused(s, bs, 0, 503712, 123);
    SparseFit(s.heap, bs, 0, 503712);
    DrawsPages(s, 503712, 123);
  }

  /** The blocks after kmalloc(8144) has taken the merged block, and kmalloc(4000) one more page. */
  function Overlapped(cs: seq<Block>): (ds: seq<Block>)
    requires |cs| == 127
    ensures |ds| == 128
    ensures ds[127] == Block(cs[126].addr + HEADER_SIZE + 4000, cs[126].size + PAGE_SIZE - 4048, true)
  {
    SplitAt(Grown(SetFree(cs, 4, false)), 126, 4000)
  }

  lemma TakeMerged(s: System, cs: seq<Block>)
    requires |cs| == 127 && cs[4].free && cs[4].size == 8144 && At(s, cs, cs[4].addr)
    ensures Kmalloc(s, 8144).ptr == cs[4].addr + HEADER_SIZE && Kmalloc(s, 8144).sys.supply == s.supply
    ensures At(Kmalloc(s, 8144).sys, SetFree(cs, 4, false), 0)
  {
    AtServe(s, cs, 4, 8144);
  }

  lemma MergeBeyond(s: System, cs: seq<Block>, taken: seq<Block>)
    requires |cs| == 127 && cs[126].free && cs[126].size == PAGE_PAYLOAD && taken == SetFree(cs, 4, false)
    requires At(s, taken, 0) && s.supply != []
    ensures Kmalloc(s, 4000).ptr == cs[126].addr + HEADER_SIZE
    ensures At(Kmalloc(s, 4000).sys, Overlapped(cs), cs[126].addr + HEADER_SIZE + 4000)
  {
    assert taken[126] == cs[126] && RoundUp(4000) == 4000;
    assert Overlapped(cs) == SplitAt(Grown(taken), 126, RoundUp(4000));
    AtGrow(s, taken, 4000);
  }

  lemma TakeOverlap(s: System, ds: seq<Block>)
    requires |ds| == 128 && ds[127].free && ds[127].size == 4096 && At(s, ds, ds[127].addr)
    ensures Kmalloc(s, 4096).ptr == ds[127].addr + HEADER_SIZE
    ensures ds[127].(free := false) in Kmalloc(s, 4096).sys.heap.blocks
  {
    AtServe(s, ds, 127, 4096);
    assert SetFree(ds, 127, false)[127] == ds[127].(free := false);
  }

  /** The first request draws the last 123 low frames and is refused, and the second takes the
      block it merged. */
  lemma TwoRequests(s: System, bs: seq<Block>) returns (s1: System, s2: System)
    requires FivePages(s, bs)
    ensures s1 == Kmalloc(s, 503712).sys && Kmalloc(s, 503712).ptr == 0 && s2 == Kmalloc(s1, 8144).sys
    ensures At(s2, SetFree(Drained(bs, s.supply), 4, false), 0) && s2.supply == s.supply[123..]
  {
    Drain(s, bs);
    s1 := Kmalloc(s, 503712).sys;
    TakeMerged(s1, Drained(bs, s.supply));
    s2 := Kmalloc(s1, 8144).sys;
  }

  /** The third merges the first frame behind the image into page 127, and the fourth gets the
      rest of that merge. */
  lemma FourRequests(s: System, bs: seq<Block>) returns (s1: System, s2: System, s3: System)
    requires FivePages(s, bs) && 124 <= |s.supply|
    ensures s1 == Kmalloc(s, 503712).sys && Kmalloc(s, 503712).ptr == 0
    ensures s2 == Kmalloc(s1, 8144).sys && s3 == Kmalloc(s2, 4000).sys
    ensures Kmalloc(s3, 4096).ptr == s.supply[122] + PAGE_SIZE
    ensures Block(s.supply[122] + PAGE_SIZE - HEADER_SIZE, 4096, false) in Kmalloc(s3, 4096).sys.heap.blocks
  {
    s1, s2 := TwoRequests(s, bs);
    s3 := LastTwo(s2, Drained(bs, s.supply), s.supply[122]);
  }

  lemma LastTwo(s: System, cs: seq<Block>, f: int) returns (t: System)
    requires |cs| == 127 && cs[126] == Block(f, PAGE_PAYLOAD, true) && At(s, SetFree(cs, 4, false), 0) && s.supply != []
    ensures t == Kmalloc(s, 4000).sys && Kmalloc(t, 4096).ptr == f + PAGE_SIZE
    ensures Block(f + PAGE_SIZE - HEADER_SIZE, 4096, false) in Kmalloc(t, 4096).sys.heap.blocks
  {
    MergeBeyond(s, cs, SetFree(cs, 4, false));
    t := Kmalloc(s, 4000).sys;
    TakeOverlap(t, Overlapped(cs));
  }

  /** On the booted kernel, with the image right behind the low frames and any frame beyond it,
      four requests end with kmalloc returning the first byte of the image: a live block of 4096
      bytes lies over its first page. */
  lemma ImageHandedOut(reserved: set<int>) returns (s1: System, s2: System, s3: System)
    requires AboveLowFrames(reserved) && LOW_FRAMES < |Start(reserved).supply|
    ensures s1 == Kmalloc(Booted(reserved), 503712).sys && s2 == Kmalloc(s1, 8144).sys
    ensures s3 == Kmalloc(s2, 4000).sys && Kmalloc(s3, 4096).ptr == IMAGE_START
    ensures Block(IMAGE_START - HEADER_SIZE, 4096, false) in Kmalloc(s3, 4096).sys.heap.blocks
  {
    LowFramesInLine(reserved);
    assert InLine(Start(reserved), 0) && InLine(Start(reserved), 127);
    BootShape(reserved);
    BootIsFive(reserved);
    s1, s2, s3 := FourRequests(Booted(reserved), BOOT_BLOCKS);
  }
}
