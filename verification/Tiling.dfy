/** When the heap is one gapless interval of exactly the frames it drew. coalesce and expand_heap
    merge list neighbours without looking at addresses, so this depends on the frames. */
module Tiling {
  import opened Machine
  import opened HeapModel
  import opened Blocks
  import opened HeapOps
  import opened HeapGrowth
  import opened Accounting
  import opened LiveBlocks
  import opened HeapRuns

  // ---------------------------------------------------------------- tiled lists

  lemma {:induction false} BytesIsSpan(bs: seq<Block>)
    requires Tiled(bs) && bs != []
    ensures Bytes(bs) == End(bs[|bs| - 1]) - bs[0].addr
    decreases |bs|
  {
    var n := |bs| - 1;
    assert bs == bs[..n] + [bs[n]];
    Concat(bs[..n], [bs[n]]);
    if 0 < n {
      TiledPrefix(bs, n);
      BytesIsSpan(bs[..n]);
      assert Adjoins(bs, n);
    }
  }

  lemma TiledPrefix(bs: seq<Block>, n: nat)
    requires Tiled(bs) && n <= |bs|
    ensures Tiled(bs[..n])
  {
    SpacedPrefix(bs, n);
    forall i | 0 <= i < n ensures Adjoins(bs[..n], i) {
      assert Adjoins(bs, i);
    }
  }

  /** x belongs to a block, header or payload. */
  predicate Covers(bs: seq<Block>, x: int) {
    exists i :: 0 <= i < |bs| && bs[i].addr <= x < End(bs[i])
  }

  /** A tiled list is an interval: every address between its ends belongs to a block. */
  lemma {:induction false} Covered(bs: seq<Block>, x: int)
    requires Tiled(bs) && bs != [] && bs[0].addr <= x < End(bs[|bs| - 1])
    ensures Covers(bs, x)
    decreases |bs|
  {
    var n := |bs| - 1;
    if x < bs[n].addr {
      assert Adjoins(bs, n);
      TiledPrefix(bs, n);
      Covered(bs[..n], x);
      var i :| 0 <= i < n && bs[..n][i].addr <= x < End(bs[..n][i]);
      assert bs[i].addr <= x < End(bs[i]);
    } else {
      assert bs[n].addr <= x < End(bs[n]);
    }
  }

  lemma CoversInterval(bs: seq<Block>, x: int)
    requires Tiled(bs) && bs != []
    ensures Covers(bs, x) <==> bs[0].addr <= x < End(bs[|bs| - 1])
  {
    AllOrdered(bs);
    if bs[0].addr <= x < End(bs[|bs| - 1]) {
      Covered(bs, x);
    }
  }

  lemma MergeTiled(bs: seq<Block>, i: nat)
    requires Tiled(bs) && i + 1 < |bs|
    ensures Tiled(MergeAt(bs, i))
  {
    var m := MergeAt(bs, i);
    MergeSpaced(bs, i);
    assert Adjoins(bs, i + 1);
    forall k | 0 <= k < |m| ensures Adjoins(m, k) {
      assert Adjoins(bs, if k <= i then k else k + 1);
    }
  }

  lemma SplitTiled(bs: seq<Block>, i: nat, n: int)
    requires Tiled(bs) && i < |bs| && 8 <= n && n % 8 == 0 && n + MIN_BLOCK_SIZE <= bs[i].size
    ensures Tiled(SplitAt(bs, i, n))
  {
    var m := SplitAt(bs, i, n);
    SplitSpaced(bs, i, n);
    forall k | 0 <= k < |m| ensures Adjoins(m, k) {
      assert Adjoins(bs, if k <= i then k else k - 1);
    }
  }

  lemma SetFreeTiled(bs: seq<Block>, i: nat, f: bool)
    requires Tiled(bs) && i < |bs|
    ensures Tiled(SetFree(bs, i, f))
  {
    SetFreeSpaced(bs, i, f);
    forall k | 0 <= k < |bs| ensures Adjoins(SetFree(bs, i, f), k) {
      assert Adjoins(bs, k);
    }
  }

  lemma FreedTiled(bs: seq<Block>, i: nat)
    requires Tiled(bs) && i < |bs|
    ensures Tiled(FreedBlocks(bs, i))
  {
    var m := SetFree(bs, i, true);
    SetFreeTiled(bs, i, true);
    if i + 1 < |m| && m[i + 1].free {
      MergeTiled(m, i);
    }
    var q := MergeNext(m, i);
    if 0 < i && q[i - 1].free {
      MergeTiled(q, i - 1);
    }
  }

  // ---------------------------------------------------------------- frames in line

  /** Where the next frame has to begin for the heap to stay one interval. */
  function Frontier(s: System): int {
    if s.heap.blocks != [] then End(s.heap.blocks[|s.heap.blocks| - 1])
    else if s.supply != [] then s.supply[0]
    else 0
  }

  /** Frame j of the supply lies where the heap ends after the frames before it. */
  predicate InLine(s: System, j: nat)
    requires j < |s.supply|
  {
    s.supply[j] == Frontier(s) + j * PAGE_SIZE
  }

  /** The next q frames continue the heap without a gap. */
  predicate Contiguous(s: System, q: nat) {
    q <= |s.supply| && forall j :: 0 <= j < q ==> InLine(s, j)
  }

  lemma ContiguousLess(s: System, p: nat, q: nat)
    requires Contiguous(s, q) && p <= q
    ensures Contiguous(s, p)
  {
  }

  /** Frame pages at the end of a tiled list keep it tiled when they are in line. */
  lemma {:induction false} PagesTiled(s: System, k: nat)
    requires SystemOk(s) && Tiled(s.heap.blocks) && Contiguous(s, k)
    ensures Tiled(AppendPages(s.heap, s.supply, k).blocks)
    decreases k
  {
    if k > 0 {
      PagesTiled(s, k - 1);
      AppendedBlocks(s.heap, s.supply, k - 1);
      AppendPagesOk(s, k);
      var bs := AppendPages(s.heap, s.supply, k - 1).blocks;
      assert InLine(s, k - 1) && (k > 1 ==> InLine(s, k - 2));
      assert k > 1 ==> bs[|bs| - 1] == Block(s.supply[k - 2], PAGE_PAYLOAD, true);
      AppendTiled(bs, s.supply[k - 1]);
    }
  }

  lemma AppendTiled(bs: seq<Block>, f: int)
    requires Tiled(bs) && Spaced(bs + [Block(f, PAGE_PAYLOAD, true)]) && (bs != [] ==> f == End(bs[|bs| - 1]))
    ensures Tiled(bs + [Block(f, PAGE_PAYLOAD, true)])
  {
    var m := bs + [Block(f, PAGE_PAYLOAD, true)];
    forall k | 0 <= k < |m| ensures Adjoins(m, k) {
      assert k < |bs| ==> Adjoins(bs, k);
    }
  }

  lemma ExpandTiled(s: System, pages: nat)
    requires SystemOk(s) && Tiled(s.heap.blocks) && 0 < pages && Contiguous(s, Drawn(s, pages))
    ensures Tiled(Expand(s, pages).sys.heap.blocks)
  {
    var k, i := Drawn(s, pages), |s.heap.blocks|;
    PagesTiled(s, k);
    FirstPageUnlinked(s, k);
    var g := AppendPages(s.heap, s.supply, k).blocks;
    if k == pages && 0 < i && g[i - 1].free {
      MergeTiled(g, i - 1);
    }
  }

  lemma RetryTiled(s: System, size: nat)
    requires SystemOk(s) && Tiled(s.heap.blocks) && 8 <= size && size % 8 == 0
    ensures Tiled(Retry(s, size).sys.heap.blocks)
  {
    var fit := FirstFit(s.heap, s.heap.links.head, size);
    FirstFitFits(s.heap, s.heap.links.head, size);
    if fit != 0 {
      var i := IndexOf(s.heap.blocks, fit);
      if size + MIN_BLOCK_SIZE <= s.heap.blocks[i].size {
        SplitTiled(s.heap.blocks, i, size);
      } else {
        SetFreeTiled(s.heap.blocks, i, false);
      }
    }
  }

  lemma MissTiled(s: System, pages: nat, size: nat)
    requires SystemOk(s) && Tiled(s.heap.blocks) && 0 < pages && 8 <= size && size % 8 == 0
    requires Contiguous(s, Drawn(s, pages))
    ensures Tiled(RetryAfter(Expand(s, pages), size).sys.heap.blocks)
  {
    ExpandTiled(s, pages);
    var e := Expand(s, pages);
    if e.ok {
      RetryTiled(e.sys, size);
    }
  }

  lemma StepTiled(s: System, op: Op)
    requires SystemOk(s) && Legal(s, op) && Tiled(s.heap.blocks) && Contiguous(s, Wanted(s, op))
    ensures Tiled(Step(s, op).heap.blocks)
  {
    match op
    case Malloc(n) =>
      if 0 < n {
        if FirstFit(s.heap, s.heap.links.head, RoundUp(n)) != 0 {
          RetryTiled(s, RoundUp(n));
        } else {
          MissTiled(s, PagesNeeded(RoundUp(n) + HEADER_SIZE), RoundUp(n));
        }
      }
    case Free(ptr) =>
      if ptr != 0 {
        FreedTiled(s.heap.blocks, IndexOf(s.heap.blocks, ptr - HEADER_SIZE));
      }
    case Write(_, _) =>
  }

  // ---------------------------------------------------------------- exactly the frames drawn

  /** The number of frames drawn between two states. */
  function Used(s: System, t: System): int {
    |s.supply| - |t.supply|
  }

  /** x lies in one of the first w frames of the supply. */
  predicate InFrames(s: System, w: int, x: int) {
    exists j :: 0 <= j < w && j < |s.supply| && s.supply[j] <= x < s.supply[j] + PAGE_SIZE
  }

  /** The blocks of t cover what those of s did and the frames drawn since, and nothing else. */
  ghost predicate Exactly(s: System, t: System) {
    forall x :: Covers(t.heap.blocks, x) <==> Covers(s.heap.blocks, x) || InFrames(s, Used(s, t), x)
  }

  /** t comes from s by drawing frames, without moving the first block. */
  ghost predicate GrewTo(s: System, t: System) {
    SystemOk(s) && SystemOk(t) && Conserves(s, t) && SameBase(s, t)
  }

  /** Where the next frame has to lie moves by the frames drawn. */
  lemma FrontierMoves(s: System, t: System)
    requires GrewTo(s, t) && Tiled(s.heap.blocks) && Tiled(t.heap.blocks)
    ensures t.heap.blocks != [] ==> Frontier(t) == Frontier(s) + Used(s, t) * PAGE_SIZE
    ensures t.heap.blocks == [] ==> t.supply == s.supply && s.heap.blocks == []
  {
    if t.heap.blocks != [] {
      BytesIsSpan(t.heap.blocks);
      if s.heap.blocks != [] {
        BytesIsSpan(s.heap.blocks);
      }
    }
  }

  lemma StaysInLine(s: System, t: System, q: nat)
    requires GrewTo(s, t) && Tiled(s.heap.blocks) && Tiled(t.heap.blocks) && Contiguous(s, q) && Used(s, t) <= q
    ensures Contiguous(t, q - Used(s, t))
  {
    var d := Used(s, t);
    FrontierMoves(s, t);
    forall j | 0 <= j < q - d ensures InLine(t, j) {
      assert t.supply[j] == s.supply[d + j];
      assert InLine(s, d + j);
    }
  }

  /** While the frames drawn are in line, the heap stays tiled. */
  lemma {:induction false} RunTiled(s: System, ops: seq<Op>)
    requires SystemOk(s) && LegalRun(s, ops) && Tiled(s.heap.blocks)
    requires Used(s, Run(s, ops)) >= 0 ==> Contiguous(s, Used(s, Run(s, ops)))
    ensures Tiled(Run(s, ops).heap.blocks)
    decreases |ops|
  {
    if ops != [] {
      var t := Step(s, ops[0]);
      RunConserves(t, ops[1..]);
      WantedIsDrawn(s, ops[0]);
      ContiguousLess(s, Wanted(s, ops[0]), Used(s, Run(s, ops)));
      StepTiled(s, ops[0]);
      StepConserves(s, ops[0]);
      StepBase(s, ops[0]);
      StaysInLine(s, t, Used(s, Run(s, ops)));
      RunTiled(t, ops[1..]);
    }
  }

  /** The same for a run that follows another growth. */
  lemma ThenTiled(s: System, t: System, ops: seq<Op>)
    requires GrewTo(s, t) && Tiled(s.heap.blocks) && Tiled(t.heap.blocks) && LegalRun(t, ops)
    requires |Run(t, ops).supply| <= |t.supply| && Contiguous(s, Used(s, Run(t, ops)))
    ensures Tiled(Run(t, ops).heap.blocks)
  {
    StaysInLine(s, t, Used(s, Run(t, ops)));
    RunTiled(t, ops);
  }

  /** Frames ascend. */
  lemma {:induction false} Ascends(s: System, i: nat, j: nat)
    requires SystemOk(s) && i <= j < |s.supply|
    ensures s.supply[i] + (j - i) * PAGE_SIZE <= s.supply[j]
    decreases j
  {
    if i < j {
      Ascends(s, i, j - 1);
      assert FrameAhead(s, j);
    }
  }

  /** Frames in line fill the interval behind the frontier. */
  lemma InLineFills(s: System, w: nat, x: int)
    requires Contiguous(s, w)
    ensures InFrames(s, w, x) <==> Frontier(s) <= x < Frontier(s) + w * PAGE_SIZE
  {
    if InFrames(s, w, x) {
      var j :| 0 <= j < w && s.supply[j] <= x < s.supply[j] + PAGE_SIZE;
      assert InLine(s, j);
    }
    if Frontier(s) <= x < Frontier(s) + w * PAGE_SIZE {
      var j := (x - Frontier(s)) / PAGE_SIZE;
      assert InLine(s, j) && s.supply[j] <= x < s.supply[j] + PAGE_SIZE;
    }
  }

  /** Frame j has to lie at the frontier when the frames before it do and t is exact. */
  lemma NextInLine(s: System, t: System, j: nat)
    requires GrewTo(s, t) && Tiled(s.heap.blocks) && Tiled(t.heap.blocks) && Exactly(s, t)
    requires j < Used(s, t) && forall i :: 0 <= i < j ==> InLine(s, i)
    ensures InLine(s, j)
  {
    var x := Frontier(s) + j * PAGE_SIZE;
    ExactAt(s, t, x);
    if s.heap.blocks != [] {
      CoversInterval(s.heap.blocks, x);
      assert FrameAhead(s, 0);
    }
    assert !Covers(s.heap.blocks, x) && InFrames(s, Used(s, t), x);
    forall i | 0 <= i < j ensures s.supply[i] + PAGE_SIZE <= x {
      assert InLine(s, i);
    }
    var i :| 0 <= i < Used(s, t) && i < |s.supply| && s.supply[i] <= x < s.supply[i] + PAGE_SIZE;
    Ascends(s, 0, j);
    Ascends(s, j, i);
  }

  lemma {:induction false} AllInLine(s: System, t: System, w: nat)
    requires GrewTo(s, t) && Tiled(s.heap.blocks) && Tiled(t.heap.blocks) && Exactly(s, t) && w <= Used(s, t)
    ensures Contiguous(s, w)
    decreases w
  {
    if w > 0 {
      AllInLine(s, t, w - 1);
      NextInLine(s, t, w - 1);
    }
  }

  /** A tiled heap that grew out of a tiled heap covers exactly the old bytes and the frames
      drawn if and only if those frames were in line. */
  lemma ExactIff(s: System, t: System)
    requires GrewTo(s, t) && Tiled(s.heap.blocks) && Tiled(t.heap.blocks)
    ensures Used(s, t) >= 0 && (Exactly(s, t) <==> Contiguous(s, Used(s, t)))
  {
    if Exactly(s, t) {
      AllInLine(s, t, Used(s, t));
    }
    if Contiguous(s, Used(s, t)) {
      forall x ensures Covers(t.heap.blocks, x) <==> Covers(s.heap.blocks, x) || InFrames(s, Used(s, t), x) {
        InLineFills(s, Used(s, t), x);
        ExactAt(s, t, x);
      }
    }
  }

  lemma ExactAt(s: System, t: System, x: int)
    requires GrewTo(s, t) && Tiled(s.heap.blocks) && Tiled(t.heap.blocks)
    ensures Covers(t.heap.blocks, x) <==>
              Covers(s.heap.blocks, x) || Frontier(s) <= x < Frontier(s) + Used(s, t) * PAGE_SIZE
  {
    FrontierMoves(s, t);
    if t.heap.blocks != [] {
      CoversInterval(t.heap.blocks, x);
      AllOrdered(t.heap.blocks);
    }
    if s.heap.blocks != [] {
      CoversInterval(s.heap.blocks, x);
      AllOrdered(s.heap.blocks);
    }
  }

  /** The tiling theorem, for every run from a tiled heap: afterwards the heap is tiled and covers
      exactly its old bytes and the frames drawn, if and only if the frames drawn were in line. */
  lemma RunTiles(s: System, ops: seq<Op>)
    requires SystemOk(s) && LegalRun(s, ops) && Tiled(s.heap.blocks)
    ensures var t := Run(s, ops);
            Used(s, t) >= 0 && (Tiled(t.heap.blocks) && Exactly(s, t) <==> Contiguous(s, Used(s, t)))
  {
    var t := Run(s, ops);
    RunConserves(s, ops);
    RunKeepsBase(s, ops);
    if Contiguous(s, Used(s, t)) {
      RunTiled(s, ops);
    }
    if Tiled(t.heap.blocks) {
      ExactIff(s, t);
    }
  }

  /** The same for one expansion, complete or not. */
  lemma ExpandTiles(s: System, pages: nat)
    requires SystemOk(s) && Tiled(s.heap.blocks) && 0 < pages
    ensures var t := Expand(s, pages).sys;
            Tiled(t.heap.blocks) && Exactly(s, t) <==> Contiguous(s, Drawn(s, pages))
  {
    var t := Expand(s, pages).sys;
    ExpandAccounts(s, pages);
    ExpandBase(s, pages);
    if Contiguous(s, Drawn(s, pages)) {
      ExpandTiled(s, pages);
    }
    if Tiled(t.heap.blocks) {
      ExactIff(s, t);
    }
  }

  /** Where a tiled heap ends after a run. */
  lemma RunEnds(s: System, ops: seq<Op>)
    requires SystemOk(s) && LegalRun(s, ops) && Tiled(Run(s, ops).heap.blocks) && Run(s, ops).heap.blocks != []
    ensures var t := Run(s, ops);
            && t.heap.blocks[0].addr == Base(s)
            && End(t.heap.blocks[|t.heap.blocks| - 1]) == Base(s) + Bytes(s.heap.blocks) + Used(s, t) * PAGE_SIZE
  {
    RunConserves(s, ops);
    RunKeepsBase(s, ops);
    BytesIsSpan(Run(s, ops).heap.blocks);
  }
}
