/** What a caller of the heap relies on: which blocks are live, and that they stay put. */
module LiveBlocks {
  import opened HeapModel
  import opened Blocks
  import opened HeapOps
  import opened HeapGrowth

  function Live(bs: seq<Block>): set<Block> {
    set b | b in bs && !b.free
  }

  predicate InPayload(b: Block, x: int) {
    b.addr + HEADER_SIZE <= x < End(b)
  }

  /** x lies in the payload of a live block. */
  ghost predicate Owned(bs: seq<Block>, x: int) {
    exists b :: b in Live(bs) && InPayload(b, x)
  }

  /** No address belongs to two blocks, header and payload included. */
  lemma Disjoint(bs: seq<Block>, i: nat, j: nat, x: int)
    requires Spaced(bs) && i < |bs| && j < |bs| && i != j
    requires bs[i].addr <= x < End(bs[i])
    ensures !(bs[j].addr <= x < End(bs[j]))
  {
    if i < j { Ordered(bs, i, j); } else { Ordered(bs, j, i); }
  }

  lemma SpacedPrefix(bs: seq<Block>, n: nat)
    requires Spaced(bs) && n <= |bs|
    ensures Spaced(bs[..n])
  {
    forall k | 0 <= k < n ensures BlockOk(bs[..n][k]) && Follows(bs[..n], k) {
      assert BlockOk(bs[k]) && Follows(bs, k);
    }
  }

  lemma LiveMerge(bs: seq<Block>, i: nat)
    requires i + 1 < |bs| && bs[i].free && bs[i + 1].free
    ensures Live(MergeAt(bs, i)) == Live(bs)
  {
    var m := MergeAt(bs, i);
    forall b | b in bs && !b.free ensures b in m {
      var k :| 0 <= k < |bs| && bs[k] == b;
      assert m[if k < i then k else k - 1] == b;
    }
    assert forall k :: 0 <= k < |m| && k != i ==> m[k] == if k < i then bs[k] else bs[k + 1];
  }

  lemma LiveSplit(bs: seq<Block>, i: nat, n: int)
    requires i < |bs| && bs[i].free
    ensures Live(SplitAt(bs, i, n)) == Live(bs) + {Block(bs[i].addr, n, false)}
  {
    var m := SplitAt(bs, i, n);
    forall b | b in bs && !b.free ensures b in m {
      var k :| 0 <= k < |bs| && bs[k] == b;
      assert m[if k < i then k else k + 1] == b;
    }
    assert m[i] == Block(bs[i].addr, n, false);
    assert forall k :: 0 <= k < |m| && k != i && k != i + 1 ==> m[k] == if k < i then bs[k] else bs[k - 1];
  }

  lemma LiveSetFree(bs: seq<Block>, i: nat, f: bool)
    requires i < |bs| && Spaced(bs)
    ensures Live(SetFree(bs, i, f)) == if f then Live(bs) - {bs[i]} else Live(bs) + {bs[i].(free := false)}
  {
    var m := SetFree(bs, i, f);
    AllOrdered(bs);
    forall b | b in bs && !b.free && b != bs[i] ensures b in m {
      var k :| 0 <= k < |bs| && bs[k] == b;
      assert m[k] == b;
    }
    assert m[i] == bs[i].(free := f);
    assert forall k :: 0 <= k < |m| && k != i ==> m[k] == bs[k];
  }

  lemma LiveFreed(bs: seq<Block>, i: nat)
    requires Spaced(bs) && i < |bs|
    ensures Live(FreedBlocks(bs, i)) == Live(bs) - {bs[i]}
  {
    var m := SetFree(bs, i, true);
    LiveSetFree(bs, i, true);
    if i + 1 < |bs| && bs[i + 1].free {
      LiveMerge(m, i);
    }
    if 0 < i && bs[i - 1].free {
      LiveMerge(MergeNext(m, i), i - 1);
    }
  }

  /** kfree of a live block ends that block's life and no other. */
  lemma KfreeLive(h: Heap, ptr: int)
    requires HeapOk(h) && (ptr != 0 ==> IsBlock(h.blocks, ptr - HEADER_SIZE))
    ensures ptr == 0 ==> Live(Kfree(h, ptr).blocks) == Live(h.blocks)
    ensures ptr != 0 ==>
              Live(Kfree(h, ptr).blocks) == Live(h.blocks) - {h.blocks[IndexOf(h.blocks, ptr - HEADER_SIZE)]}
  {
    if ptr != 0 {
      LiveFreed(h.blocks, IndexOf(h.blocks, ptr - HEADER_SIZE));
    }
  }

  /** One live block more: the one at ptr, for a request of the given rounded size. */
  ghost predicate Granted(before: seq<Block>, after: seq<Block>, ptr: int, size: int) {
    exists b :: Live(after) == Live(before) + {b} && b !in Live(before) && Fits(b, ptr, size)
  }

  predicate Fits(b: Block, ptr: int, size: int) {
    !b.free && b.addr + HEADER_SIZE == ptr && ptr % 8 == 0 && size <= b.size < size + MIN_BLOCK_SIZE
  }

  /** The block a request gets was free, and is of the rounded size or less than 96 bytes more. */
  lemma PlaceLive(h: Heap, a: int, n: int)
    requires HeapOk(h) && a in h.links.next && 8 <= n && n % 8 == 0 && n <= SizeAt(h, a)
    ensures Granted(h.blocks, Place(h, a, n).blocks, a + HEADER_SIZE, n)
  {
    var i := IndexOf(h.blocks, a);
    AllOrdered(h.blocks);
    assert BlockOk(h.blocks[i]);
    if n + MIN_BLOCK_SIZE <= h.blocks[i].size {
      LiveSplit(h.blocks, i, n);
      assert Fits(Block(a, n, false), a + HEADER_SIZE, n);
    } else {
      LiveSetFree(h.blocks, i, false);
      assert Fits(h.blocks[i].(free := false), a + HEADER_SIZE, n);
    }
  }

  lemma LiveAppend(bs: seq<Block>, b: Block)
    requires b.free
    ensures Live(bs + [b]) == Live(bs)
  {
  }

  lemma {:induction false} PagesLive(h: Heap, frames: seq<int>, k: nat)
    requires k <= |frames|
    ensures Live(AppendPages(h, frames, k).blocks) == Live(h.blocks)
  {
    if k > 0 {
      PagesLive(h, frames, k - 1);
      LiveAppend(AppendPages(h, frames, k - 1).blocks, Block(frames[k - 1], PAGE_PAYLOAD, true));
    }
  }

  lemma ExpandLive(s: System, pages: nat)
    requires SystemOk(s) && 0 < pages
    ensures Live(Expand(s, pages).sys.heap.blocks) == Live(s.heap.blocks)
  {
    var k := Drawn(s, pages);
    PagesLive(s.heap, s.supply, k);
    var g := Grow(s, k);
    var i := |s.heap.blocks|;
    if pages <= |s.supply| && 0 < i && g.heap.blocks[i - 1].free {
      LiveMerge(g.heap.blocks, i - 1);
    }
  }

  lemma RetryLive(s: System, size: nat)
    requires SystemOk(s) && 8 <= size && size % 8 == 0
    ensures var r := Retry(s, size);
            if r.ptr == 0 then r.sys == s else Granted(s.heap.blocks, r.sys.heap.blocks, r.ptr, size)
  {
    FirstFitFits(s.heap, s.heap.links.head, size);
    var fit := FirstFit(s.heap, s.heap.links.head, size);
    if fit != 0 {
      PlaceLive(s.heap, fit, size);
      assert BlockOk(s.heap.blocks[IndexOf(s.heap.blocks, fit)]);
    }
  }

  /** What kmalloc did to the live blocks: nothing, or Granted. */
  ghost predicate Answered(s: System, r: Served, size: int) {
    if r.ptr == 0 then Live(r.sys.heap.blocks) == Live(s.heap.blocks)
    else Granted(s.heap.blocks, r.sys.heap.blocks, r.ptr, size)
  }

  lemma ExpandAndRetryLive(s: System, pages: nat, size: nat)
    requires SystemOk(s) && 0 < pages && 8 <= size && size % 8 == 0
    ensures Answered(s, RetryAfter(Expand(s, pages), size), size)
  {
    ExpandLive(s, pages);
    RetryAfterLive(Expand(s, pages), size);
  }

  lemma RetryAfterLive(e: Expansion, size: nat)
    requires SystemOk(e.sys) && 8 <= size && size % 8 == 0
    ensures Answered(e.sys, RetryAfter(e, size), size)
  {
    if e.ok {
      RetryLive(e.sys, size);
    }
  }

  /** Every answer of kmalloc: NULL and the same live blocks, or one new live block that is
      8-aligned, holds the request rounded up to 8, and wastes less than 96 bytes. */
  lemma KmallocLive(s: System, n: nat)
    requires SystemOk(s)
    ensures Answered(s, Kmalloc(s, n), RoundUp(n))
  {
    if n > 0 {
      if FirstFit(s.heap, s.heap.links.head, RoundUp(n)) != 0 {
        RetryLive(s, RoundUp(n));
      } else {
        ExpandAndRetryLive(s, PagesNeeded(RoundUp(n) + HEADER_SIZE), RoundUp(n));
      }
    }
  }
}
