/** Two measures of the physical list, carried through every heap operation: the bytes it
    covers, and the number of adjacent pairs of free blocks. */
module Accounting {
  import opened Machine
  import opened HeapModel
  import opened HeapOps
  import opened HeapGrowth

  /** Headers and payloads together. */
  function Bytes(bs: seq<Block>): int {
    if bs == [] then 0 else HEADER_SIZE + bs[0].size + Bytes(bs[1..])
  }

  function FreePairs(bs: seq<Block>): nat {
    if |bs| < 2 then 0 else (if bs[0].free && bs[1].free then 1 else 0) + FreePairs(bs[1..])
  }

  /** 1 when the seam between two lists is itself a free pair. */
  function Seam(a: seq<Block>, b: seq<Block>): nat {
    if a != [] && b != [] && a[|a| - 1].free && b[0].free then 1 else 0
  }

  lemma {:induction false} Concat(a: seq<Block>, b: seq<Block>)
    ensures Bytes(a + b) == Bytes(a) + Bytes(b)
    ensures FreePairs(a + b) == FreePairs(a) + FreePairs(b) + Seam(a, b)
  {
    if a == [] {
      assert a + b == b;
    } else {
      Concat(a[1..], b);
      assert (a + b)[1..] == a[1..] + b;
    }
  }

  /** Replacing the middle of a list changes the measures of the middle and of its two seams. */
  lemma Sandwich(a: seq<Block>, m: seq<Block>, b: seq<Block>)
    requires m != []
    ensures Bytes(a + m + b) == Bytes(a) + Bytes(m) + Bytes(b)
    ensures FreePairs(a + m + b) == FreePairs(a) + FreePairs(m) + FreePairs(b) + Seam(a, m) + Seam(m, b)
  {
    Concat(a, m);
    Concat(a + m, b);
  }

  lemma Two(x: Block, y: Block)
    ensures Bytes([x, y]) == Bytes([x]) + Bytes([y]) && FreePairs([x, y]) == Seam([x], [y])
    ensures Bytes([x]) == HEADER_SIZE + x.size && Bytes([y]) == HEADER_SIZE + y.size
  {
    Concat([x], [y]);
    assert [x] + [y] == [x, y];
  }

  /** One block replaced by another between the same neighbours. */
  lemma Replace(a: seq<Block>, x: Block, y: Block, b: seq<Block>)
    ensures Bytes(a + [y] + b) - Bytes(a + [x] + b) == y.size - x.size
    ensures FreePairs(a + [y] + b) - FreePairs(a + [x] + b)
         == Seam(a, [y]) + Seam([y], b) - Seam(a, [x]) - Seam([x], b)
  {
    Sandwich(a, [x], b);
    Sandwich(a, [y], b);
  }

  /** Two adjacent blocks in place of one. */
  lemma Divide(a: seq<Block>, x: Block, y: Block, z: Block, b: seq<Block>)
    ensures Bytes(a + [y, z] + b) - Bytes(a + [x] + b) == y.size + HEADER_SIZE + z.size - x.size
    ensures FreePairs(a + [y, z] + b) - FreePairs(a + [x] + b)
         == Seam(a, [y]) + Seam([y], [z]) + Seam([z], b) - Seam(a, [x]) - Seam([x], b)
  {
    Two(y, z);
    Sandwich(a, [x], b);
    Sandwich(a, [y, z], b);
  }

  lemma AroundOne(bs: seq<Block>, i: nat)
    requires i < |bs|
    ensures bs == bs[..i] + [bs[i]] + bs[i + 1..]
  {
  }

  lemma AroundTwo(bs: seq<Block>, i: nat)
    requires i + 1 < |bs|
    ensures bs == bs[..i] + [bs[i], bs[i + 1]] + bs[i + 2..]
  {
  }

  lemma SetFreeParts(bs: seq<Block>, i: nat, f: bool)
    requires i < |bs|
    ensures SetFree(bs, i, f) == bs[..i] + [bs[i].(free := f)] + bs[i + 1..]
  {
  }

  lemma MergeAccounts(bs: seq<Block>, i: nat)
    requires i + 1 < |bs| && bs[i].free && bs[i + 1].free
    ensures Bytes(MergeAt(bs, i)) == Bytes(bs)
    ensures FreePairs(MergeAt(bs, i)) == FreePairs(bs) - 1
  {
    var m := Block(bs[i].addr, bs[i].size + HEADER_SIZE + bs[i + 1].size, bs[i].free);
    Divide(bs[..i], m, bs[i], bs[i + 1], bs[i + 2..]);
    AroundTwo(bs, i);
  }

  lemma SplitAccounts(bs: seq<Block>, i: nat, n: int)
    requires i < |bs| && bs[i].free
    ensures Bytes(SplitAt(bs, i, n)) == Bytes(bs)
    ensures FreePairs(SplitAt(bs, i, n)) == FreePairs(bs) - Seam(bs[..i], [bs[i]])
  {
    var y, z := Block(bs[i].addr, n, false), Block(bs[i].addr + HEADER_SIZE + n, bs[i].size - n - HEADER_SIZE, true);
    Divide(bs[..i], bs[i], y, z, bs[i + 1..]);
    AroundOne(bs, i);
  }

  lemma SetFreeAccounts(bs: seq<Block>, i: nat, f: bool)
    requires i < |bs|
    ensures Bytes(SetFree(bs, i, f)) == Bytes(bs)
    ensures FreePairs(SetFree(bs, i, f)) - FreePairs(bs)
         == Seam(bs[..i], [bs[i].(free := f)]) + Seam([bs[i].(free := f)], bs[i + 1..])
            - Seam(bs[..i], [bs[i]]) - Seam([bs[i]], bs[i + 1..])
  {
    Replace(bs[..i], bs[i], bs[i].(free := f), bs[i + 1..]);
    AroundOne(bs, i);
    SetFreeParts(bs, i, f);
  }

  lemma FreedAccounts(bs: seq<Block>, i: nat)
    requires i < |bs| && !bs[i].free
    ensures Bytes(FreedBlocks(bs, i)) == Bytes(bs) && FreePairs(FreedBlocks(bs, i)) == FreePairs(bs)
  {
    var m := SetFree(bs, i, true);
    SetFreeAccounts(bs, i, true);
    if i + 1 < |bs| && bs[i + 1].free {
      MergeAccounts(m, i);
    }
    if 0 < i && bs[i - 1].free {
      MergeAccounts(MergeNext(m, i), i - 1);
    }
  }

  lemma PlacedAccounts(bs: seq<Block>, i: nat, n: int)
    requires i < |bs| && bs[i].free
    ensures Bytes(PlacedBlocks(bs, i, n)) == Bytes(bs) && FreePairs(PlacedBlocks(bs, i, n)) <= FreePairs(bs)
  {
    SplitAccounts(bs, i, n);
    SetFreeAccounts(bs, i, false);
  }

  /** kfree keeps the bytes and, whatever it merges, the number of free pairs. */
  lemma KfreeAccounts(h: Heap, ptr: int)
    requires HeapOk(h) && (ptr != 0 ==> IsBlock(h.blocks, ptr - HEADER_SIZE))
    ensures Bytes(Kfree(h, ptr).blocks) == Bytes(h.blocks)
    ensures FreePairs(Kfree(h, ptr).blocks) == FreePairs(h.blocks)
  {
    if ptr != 0 && !h.blocks[IndexOf(h.blocks, ptr - HEADER_SIZE)].free {
      FreedAccounts(h.blocks, IndexOf(h.blocks, ptr - HEADER_SIZE));
    }
  }

  lemma {:induction false} PagesAccounts(h: Heap, frames: seq<int>, k: nat)
    requires k <= |frames|
    ensures Bytes(AppendPages(h, frames, k).blocks) == Bytes(h.blocks) + k * PAGE_SIZE
    ensures 0 < k ==>
              FreePairs(AppendPages(h, frames, k).blocks) ==
              FreePairs(h.blocks) + k - 1 + Seam(h.blocks, [Block(frames[0], PAGE_PAYLOAD, true)])
  {
    if k > 0 {
      PagesAccounts(h, frames, k - 1);
      AppendedBlocks(h, frames, k - 1);
      Concat(AppendPages(h, frames, k - 1).blocks, [Block(frames[k - 1], PAGE_PAYLOAD, true)]);
    }
  }

  /** expand_heap adds 4096 bytes a frame, also when it runs out of frames half way; when it
      succeeds it adds one free pair for every page after the first, and none for the first;
      when it fails it adds at most one for every frame. */
  lemma ExpandAccounts(s: System, pages: nat)
    requires SystemOk(s) && 0 < pages
    ensures var e := Expand(s, pages);
            && Bytes(e.sys.heap.blocks) == Bytes(s.heap.blocks) + Drawn(s, pages) * PAGE_SIZE
            && (e.ok ==> FreePairs(e.sys.heap.blocks) == FreePairs(s.heap.blocks) + pages - 1)
            && (!e.ok ==> FreePairs(e.sys.heap.blocks) <= FreePairs(s.heap.blocks) + |s.supply|)
  {
    var k := Drawn(s, pages);
    PagesAccounts(s.heap, s.supply, k);
    FirstPageUnlinked(s, k);
    AppendedBlocks(s.heap, s.supply, k);
    var h, i := AppendPages(s.heap, s.supply, k), |s.heap.blocks|;
    if pages <= |s.supply| && 0 < i && s.heap.blocks[i - 1].free {
      assert h.blocks[i - 1] == s.heap.blocks[i - 1];
      MergeAccounts(h.blocks, i - 1);
    }
  }

  /** s' has drawn some frames of s, and the heap has grown by exactly those. */
  ghost predicate Conserves(s: System, s': System) {
    && |s'.supply| <= |s.supply|
    && s'.supply == s.supply[|s.supply| - |s'.supply|..]
    && Bytes(s'.heap.blocks) == Bytes(s.heap.blocks) + (|s.supply| - |s'.supply|) * PAGE_SIZE
  }

  lemma ServeAccounts(s: System, size: nat)
    requires SystemOk(s) && 8 <= size && size % 8 == 0
    ensures var r := Retry(s, size);
            && r.sys.supply == s.supply
            && Bytes(r.sys.heap.blocks) == Bytes(s.heap.blocks)
            && FreePairs(r.sys.heap.blocks) <= FreePairs(s.heap.blocks)
  {
    FirstFitFits(s.heap, s.heap.links.head, size);
    var fit := FirstFit(s.heap, s.heap.links.head, size);
    if fit != 0 {
      PlacedAccounts(s.heap.blocks, IndexOf(s.heap.blocks, fit), size);
    }
  }

  /** The free pairs an expansion can add. */
  function NewPairs(s: System, pages: nat): nat
    requires 0 < pages
  {
    if pages <= |s.supply| then pages - 1 else |s.supply|
  }

  lemma ExpandAndRetryAccounts(s: System, pages: nat, size: nat)
    requires SystemOk(s) && 0 < pages && 8 <= size && size % 8 == 0
    ensures var r := RetryAfter(Expand(s, pages), size);
            && Conserves(s, r.sys)
            && FreePairs(r.sys.heap.blocks) <= FreePairs(s.heap.blocks) + NewPairs(s, pages)
  {
    ExpandAccounts(s, pages);
    RetryAfterAccounts(Expand(s, pages), size);
  }

  lemma RetryAfterAccounts(e: Expansion, size: nat)
    requires SystemOk(e.sys) && 8 <= size && size % 8 == 0
    ensures var r := RetryAfter(e, size);
            && Bytes(r.sys.heap.blocks) == Bytes(e.sys.heap.blocks)
            && FreePairs(r.sys.heap.blocks) <= FreePairs(e.sys.heap.blocks)
  {
    if e.ok {
      ServeAccounts(e.sys, size);
    }
  }

  /** Conservation for kmalloc on every path, failed ones included, with the free pairs it
      can add: none when the first search finds a block, pages - 1 when the heap expands, and
      one for every frame left when the frames run out. */
  lemma KmallocAccounts(s: System, n: nat)
    requires SystemOk(s)
    ensures var r := Kmalloc(s, n);
            && Conserves(s, r.sys)
            && (0 < n && FirstFit(s.heap, s.heap.links.head, RoundUp(n)) != 0 ==>
                  FreePairs(r.sys.heap.blocks) <= FreePairs(s.heap.blocks))
            && FreePairs(r.sys.heap.blocks)
               <= FreePairs(s.heap.blocks) + NewPairs(s, PagesNeeded(RoundUp(n) + HEADER_SIZE))
  {
    if n > 0 {
      if FirstFit(s.heap, s.heap.links.head, RoundUp(n)) != 0 {
        ServeAccounts(s, RoundUp(n));
      } else {
        ExpandAndRetryAccounts(s, PagesNeeded(RoundUp(n) + HEADER_SIZE), RoundUp(n));
      }
    }
  }
}
