/** Whole runs of kmalloc, kfree and client stores: what holds after every call, wherever the
    frames come from. */
module HeapRuns {
  import opened Machine
  import opened HeapModel
  import opened FreeLinks
  import opened HeapOps
  import opened HeapGrowth
  import opened Accounting
  import opened LiveBlocks
  import opened Blocks

  /** The calls, and the word stores of the clients between them. */
  datatype Op = Malloc(n: nat) | Free(ptr: int) | Write(addr: int, v: int)

  /** What a run may do in state s: any request, kfree of NULL or of a block of the heap, and a
      store to an aligned word of a live block. */
  ghost predicate Legal(s: System, op: Op)
    requires SystemOk(s)
  {
    match op
    case Malloc(n) => true
    case Free(ptr) => ptr != 0 ==> IsBlock(s.heap.blocks, ptr - HEADER_SIZE)
    case Write(addr, v) => addr % 8 == 0 && Owned(s.heap.blocks, addr)
  }

  ghost function Step(s: System, op: Op): (s': System)
    requires SystemOk(s) && Legal(s, op)
    ensures SystemOk(s')
  {
    match op
    case Malloc(n) => Kmalloc(s, n).sys
    case Free(ptr) => FreeOk(s, ptr); System(Kfree(s.heap, ptr), s.supply)
    case Write(addr, v) => s
  }

  lemma FreeOk(s: System, ptr: int)
    requires SystemOk(s) && Legal(s, Free(ptr))
    ensures SystemOk(System(Kfree(s.heap, ptr), s.supply))
  {
    if ptr != 0 {
      FreedBehind(s.heap.blocks, IndexOf(s.heap.blocks, ptr - HEADER_SIZE));
    }
    StillAhead(s, Kfree(s.heap, ptr));
  }

  lemma FreedBehind(bs: seq<Block>, i: nat)
    requires Spaced(bs) && i < |bs|
    ensures forall f :: Behind(bs, f) ==> Behind(FreedBlocks(bs, i), f)
  {
    var m := SetFree(bs, i, true);
    SetFreeSpaced(bs, i, true);
    MergedBehind(m, i);
    if i + 1 < |m| && m[i + 1].free {
      MergeSpaced(m, i);
    }
    MergedBehind(MergeNext(m, i), i);
  }

  ghost predicate LegalRun(s: System, ops: seq<Op>)
    requires SystemOk(s)
    decreases |ops|
  {
    ops == [] || (Legal(s, ops[0]) && LegalRun(Step(s, ops[0]), ops[1..]))
  }

  /** The state after a run. Its invariant holds, so it holds after every prefix too. */
  ghost function Run(s: System, ops: seq<Op>): (s': System)
    requires SystemOk(s) && LegalRun(s, ops)
    ensures SystemOk(s')
    decreases |ops|
  {
    if ops == [] then s else Run(Step(s, ops[0]), ops[1..])
  }

  /** What the requests of a run return, in order. */
  ghost function Answers(s: System, ops: seq<Op>): seq<int>
    requires SystemOk(s) && LegalRun(s, ops)
    decreases |ops|
  {
    if ops == [] then [] else
    (if ops[0].Malloc? then [Kmalloc(s, ops[0].n).ptr] else []) + Answers(Step(s, ops[0]), ops[1..])
  }

  // ---------------------------------------------------------------- conservation

  lemma StepConserves(s: System, op: Op)
    requires SystemOk(s) && Legal(s, op)
    ensures Conserves(s, Step(s, op))
  {
    match op
    case Malloc(n) => KmallocAccounts(s, n);
    case Free(ptr) => KfreeAccounts(s.heap, ptr);
    case Write(_, _) => FromZero(s.supply);
  }

  lemma FromZero(frames: seq<int>)
    ensures frames == frames[0..]
  {
  }

  lemma ConservesTrans(s: System, s1: System, s2: System)
    requires Conserves(s, s1) && Conserves(s1, s2)
    ensures Conserves(s, s2)
  {
    var a, b := |s.supply| - |s1.supply|, |s1.supply| - |s2.supply|;
    assert s.supply[a..][b..] == s.supply[a + b..];
  }

  /** After every run the blocks cover 4096 bytes for each frame drawn. */
  lemma {:induction false} RunConserves(s: System, ops: seq<Op>)
    requires SystemOk(s) && LegalRun(s, ops)
    ensures Conserves(s, Run(s, ops))
    decreases |ops|
  {
    if ops == [] {
      assert s.supply == s.supply[0..];
    } else {
      StepConserves(s, ops[0]);
      RunConserves(Step(s, ops[0]), ops[1..]);
      ConservesTrans(s, Step(s, ops[0]), Run(s, ops));
    }
  }

  // ---------------------------------------------------------------- free pairs

  /** The free pairs that an operation can add: pages - 1 for an expansion, one for every frame
      left when it fails, and none otherwise. */
  ghost function PairsOf(s: System, op: Op): nat
    requires SystemOk(s)
  {
    if op.Malloc? && 0 < op.n && FirstFit(s.heap, s.heap.links.head, RoundUp(op.n)) == 0
    then NewPairs(s, PagesNeeded(RoundUp(op.n) + HEADER_SIZE)) else 0
  }

  ghost function PairsOfRun(s: System, ops: seq<Op>): nat
    requires SystemOk(s) && LegalRun(s, ops)
    decreases |ops|
  {
    if ops == [] then 0 else PairsOf(s, ops[0]) + PairsOfRun(Step(s, ops[0]), ops[1..])
  }

  lemma StepPairs(s: System, op: Op)
    requires SystemOk(s) && Legal(s, op)
    ensures FreePairs(Step(s, op).heap.blocks) <= FreePairs(s.heap.blocks) + PairsOf(s, op)
  {
    match op
    case Malloc(n) => KmallocAccounts(s, n);
    case Free(ptr) => KfreeAccounts(s.heap, ptr);
    case Write(_, _) =>
  }

  /** No run adds more uncoalesced pairs of free blocks than its expansions bring. */
  lemma {:induction false} RunPairs(s: System, ops: seq<Op>)
    requires SystemOk(s) && LegalRun(s, ops)
    ensures FreePairs(Run(s, ops).heap.blocks) <= FreePairs(s.heap.blocks) + PairsOfRun(s, ops)
    decreases |ops|
  {
    if ops != [] {
      StepPairs(s, ops[0]);
      RunPairs(Step(s, ops[0]), ops[1..]);
    }
  }

  lemma {:induction false} PairsWhenFree(bs: seq<Block>)
    requires bs != [] && forall i :: 0 <= i < |bs| ==> bs[i].free
    ensures FreePairs(bs) == |bs| - 1
    decreases |bs|
  {
    if 1 < |bs| {
      PairsWhenFree(bs[1..]);
    }
  }

  /** Once everything is freed, the heap is in at most so many pieces. */
  lemma PiecesLeft(s: System, ops: seq<Op>)
    requires SystemOk(s) && LegalRun(s, ops) && Live(Run(s, ops).heap.blocks) == {}
    ensures |Run(s, ops).heap.blocks| <= FreePairs(s.heap.blocks) + PairsOfRun(s, ops) + 1
  {
    var bs := Run(s, ops).heap.blocks;
    RunPairs(s, ops);
    forall i | 0 <= i < |bs| ensures bs[i].free {
      assert bs[i] !in Live(bs);
    }
    if bs != [] {
      PairsWhenFree(bs);
    }
  }

  // ---------------------------------------------------------------- the first block

  function Base(s: System): int {
    if s.heap.blocks != [] then s.heap.blocks[0].addr else if s.supply != [] then s.supply[0] else 0
  }

  lemma PlacedBase(bs: seq<Block>, i: nat, n: int)
    requires i < |bs|
    ensures PlacedBlocks(bs, i, n) != [] && PlacedBlocks(bs, i, n)[0].addr == bs[0].addr
  {
  }

  lemma FreedBase(bs: seq<Block>, i: nat)
    requires i < |bs|
    ensures FreedBlocks(bs, i) != [] && FreedBlocks(bs, i)[0].addr == bs[0].addr
  {
    assert MergeNext(SetFree(bs, i, true), i)[0].addr == bs[0].addr;
  }

  lemma GrownBase(s: System, pages: nat)
    requires SystemOk(s) && 0 < pages
    ensures var t := Expand(s, pages).sys;
            if s.heap.blocks == [] && s.supply == [] then t.heap.blocks == []
            else t.heap.blocks != [] && t.heap.blocks[0].addr == Base(s)
  {
    var k := Drawn(s, pages);
    AppendedBlocks(s.heap, s.supply, k);
    var g := Grow(s, k).heap.blocks;
    if 0 < k || s.heap.blocks != [] {
      assert g[0].addr == Base(s);
    }
  }

  /** The heap never moves its first block, and empty stays empty only without frames. */
  ghost predicate SameBase(s: System, s': System) {
    && (s.heap.blocks != [] ==> s'.heap.blocks != [])
    && (s'.heap.blocks != [] ==> s'.heap.blocks[0].addr == Base(s))
    && (s'.heap.blocks == [] ==> s'.supply == s.supply)
  }

  lemma RetryBase(s: System, size: nat)
    requires SystemOk(s) && 8 <= size && size % 8 == 0
    ensures var r := Retry(s, size).sys;
            && r.supply == s.supply && (s.heap.blocks == [] <==> r.heap.blocks == [])
            && (s.heap.blocks != [] ==> r.heap.blocks[0].addr == s.heap.blocks[0].addr)
  {
    var fit := FirstFit(s.heap, s.heap.links.head, size);
    FirstFitFits(s.heap, s.heap.links.head, size);
    if fit != 0 {
      assert IsBlock(s.heap.blocks, fit);
      PlacedBase(s.heap.blocks, IndexOf(s.heap.blocks, fit), size);
    }
  }

  lemma ExpandAndRetryBase(s: System, pages: nat, size: nat)
    requires SystemOk(s) && 0 < pages && 8 <= size && size % 8 == 0
    ensures SameBase(s, RetryAfter(Expand(s, pages), size).sys)
  {
    ExpandBase(s, pages);
    var e := Expand(s, pages);
    if e.ok {
      RetryBase(e.sys, size);
    }
  }

  lemma ExpandBase(s: System, pages: nat)
    requires SystemOk(s) && 0 < pages
    ensures SameBase(s, Expand(s, pages).sys)
  {
    GrownBase(s, pages);
    if s.supply == [] {
      FromZero(s.supply);
    }
  }

  lemma StepBase(s: System, op: Op)
    requires SystemOk(s) && Legal(s, op)
    ensures SameBase(s, Step(s, op))
  {
    match op {
      case Malloc(n) =>
        if n > 0 {
          if FirstFit(s.heap, s.heap.links.head, RoundUp(n)) != 0 {
            RetryBase(s, RoundUp(n));
          } else {
            ExpandAndRetryBase(s, PagesNeeded(RoundUp(n) + HEADER_SIZE), RoundUp(n));
          }
        }
      case Free(ptr) =>
        if ptr != 0 {
          FreedBase(s.heap.blocks, IndexOf(s.heap.blocks, ptr - HEADER_SIZE));
        }
      case Write(_, _) =>
    }
  }

  /** No run moves the first block of the heap. */
  lemma {:induction false} RunKeepsBase(s: System, ops: seq<Op>)
    requires SystemOk(s) && LegalRun(s, ops)
    ensures SameBase(s, Run(s, ops))
    decreases |ops|
  {
    if ops != [] {
      StepBase(s, ops[0]);
      RunKeepsBase(Step(s, ops[0]), ops[1..]);
    }
  }

  // ---------------------------------------------------------------- free links

  /** After every run the free links are mutually inverse and acyclic over the free blocks,
      live blocks carry none, and free_list_head is NULL or a free block without prev_free. */
  lemma RunKeepsLinks(s: System, ops: seq<Op>, i: nat)
    requires SystemOk(s) && LegalRun(s, ops) && i < |Run(s, ops).heap.blocks|
    ensures var bs, l := Run(s, ops).heap.blocks, Run(s, ops).heap.links;
            var a := bs[i].addr;
            && (bs[i].free <==> a in l.next) && (a in l.next <==> a in l.prev)
            && (a in l.next && l.next[a] != 0 ==> Freed(bs, l.next[a]) && l.next[a] in l.prev && l.prev[l.next[a]] == a)
            && (a in l.prev && l.prev[a] != 0 ==> Freed(bs, l.prev[a]) && l.prev[a] in l.next && l.next[l.prev[a]] == a)
            && (forall n :: 0 < n && a in l.next ==> Follow(l, a, n) != a)
            && (l.head == 0 || (Freed(bs, l.head) && l.head in l.prev && l.prev[l.head] == 0))
  {
    var bs, l := Run(s, ops).heap.blocks, Run(s, ops).heap.links;
    var a := bs[i].addr;
    if a in l.next {
      assert LinkOk(l, a);
      forall n: nat | 0 < n ensures Follow(l, a, n) != a {
        Acyclic(l, a, n);
      }
      LinkedIsFreed(bs, l, l.next[a]);
      LinkedIsFreed(bs, l, l.prev[a]);
    }
    LinkedIsFreed(bs, l, l.head);
  }

  /** a is the address of a free block. */
  predicate Freed(bs: seq<Block>, a: int) {
    exists k :: 0 <= k < |bs| && bs[k].addr == a && bs[k].free
  }

  lemma LinkedIsFreed(bs: seq<Block>, l: Links, a: int)
    requires LinksMatch(bs, l)
    ensures a in l.next ==> Freed(bs, a)
  {
    if a in l.next {
      var k := IndexOf(bs, a);
      assert bs[k].addr == a && bs[k].free;
    }
  }

  // ---------------------------------------------------------------- blocks apart

  /** After every run, wherever the frames came from, every block is aligned and lies in RAM, and
      no address belongs to two of them, headers included. */
  lemma RunKeepsApart(s: System, ops: seq<Op>, i: nat, j: nat, x: int)
    requires SystemOk(s) && LegalRun(s, ops) && i < |Run(s, ops).heap.blocks| && j < |Run(s, ops).heap.blocks|
    ensures var bs := Run(s, ops).heap.blocks;
            && bs[i].addr % 8 == 0 && bs[i].size % 8 == 0 && RAM_BASE <= bs[i].addr && End(bs[i]) <= RAM_TOP
            && (i != j && bs[i].addr <= x < End(bs[i]) ==> !(bs[j].addr <= x < End(bs[j])))
  {
    var bs := Run(s, ops).heap.blocks;
    assert BlockOk(bs[i]);
    if i != j && bs[i].addr <= x < End(bs[i]) {
      Disjoint(bs, i, j, x);
    }
  }

  // ---------------------------------------------------------------- live blocks

  /** The run does not free b. */
  predicate Spares(ops: seq<Op>, b: Block) {
    forall k :: 0 <= k < |ops| && ops[k].Free? ==> ops[k].ptr != b.addr + HEADER_SIZE
  }

  /** A live block keeps its place, its size and its flag until it is freed. */
  lemma {:induction false} RunKeepsLive(s: System, ops: seq<Op>, b: Block)
    requires SystemOk(s) && LegalRun(s, ops) && b in Live(s.heap.blocks)
    requires Spares(ops, b)
    ensures b in Live(Run(s, ops).heap.blocks)
    decreases |ops|
  {
    if ops != [] {
      StepKeepsLive(s, ops[0], b);
      RunKeepsLive(Step(s, ops[0]), ops[1..], b);
    }
  }

  lemma StepKeepsLive(s: System, op: Op, b: Block)
    requires SystemOk(s) && Legal(s, op) && b in Live(s.heap.blocks)
    requires op.Free? ==> op.ptr != b.addr + HEADER_SIZE
    ensures b in Live(Step(s, op).heap.blocks)
  {
    match op
    case Malloc(n) => KmallocLive(s, n);
    case Free(ptr) => KfreeLive(s.heap, ptr);
    case Write(_, _) =>
  }

  // ---------------------------------------------------------------- frames drawn

  /** The frames an operation draws. */
  ghost function Wanted(s: System, op: Op): nat
    requires SystemOk(s)
  {
    match op
    case Malloc(n) =>
      if 0 < n && FirstFit(s.heap, s.heap.links.head, RoundUp(n)) == 0
      then Drawn(s, PagesNeeded(RoundUp(n) + HEADER_SIZE)) else 0
    case _ => 0
  }

  lemma WantedIsDrawn(s: System, op: Op)
    requires SystemOk(s) && Legal(s, op)
    ensures |Step(s, op).supply| == |s.supply| - Wanted(s, op)
    ensures Step(s, op).supply == s.supply[Wanted(s, op)..]
  {
    FromZero(s.supply);
  }
}
