/** Runs of kmalloc and kfree on memory: the calls reach the state of the value model, and
    what clients hold keeps its contents. */
module Execution {
  import opened Machine
  import opened Bitmap
  import opened FrameBits
  import opened FrameAlloc
  import FrameRuns
  import opened HeapModel
  import opened HeapGrowth
  import opened LiveBlocks
  import opened Headers
  import opened HeapRuns
  import opened HeapWords
  import opened KHeap
  import opened Blocks
  import opened Tiling
  import opened Boot
  import opened BootCases

  /** No request is so large that its size arithmetic wraps. */
  predicate NoWrap(ops: seq<Op>) {
    forall k :: 0 <= k < |ops| && ops[k].Malloc? ==> RoundUp(ops[k].n) + 2 * HEADER_SIZE + PAGE_SIZE - 1 < TWO64
  }

  /** After an operation every owned word of memory holds what the model says. */
  ghost predicate WordsAfter(m: Memory, m': Memory, s: System, op: Op)
    requires SystemOk(s) && Legal(s, op)
  {
    forall x :: Owned(Step(s, op).heap.blocks, x) ==> x in m && x in m' && m'[x] == WordAfter(s, op, x, m[x])
  }

  lemma OwnedIsMapped(m: Memory, h: Heap, x: int)
    requires Mapped(m) && HeapOk(h) && Owned(h.blocks, x)
    ensures x in m
  {
    var b :| b in Live(h.blocks) && InPayload(b, x);
    assert BlockOk(b);
  }

  lemma MallocWords(m: Memory, m': Memory, s: System, n: nat)
    requires Mapped(m) && Mapped(m') && SystemOk(s)
    requires forall b :: b in Live(s.heap.blocks) ==> PayloadKept(m, m', b)
    requires var r := Kmalloc(s, n); r.ptr != 0 ==> Cleared(m', r.sys.heap, r.ptr)
    ensures WordsAfter(m, m', s, Malloc(n))
  {
    var t := Step(s, Malloc(n));
    forall x | Owned(t.heap.blocks, x) ensures x in m && x in m' && m'[x] == WordAfter(s, Malloc(n), x, m[x]) {
      OwnedIsMapped(m, t.heap, x);
      OwnedIsMapped(m', t.heap, x);
      OwnerStep(s, Malloc(n), x);
      if Owned(s.heap.blocks, x) {
        var b :| b in Live(s.heap.blocks) && InPayload(b, x);
        AnswerIsNew(s, n, b, x);
        assert PayloadKept(m, m', b);
      }
    }
  }

  lemma FreeWords(m: Memory, m': Memory, s: System, ptr: int)
    requires Mapped(m) && Mapped(m') && SystemOk(s) && Legal(s, Free(ptr))
    requires forall b :: b in s.heap.blocks ==> PayloadKept(m, m', b)
    ensures WordsAfter(m, m', s, Free(ptr))
  {
    var t := Step(s, Free(ptr));
    forall x | Owned(t.heap.blocks, x) ensures x in m && x in m' && m'[x] == m[x] {
      OwnedIsMapped(m, t.heap, x);
      OwnerStep(s, Free(ptr), x);
      var b :| b in Live(s.heap.blocks) && InPayload(b, x);
      assert PayloadKept(m, m', b);
    }
  }

  lemma WriteWords(m: Memory, s: System, addr: int, v: int)
    requires Mapped(m) && SystemOk(s) && Legal(s, Write(addr, v))
    ensures WordsAfter(m, m[addr := v], s, Write(addr, v))
  {
    forall x | Owned(s.heap.blocks, x) ensures x in m {
      OwnedIsMapped(m, s.heap, x);
    }
  }

  /** One call, or one store of a client, on memory. */
  method Call(k: KernelHeap, op: Op, ghost s: System, ghost t: System) returns (answer: seq<int>)
    requires k.Valid() && k.IsAt(s) && SystemOk(s) && Legal(s, op) && NoWrap([op]) && t == Step(s, op)
    modifies k.ram, k`hdrs, k`freeListHead, k`heapStart, k`heapEnd, k`heap, k.pmm`free, k.pmm`freeMemory, k.pmm.bitmap
    ensures k.Valid() && k.IsAt(t) && WordsAfter(old(k.ram.mem), k.ram.mem, s, op)
    ensures answer == if op.Malloc? then [HeapGrowth.Kmalloc(s, op.n).ptr] else []
  {
    ghost var m := k.ram.mem;
    answer := [];
    match op
    case Malloc(n) =>
      assert op == [op][0];
      var ptr := k.Kmalloc(n, s, HeapGrowth.Kmalloc(s, n));
      answer := [ptr];
      MallocWords(m, k.ram.mem, s, n);
    case Free(ptr) =>
      k.Kfree(ptr);
      FreeWords(m, k.ram.mem, s, ptr);
    case Write(addr, v) =>
      ghost var b :| b in Live(s.heap.blocks) && InPayload(b, addr);
      k.WritePayload(addr, v, b);
      WriteWords(m, s, addr, v);
  }

  /** At the end of a run every owned word of memory holds what the model says. */
  ghost predicate WordsAtEnd(m: Memory, m': Memory, s: System, ops: seq<Op>)
    requires SystemOk(s) && LegalRun(s, ops)
  {
    forall x :: Owned(Run(s, ops).heap.blocks, x) ==> x in m && x in m' && m'[x] == Word(s, ops, x, m[x])
  }

  lemma WordsThrough(m: Memory, m1: Memory, m2: Memory, s: System, ops: seq<Op>)
    requires Mapped(m) && SystemOk(s) && LegalRun(s, ops) && ops != []
    requires WordsAfter(m, m1, s, ops[0]) && WordsAtEnd(m1, m2, Step(s, ops[0]), ops[1..])
    ensures WordsAtEnd(m, m2, s, ops)
  {
    var t := Step(s, ops[0]);
    forall x | Owned(Run(s, ops).heap.blocks, x) ensures x in m && x in m2 && m2[x] == Word(s, ops, x, m[x]) {
      OwnedIsMapped(m, Run(s, ops).heap, x);
      if !Owned(t.heap.blocks, x) {
        WordForgets(t, ops[1..], x, m1[x], WordAfter(s, ops[0], x, m[x]));
      }
    }
  }

  /** Any legal run on memory ends in the state of the model with the answers of the model, and
      every word of a block then live holds what was last written to it, or zero if nothing
      was since kmalloc. */
  method Execute(k: KernelHeap, ops: seq<Op>, ghost s: System) returns (answers: seq<int>)
    requires k.Valid() && k.IsAt(s) && SystemOk(s) && LegalRun(s, ops) && NoWrap(ops)
    modifies k.ram, k`hdrs, k`freeListHead, k`heapStart, k`heapEnd, k`heap, k.pmm`free, k.pmm`freeMemory, k.pmm.bitmap
    ensures k.Valid() && k.IsAt(Run(s, ops)) && WordsAtEnd(old(k.ram.mem), k.ram.mem, s, ops)
    ensures answers == HeapRuns.Answers(s, ops)
    decreases |ops|
  {
    ghost var m := k.ram.mem;
    if ops != [] {
      ghost var t := Step(s, ops[0]);
      assert ops == [ops[0]] + ops[1..];
      var first := Call(k, ops[0], s, t);
      ghost var m1 := k.ram.mem;
      var rest := Execute(k, ops[1..], t);
      answers := first + rest;
      WordsThrough(m, m1, k.ram.mem, s, ops);
    } else {
      answers := [];
      forall x | Owned(s.heap.blocks, x) ensures x in m {
        OwnedIsMapped(m, s.heap, x);
      }
    }
  }

  // ---------------------------------------------------------------- from boot on

  /** The heap and the frames before and after kheap_init. */
  ghost function BeforeInit(params: BootParams, linkerStart: nat, linkerEnd: nat, bitmapStart: nat): System {
    Start(FrameRuns.Reserved(params, linkerStart, linkerEnd, bitmapStart))
  }

  ghost function AtBoot(params: BootParams, linkerStart: nat, linkerEnd: nat, bitmapStart: nat): (s: System)
    ensures SystemOk(s)
  {
    Booted(FrameRuns.Reserved(params, linkerStart, linkerEnd, bitmapStart))
  }

  /** frame_alloc_init and kheap_init. */
  method BootHeap(k: KernelHeap, params: BootParams, linkerStart: nat, linkerEnd: nat, bitmapStart: nat)
    requires k.ram == k.pmm.ram && Mapped(k.ram.mem) && k.pmm.bitmap.Length == BITMAP_BYTES
    requires linkerStart < TWO64 && linkerEnd < TWO64 && bitmapStart < TWO64
    requires params.Given? ==> params.kernelStart < TWO64 && params.kernelEnd < TWO64
    modifies k, k.ram, k.pmm, k.pmm.bitmap
    ensures k.Valid() && k.IsAt(AtBoot(params, linkerStart, linkerEnd, bitmapStart))
  {
    ghost var reserved := FrameRuns.Reserved(params, linkerStart, linkerEnd, bitmapStart);
    FrameRuns.Begin(k.pmm, params, linkerStart, linkerEnd, bitmapStart);
    ghost var s := Start(reserved);
    k.KheapInit(s, Expand(s, 5));
  }

  /** Nothing is live after boot, so every word owned at the end of a run is determined. */
  lemma BootWords(reserved: set<int>, m: Memory, m': Memory, ops: seq<Op>, x: int)
    requires reserved <= AllFrames() && LegalRun(Booted(reserved), ops)
    requires WordsAtEnd(m, m', Booted(reserved), ops) && Owned(Run(Booted(reserved), ops).heap.blocks, x)
    ensures x in m' && m'[x] == Word(Booted(reserved), ops, x, 0)
  {
    ExpandLive(Start(reserved), 5);
    WordForgets(Booted(reserved), ops, x, m[x], 0);
  }

  /** The kernel from boot on, wherever image and bitmap lie. Every run of calls and client stores
      returns what the model says and leaves its state in memory, and every word of a live block
      holds what was last written to it, or zero. The heap is tiled and covers exactly the
      frames drawn since initialization if and only if those frames follow one another. */
  method BootAndRun(k: KernelHeap, params: BootParams, linkerStart: nat, linkerEnd: nat, bitmapStart: nat, ops: seq<Op>)
    returns (answers: seq<int>)
    requires k.ram == k.pmm.ram && Mapped(k.ram.mem) && k.pmm.bitmap.Length == BITMAP_BYTES
    requires linkerStart < TWO64 && linkerEnd < TWO64 && bitmapStart < TWO64
    requires params.Given? ==> params.kernelStart < TWO64 && params.kernelEnd < TWO64
    requires LegalRun(AtBoot(params, linkerStart, linkerEnd, bitmapStart), ops) && NoWrap(ops)
    modifies k, k.ram, k.pmm, k.pmm.bitmap
    ensures var s := AtBoot(params, linkerStart, linkerEnd, bitmapStart);
            && k.Valid() && k.IsAt(Run(s, ops)) && answers == HeapRuns.Answers(s, ops)
            && forall x :: Owned(k.heap.blocks, x) ==> x in k.ram.mem && k.ram.mem[x] == Word(s, ops, x, 0)
    ensures var s, t := BeforeInit(params, linkerStart, linkerEnd, bitmapStart), System(k.heap, Supply(k.pmm.free));
            Used(s, t) >= 0 && (Tiled(k.heap.blocks) && Exactly(s, t) <==> Contiguous(s, Used(s, t)))
  {
    ghost var reserved := FrameRuns.Reserved(params, linkerStart, linkerEnd, bitmapStart);
    ghost var s := AtBoot(params, linkerStart, linkerEnd, bitmapStart);
    BootHeap(k, params, linkerStart, linkerEnd, bitmapStart);
    answers := RunBooted(k, ops, reserved, s);
    BootRunTiles(reserved, ops);
    assert System(k.heap, Supply(k.pmm.free)) == Run(s, ops);
  }

  method RunBooted(k: KernelHeap, ops: seq<Op>, ghost reserved: set<int>, ghost s: System) returns (answers: seq<int>)
    requires reserved <= AllFrames() && s == Booted(reserved) && k.Valid() && k.IsAt(s)
    requires LegalRun(s, ops) && NoWrap(ops)
    modifies k.ram, k`hdrs, k`freeListHead, k`heapStart, k`heapEnd, k`heap, k.pmm`free, k.pmm`freeMemory, k.pmm.bitmap
    ensures k.Valid() && k.IsAt(Run(s, ops)) && answers == HeapRuns.Answers(s, ops)
    ensures forall x :: Owned(k.heap.blocks, x) ==> x in k.ram.mem && k.ram.mem[x] == Word(s, ops, x, 0)
  {
    ghost var m := k.ram.mem;
    answers := Execute(k, ops, s);
    BootWordsAll(reserved, m, k.ram.mem, ops, k.heap);
  }

  lemma BootWordsAll(reserved: set<int>, m: Memory, m': Memory, ops: seq<Op>, h: Heap)
    requires reserved <= AllFrames() && LegalRun(Booted(reserved), ops)
    requires WordsAtEnd(m, m', Booted(reserved), ops) && h == Run(Booted(reserved), ops).heap
    ensures forall x :: Owned(h.blocks, x) ==> x in m' && m'[x] == Word(Booted(reserved), ops, x, 0)
  {
    forall x | Owned(h.blocks, x) ensures x in m' && m'[x] == Word(Booted(reserved), ops, x, 0) {
      BootWords(reserved, m, m', ops, x);
    }
  }

  // ---------------------------------------------------------------- the image in the way

  /** The image and the bitmap lie at or above the address in the linker script. */
  predicate ImageAbove(params: BootParams, linkerStart: nat, bitmapStart: nat) {
    && 0x4008_0000 <= (if params.Given? then params.kernelStart else linkerStart)
    && 0x4008_0000 <= bitmapStart
  }

  lemma ReservedAbove(params: BootParams, linkerStart: nat, linkerEnd: nat, bitmapStart: nat)
    requires ImageAbove(params, linkerStart, bitmapStart)
    ensures AboveLowFrames(FrameRuns.Reserved(params, linkerStart, linkerEnd, bitmapStart))
  {
  }

  /** The first frame of an image at 0x40080000 is the one behind the low frames. */
  lemma ImageReserved(params: BootParams, linkerStart: nat, linkerEnd: nat, bitmapStart: nat)
    requires linkerStart < TWO64 && linkerEnd < TWO64
    requires params.Given? ==> params.kernelStart < TWO64 && params.kernelEnd < TWO64
    requires (if params.Given? then params.kernelStart else linkerStart) == 0x4008_0000
    requires 0x4008_0000 < (if params.Given? then params.kernelEnd else linkerEnd)
    ensures LOW_FRAMES in FrameRuns.Reserved(params, linkerStart, linkerEnd, bitmapStart)
  {
    SizeToEnd(params, linkerStart, linkerEnd);
    RangeReached(0x4008_0000, if params.Given? then params.kernelEnd else linkerEnd,
                 KernelSize(params, linkerStart, linkerEnd), LOW_FRAMES);
  }

  /** What the fourth request of BootCases.ImageHandedOut clears. */
  lemma PageCleared(m: Memory, h: Heap)
    requires HeapOk(h) && Block(IMAGE_START - HEADER_SIZE, 4096, false) in h.blocks && Cleared(m, h, IMAGE_START)
    ensures forall x :: IMAGE_START <= x < IMAGE_START + PAGE_SIZE ==> x in m && m[x] == 0
  {
    var i :| 0 <= i < |h.blocks| && h.blocks[i] == Block(IMAGE_START - HEADER_SIZE, 4096, false);
    IndexOfBlock(h.blocks, i);
  }

  /** Four requests on the booted kernel, with the image right behind the low frames and a free
      frame beyond it: the last returns the first byte of the image, and its page is cleared. */
  method HandOutImage(k: KernelHeap, params: BootParams, linkerStart: nat, linkerEnd: nat, bitmapStart: nat)
    returns (ptr: int)
    requires k.ram == k.pmm.ram && Mapped(k.ram.mem) && k.pmm.bitmap.Length == BITMAP_BYTES
    requires linkerStart < TWO64 && linkerEnd < TWO64 && bitmapStart < TWO64
    requires params.Given? ==> params.kernelStart < TWO64 && params.kernelEnd < TWO64
    requires ImageAbove(params, linkerStart, bitmapStart)
    requires LOW_FRAMES < |BeforeInit(params, linkerStart, linkerEnd, bitmapStart).supply|
    modifies k, k.ram, k.pmm, k.pmm.bitmap
    ensures k.Valid() && ptr == IMAGE_START
    ensures forall x :: IMAGE_START <= x < IMAGE_START + PAGE_SIZE ==> x in k.ram.mem && k.ram.mem[x] == 0
  {
    ghost var reserved := FrameRuns.Reserved(params, linkerStart, linkerEnd, bitmapStart);
    ghost var s0 := Booted(reserved);
    BootHeap(k, params, linkerStart, linkerEnd, bitmapStart);
    ReservedAbove(params, linkerStart, linkerEnd, bitmapStart);
    ghost var s1, s2, s3 := ImageHandedOut(reserved);
    ptr := k.Kmalloc(503712, s0, HeapGrowth.Kmalloc(s0, 503712));
    ptr := k.Kmalloc(8144, s1, HeapGrowth.Kmalloc(s1, 8144));
    ptr := k.Kmalloc(4000, s2, HeapGrowth.Kmalloc(s2, 4000));
    ptr := k.Kmalloc(4096, s3, HeapGrowth.Kmalloc(s3, 4096));
    PageCleared(k.ram.mem, k.heap);
  }

  /** free_frame does not know the image: after frame_alloc_init with the image at 0x40080000,
      giving that address back makes the 129th alloc_frame answer it. */
  method GiveImageBack(p: FrameAllocator, params: BootParams, linkerStart: nat, linkerEnd: nat, bitmapStart: nat)
    returns (frames: seq<int>)
    requires p.bitmap.Length == BITMAP_BYTES && Mapped(p.ram.mem)
    requires linkerStart < TWO64 && linkerEnd < TWO64 && bitmapStart < TWO64
    requires params.Given? ==> params.kernelStart < TWO64 && params.kernelEnd < TWO64
    requires (if params.Given? then params.kernelStart else linkerStart) == 0x4008_0000
    requires 0x4008_0000 < (if params.Given? then params.kernelEnd else linkerEnd)
    requires 0x4008_0000 <= bitmapStart
    modifies p, p.bitmap, p.ram
    ensures |frames| == 129 && frames[128] == 0x4008_0000
  {
    ReservedAbove(params, linkerStart, linkerEnd, bitmapStart);
    ImageReserved(params, linkerStart, linkerEnd, bitmapStart);
    frames := FrameRuns.GiveAndTake(p, params, linkerStart, linkerEnd, bitmapStart, LOW_FRAMES);
  }
}
