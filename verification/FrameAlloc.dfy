/** The physical frame allocator of src/memory/frame_alloc.c. */
module FrameAlloc {
  import opened Machine
  import opened Bitmap
  import opened FrameBits

  class FrameAllocator {
    const ram: Ram
    const bitmap: array<bv8>
    var totalMemory: int
    var freeMemory: int
    var highestUsable: int

    /** The set of free frames that the bitmap stands for. */
    ghost var free: set<int>

    /** The frames frame_alloc_init set aside: the kernel image and the bitmap. */
    ghost var reserved: set<int>

    constructor (ram: Ram, bitmap: array<bv8>)
      requires bitmap.Length == BITMAP_BYTES
      ensures this.ram == ram && this.bitmap == bitmap
    {
      this.ram := ram;
      this.bitmap := bitmap;
      totalMemory, freeMemory, highestUsable := 0, 0, 0;
      free, reserved := {}, {};
    }

    ghost predicate Tracks()
      reads this, bitmap
    {
      bitmap.Length == BITMAP_BYTES && Shows(bitmap[..], free)
    }

    /** Frames handed out and not yet given back. */
    ghost function Outstanding(): set<int>
      reads this
    {
      AllFrames() - reserved - free
    }

    /** The bitmap and free_memory agree on the free frames. */
    ghost predicate Counted()
      reads this, bitmap, ram
    {
      Tracks() && Mapped(ram.mem) && freeMemory == PAGE_SIZE * |free|
    }

    ghost predicate Valid()
      reads this, bitmap, ram
    {
      && Counted() && reserved <= AllFrames() && free !! reserved
      && totalMemory == PAGE_SIZE * |AllFrames() - reserved|
    }

    // -------------------------------------------------------------- bits

    method SetBit(bit: nat)
      requires Tracks() && bit < TOTAL_FRAMES
      modifies bitmap, this`free
      ensures Tracks() && free == old(free) - {bit}
    {
      ghost var bytes := bitmap[..];
      MasksChange(bitmap[bit / 8], bit % 8);
      bitmap[bit / 8] := bitmap[bit / 8] | Mask(bit % 8);
      assert bitmap[..] == bytes[bit / 8 := bitmap[bit / 8]];
      ByteUpdate(bytes, free, bit, bitmap[bit / 8], true);
      free := free - {bit};
    }

    method ClearBit(bit: nat)
      requires Tracks() && bit < TOTAL_FRAMES
      modifies bitmap, this`free
      ensures Tracks() && free == old(free) + {bit}
    {
      ghost var bytes := bitmap[..];
      MasksChange(bitmap[bit / 8], bit % 8);
      bitmap[bit / 8] := bitmap[bit / 8] & !Mask(bit % 8);
      assert bitmap[..] == bytes[bit / 8 := bitmap[bit / 8]];
      ByteUpdate(bytes, free, bit, bitmap[bit / 8], false);
      free := free + {bit};
    }

    method TestBit(bit: nat) returns (used: bool)
      requires Tracks() && bit < TOTAL_FRAMES
      ensures used <==> bit !in free
    {
      used := bitmap[bit / 8] & Mask(bit % 8) != 0;
      assert used == Bit(bitmap[..], bit);
    }

    // -------------------------------------------------------------- ranges

    /** The loop of mark_range_used over frames lo up to, not including, hi, with its guarded
        decrements. */
    method UseFrames(lo: nat, hi: nat)
      requires Tracks() && hi <= TOTAL_FRAMES && 0 <= freeMemory && 0 <= totalMemory
      modifies this`totalMemory, this`freeMemory, this`free, bitmap
      ensures Tracks()
      ensures free == old(free) - Between(lo, hi)
      ensures freeMemory == Lowered(old(freeMemory), Count(old(free), lo, hi))
      ensures totalMemory == Lowered(old(totalMemory), Count(old(free), lo, hi))
    {
      ghost var f := free;
      var i := lo;
      while i < hi
        invariant Tracks() && lo <= i && (i <= hi || i == lo)
        invariant forall j :: j in free <==> j in f && !(lo <= j < i)
        invariant freeMemory == Lowered(old(freeMemory), Count(f, lo, i))
        invariant totalMemory == Lowered(old(totalMemory), Count(f, lo, i))
      {
        var used := TestBit(i);
        if !used {
          SetBit(i);
          if totalMemory >= PAGE_SIZE { totalMemory := totalMemory - PAGE_SIZE; }
          if freeMemory >= PAGE_SIZE { freeMemory := freeMemory - PAGE_SIZE; }
        }
        i := i + 1;
      }
      InBetween(lo, hi);
    }

    /** One turn of the loop of mark_range_free. */
    method FreeOne(i: nat, ghost f: set<int>, ghost top: int)
      requires Tracks() && i < TOTAL_FRAMES && TopRaised(f, free, top, highestUsable) && (i in f ==> i in free)
      modifies this`totalMemory, this`freeMemory, this`highestUsable, this`free, bitmap
      ensures Tracks() && free == old(free) + {i} && TopRaised(f, free, top, highestUsable)
      ensures freeMemory == old(freeMemory) + if i in old(free) then 0 else PAGE_SIZE
      ensures totalMemory == old(totalMemory) + if i in old(free) then 0 else PAGE_SIZE
    {
      ghost var before := highestUsable;
      var used := TestBit(i);
      if used {
        totalMemory := totalMemory + PAGE_SIZE;
        freeMemory := freeMemory + PAGE_SIZE;
        if RAM_BASE + (i + 1) * PAGE_SIZE > highestUsable {
          highestUsable := RAM_BASE + (i + 1) * PAGE_SIZE;
        }
      }
      TopStep(f, free, i, top, before, highestUsable);
      ClearBit(i);
    }

    /** The loop of mark_range_free. */
    method FreeFrames(lo: nat, hi: nat)
      requires Tracks() && hi <= TOTAL_FRAMES
      modifies this`totalMemory, this`freeMemory, this`highestUsable, this`free, bitmap
      ensures Tracks()
      ensures free == old(free) + Between(lo, hi)
      ensures freeMemory == old(freeMemory) + PAGE_SIZE * Count(AllFrames() - old(free), lo, hi)
      ensures totalMemory == old(totalMemory) + PAGE_SIZE * Count(AllFrames() - old(free), lo, hi)
      ensures TopRaised(old(free), free, old(highestUsable), highestUsable)
    {
      ghost var f, g := free, AllFrames() - free;
      var i := lo;
      while i < hi
        invariant Tracks() && lo <= i && (i <= hi || i == lo)
        invariant forall j :: j in free <==> j in f || lo <= j < i
        invariant freeMemory == old(freeMemory) + PAGE_SIZE * Count(g, lo, i)
        invariant totalMemory == old(totalMemory) + PAGE_SIZE * Count(g, lo, i)
        invariant TopRaised(f, free, old(highestUsable), highestUsable)
      {
        assert IsFrame(i);
        FreeOne(i, f, old(highestUsable));
        i := i + 1;
      }
      InBetween(lo, hi);
    }

    /** mark_range_used once the frame numbers are known. */
    method UseSpan(startFrame: nat, lastFrame: nat)
      requires Tracks() && 0 <= freeMemory && 0 <= totalMemory
      modifies this`totalMemory, this`freeMemory, this`free, bitmap
      ensures Tracks() && free == old(free) - Between(startFrame, lastFrame + 1)
      ensures freeMemory == Lowered(old(freeMemory), |old(free) * Between(startFrame, lastFrame + 1)|)
      ensures totalMemory == Lowered(old(totalMemory), |old(free) * Between(startFrame, lastFrame + 1)|)
    {
      if startFrame >= TOTAL_FRAMES {
        BeyondTop(startFrame, lastFrame + 1);
        return;
      }
      var endFrame := lastFrame;
      if endFrame >= TOTAL_FRAMES { endFrame := TOTAL_FRAMES - 1; }
      Capped(free, startFrame, lastFrame + 1, endFrame + 1);
      UseFrames(startFrame, endFrame + 1);
    }

    /** mark_range_free once the frame numbers are known. */
    method FreeSpan(startFrame: nat, lastFrame: nat)
      requires Tracks()
      modifies this`totalMemory, this`freeMemory, this`highestUsable, this`free, bitmap
      ensures Tracks() && free == old(free) + Between(startFrame, lastFrame + 1)
      ensures freeMemory == old(freeMemory) + PAGE_SIZE * |Between(startFrame, lastFrame + 1) - old(free)|
      ensures totalMemory == old(totalMemory) + PAGE_SIZE * |Between(startFrame, lastFrame + 1) - old(free)|
      ensures TopRaised(old(free), free, old(highestUsable), highestUsable)
    {
      if startFrame >= TOTAL_FRAMES {
        BeyondTop(startFrame, lastFrame + 1);
        return;
      }
      var endFrame := lastFrame;
      if endFrame >= TOTAL_FRAMES { endFrame := TOTAL_FRAMES - 1; }
      CappedOut(free, startFrame, lastFrame + 1, endFrame + 1);
      FreeFrames(startFrame, endFrame + 1);
    }

    /** Takes the frames of an address range out of use, and out of both counters as far as
        the guards let it. */
    method MarkRangeUsed(base: nat, size: nat)
      requires Tracks() && base < TWO64 && size < TWO64 && 0 <= freeMemory && 0 <= totalMemory
      modifies this`totalMemory, this`freeMemory, this`free, bitmap
      ensures Tracks() && free == old(free) - RangeFrames(base, size)
      ensures freeMemory == Lowered(old(freeMemory), |old(free) * RangeFrames(base, size)|)
      ensures totalMemory == Lowered(old(totalMemory), |old(free) * RangeFrames(base, size)|)
    {
      UseSpan(StartFrame(base), EndFrame(base, size));
    }

    /** Puts the frames of an address range into use, counting those that were not. */
    method MarkRangeFree(base: nat, size: nat)
      requires Tracks() && base < TWO64 && size < TWO64
      modifies this`totalMemory, this`freeMemory, this`highestUsable, this`free, bitmap
      ensures Tracks() && free == old(free) + RangeFrames(base, size)
      ensures freeMemory == old(freeMemory) + PAGE_SIZE * |RangeFrames(base, size) - old(free)|
      ensures totalMemory == old(totalMemory) + PAGE_SIZE * |RangeFrames(base, size) - old(free)|
      ensures TopRaised(old(free), free, old(highestUsable), highestUsable)
    {
      FreeSpan(StartFrame(base), EndFrame(base, size));
    }

    // -------------------------------------------------------------- frame_alloc_init

    /** memset of the bitmap with 0xFF: every frame counts as used. */
    method FillBitmap()
      requires bitmap.Length == BITMAP_BYTES
      modifies bitmap, this`free
      ensures Tracks() && free == {}
    {
      var k := 0;
      while k < bitmap.Length
        invariant 0 <= k <= bitmap.Length
        invariant forall j :: 0 <= j < k ==> bitmap[j] == 0xFF
      {
        bitmap[k] := 0xFF;
        k := k + 1;
      }
      free := {};
      AllUsed(bitmap[..]);
    }

    /** Frees all managed frames, then takes back the kernel image (from the boot parameters
        when there are any, else from the linker) and the bitmap. */
    method Init(params: BootParams, linkerStart: nat, linkerEnd: nat, bitmapStart: nat)
      requires bitmap.Length == BITMAP_BYTES && Mapped(ram.mem)
      requires linkerStart < TWO64 && linkerEnd < TWO64 && bitmapStart < TWO64
      requires params.Given? ==> params.kernelStart < TWO64 && params.kernelEnd < TWO64
      modifies this, bitmap
      ensures Valid() && highestUsable == RAM_TOP && Outstanding() == {}
      ensures reserved == RangeFrames(KernelStart(params, linkerStart), KernelSize(params, linkerStart, linkerEnd))
                          + RangeFrames(bitmapStart, BITMAP_BYTES)
      ensures var lo := if params.Given? then params.kernelStart else linkerStart;
              var hi := if params.Given? then params.kernelEnd else linkerEnd;
              Visited(free, reserved, lo, hi, bitmapStart) && Untouched(free, lo, hi, bitmapStart)
    {
      Prepare(KernelStart(params, linkerStart), KernelSize(params, linkerStart, linkerEnd), bitmapStart);
      InitReserves(params, linkerStart, linkerEnd, bitmapStart, free, reserved);
    }

    method Prepare(kernelStart: nat, kernelSize: nat, bitmapStart: nat)
      requires bitmap.Length == BITMAP_BYTES && Mapped(ram.mem)
      requires kernelStart < TWO64 && kernelSize < TWO64 && bitmapStart < TWO64
      modifies this, bitmap
      ensures Valid() && highestUsable == RAM_TOP && Outstanding() == {} && free == AllFrames() - reserved
      ensures reserved == RangeFrames(kernelStart, kernelSize) + RangeFrames(bitmapStart, BITMAP_BYTES)
    {
      FillBitmap();
      totalMemory, freeMemory := 0, 0;
      highestUsable := RAM_BASE;
      OpenRam();
      Reserve(kernelStart, kernelSize, bitmapStart);
      assert free == AllFrames() - reserved;
      assert AllFrames() - reserved - free == {};
    }

    method OpenRam()
      requires Tracks() && free == {} && totalMemory == freeMemory == 0 && highestUsable == RAM_BASE
      modifies this, bitmap
      ensures Tracks() && free == AllFrames() && totalMemory == freeMemory == PAGE_SIZE * |free|
      ensures highestUsable == RAM_TOP
    {
      WholeRam();
      MarkRangeFree(RAM_BASE, RAM_TOP - RAM_BASE);
      assert free == AllFrames();
      assert RangeFrames(RAM_BASE, RAM_TOP - RAM_BASE) - {} == free;
      assert TOTAL_FRAMES - 1 in free;
    }

    method Reserve(kernelStart: nat, kernelSize: nat, bitmapStart: nat)
      requires Tracks() && free == AllFrames() && totalMemory == freeMemory == PAGE_SIZE * |free|
      requires kernelStart < TWO64 && kernelSize < TWO64 && bitmapStart < TWO64
      modifies this`totalMemory, this`freeMemory, this`free, this`reserved, bitmap
      ensures Tracks() && totalMemory == freeMemory == PAGE_SIZE * |free|
      ensures reserved == RangeFrames(kernelStart, kernelSize) + RangeFrames(bitmapStart, BITMAP_BYTES)
      ensures free == AllFrames() - reserved
    {
      TakenAway(free, RangeFrames(kernelStart, kernelSize));
      MarkRangeUsed(kernelStart, kernelSize);
      TakenAway(free, RangeFrames(bitmapStart, BITMAP_BYTES));
      MarkRangeUsed(bitmapStart, BITMAP_BYTES);
      reserved := RangeFrames(kernelStart, kernelSize) + RangeFrames(bitmapStart, BITMAP_BYTES);
    }

    // -------------------------------------------------------------- alloc_frame and free_frame

    /** The search loop of alloc_frame. */
    method FirstFree() returns (i: nat)
      requires Tracks()
      ensures i <= TOTAL_FRAMES && (forall j :: 0 <= j < i ==> j !in free) && (i < TOTAL_FRAMES ==> i in free)
    {
      i := 0;
      while i < TOTAL_FRAMES
        invariant 0 <= i <= TOTAL_FRAMES
        invariant forall j :: 0 <= j < i ==> j !in free
        modifies {}
      {
        var used := TestBit(i);
        if !used { return; }
        i := i + 1;
      }
    }

    /** Lines 145-154: take free frame i and clear it. */
    method TakeFrame(i: nat) returns (frame: int)
      requires Counted() && i < TOTAL_FRAMES && i in free
      modifies this`freeMemory, this`free, bitmap, ram
      ensures Counted() && (old(Valid()) ==> Valid())
      ensures frame == FrameAddr(i) && free == old(free) - {i} && ram.mem.Keys == old(ram.mem.Keys)
      ensures forall x :: x in ram.mem ==>
                ram.mem[x] == if frame <= x < frame + PAGE_SIZE then 0 else old(ram.mem)[x]
    {
      ghost var f := free;
      SetBit(i);
      freeMemory := freeMemory - PAGE_SIZE;
      assert |f - {i}| == |f| - 1;
      frame := RAM_BASE + i * PAGE_SIZE;
      ram.Zero(frame, PAGE_SIZE);
    }

    /** The lowest free frame, zeroed, or NULL when there is none. */
    method AllocFrame() returns (frame: int)
      requires Counted()
      modifies this`freeMemory, this`free, bitmap, ram
      ensures Counted() && (old(Valid()) ==> Valid())
      ensures frame == 0 <==> old(free) == {}
      ensures frame == 0 ==> free == old(free) && ram.mem == old(ram.mem) && Supply(old(free)) == []
      ensures frame != 0 ==> exists m :: m in old(free) && (forall j :: 0 <= j < m ==> j !in old(free))
                                         && frame == FrameAddr(m) && free == old(free) - {m}
      ensures frame != 0 ==> Supply(old(free)) == [frame] + Supply(free)
      ensures ram.mem.Keys == old(ram.mem.Keys)
      ensures frame != 0 ==>
        forall x :: x in ram.mem ==> ram.mem[x] == if frame <= x < frame + PAGE_SIZE then 0 else old(ram.mem)[x]
    {
      var i := FirstFree();
      if i == TOTAL_FRAMES {
        assert forall j :: j in free ==> j in AllFrames();
        SupplyNone(free);
        return 0;
      }
      SupplyTake(free, i);
      frame := TakeFrame(i);
    }

    /** Puts a frame back. NULL, addresses outside RAM or off a page boundary, and frames
        already free are rejected. Nothing is known here of reserved frames: the invariant
        survives exactly when the argument is not one. */
    method FreeFrame(frame: int)
      requires Counted()
      modifies this`freeMemory, this`free, bitmap
      ensures Counted() && free == if Acceptable(frame) then old(free) + {FrameOf(frame)} else old(free)
      ensures old(Valid()) ==> (Valid() <==> !(Acceptable(frame) && FrameOf(frame) in reserved))
    {
      if frame == 0 { return; }
      if frame < RAM_BASE || frame >= RAM_TOP { return; }
      if frame % PAGE_SIZE != 0 { return; }
      var frameIdx := (frame - RAM_BASE) / PAGE_SIZE;
      if frameIdx >= TOTAL_FRAMES { return; }
      var used := TestBit(frameIdx);
      if !used { return; }
      ClearBit(frameIdx);
      freeMemory := freeMemory + PAGE_SIZE;
      assert IsFrame(frameIdx);
    }
  }

  datatype BootParams = Absent | Given(kernelStart: nat, kernelEnd: nat)

  function KernelStart(params: BootParams, linkerStart: nat): nat {
    if params.Given? then params.kernelStart else linkerStart
  }

  /** end - start in 64-bit arithmetic. */
  function KernelSize(params: BootParams, linkerStart: nat, linkerEnd: nat): (n: nat)
    ensures n < TWO64
  {
    if params.Given? then (params.kernelEnd - params.kernelStart) % TWO64 else (linkerEnd - linkerStart) % TWO64
  }

  /** The loop over the range [lo, hi) reaches frame i: the frame ends behind lo and starts before
      hi. Frame 0 is reached for every end at or below RAM, and nothing for a start below it. */
  predicate Reached(i: int, lo: nat, hi: nat) {
    0x4000_0000 <= lo < 0x4000_1000 + 4096 * i && (0x4000_0000 + 4096 * i < hi || i == 0)
  }

  /** Of the 262144 frames those reached from the image or the bitmap are reserved, and the others
      free, whatever the boundaries. */
  ghost predicate Visited(free: set<int>, reserved: set<int>, lo: nat, hi: nat, bitmapStart: nat) {
    && (forall i :: i in free + reserved <==> 0 <= i < 262144) && free !! reserved
    && forall i :: i in reserved <==>
         0 <= i < 262144 && (Reached(i, lo, hi) || Reached(i, bitmapStart, BitmapEnd(bitmapStart)))
  }

  function BitmapEnd(bitmapStart: nat): nat {
    (bitmapStart + 0x2_0000) % 0x1_0000_0000_0000_0000
  }

  /** Byte x lies in frame i, which covers 4096 bytes of RAM. */
  predicate InFrame(i: int, x: int) {
    0x4000_0000 + 4096 * i <= x < 0x4000_1000 + 4096 * i
  }

  /** Frame i shares a byte with [lo, hi). */
  predicate SharesByte(i: int, lo: nat, hi: nat) {
    exists x :: lo <= x < hi && InFrame(i, x)
  }

  /** For an image and a bitmap in RAM, the free frames are those that share no byte with either. */
  ghost predicate Untouched(free: set<int>, lo: nat, hi: nat, bitmapStart: nat) {
    0x4000_0000 <= lo < hi && 0x4000_0000 <= bitmapStart < 0xFFFF_FFFF_FFFE_0000 ==>
      forall i :: i in free <==>
        0 <= i < 262144 && !SharesByte(i, lo, hi) && !SharesByte(i, bitmapStart, bitmapStart + 0x2_0000)
  }

  lemma SharesByteIff(i: int, lo: nat, hi: nat)
    ensures SharesByte(i, lo, hi) <==> lo < hi && lo < 0x4000_1000 + 4096 * i && 0x4000_0000 + 4096 * i < hi
  {
    var x := 0x4000_0000 + 4096 * i;
    if lo < hi && lo < x + 4096 && x < hi {
      assert InFrame(i, if lo <= x then x else lo);
    }
  }

  /** Whatever the boundaries, the frames that the loop over their range visits. */
  lemma RangeReached(lo: nat, hi: nat, size: nat, i: int)
    requires lo < TWO64 && hi < TWO64 && (lo + size) % TWO64 == hi
    ensures i in RangeFrames(lo, size) <==> 0 <= i < 262144 && Reached(i, lo, hi)
  {
    if RAM_BASE <= lo {
      assert (lo - RAM_BASE) / PAGE_SIZE <= i <==> lo - RAM_BASE < i * PAGE_SIZE + PAGE_SIZE;
    }
    if RAM_BASE < hi {
      assert i <= (hi - 1 - RAM_BASE) / PAGE_SIZE <==> i * PAGE_SIZE <= hi - 1 - RAM_BASE;
    }
    assert IsFrame(i) <==> 0 <= i < TOTAL_FRAMES;
  }

  /** What frame_alloc_init sets aside, from the boundaries it is given. */
  lemma InitReserves(params: BootParams, linkerStart: nat, linkerEnd: nat, bitmapStart: nat,
                     free: set<int>, reserved: set<int>)
    requires linkerStart < TWO64 && linkerEnd < TWO64 && bitmapStart < TWO64
    requires params.Given? ==> params.kernelStart < TWO64 && params.kernelEnd < TWO64
    requires reserved == RangeFrames(KernelStart(params, linkerStart), KernelSize(params, linkerStart, linkerEnd))
                           + RangeFrames(bitmapStart, BITMAP_BYTES)
    requires free == AllFrames() - reserved
    ensures var lo := if params.Given? then params.kernelStart else linkerStart;
            var hi := if params.Given? then params.kernelEnd else linkerEnd;
            Visited(free, reserved, lo, hi, bitmapStart) && Untouched(free, lo, hi, bitmapStart)
  {
    SizeToEnd(params, linkerStart, linkerEnd);
    RangesReserve(if params.Given? then params.kernelStart else linkerStart,
                  if params.Given? then params.kernelEnd else linkerEnd,
                  KernelSize(params, linkerStart, linkerEnd), bitmapStart, free, reserved);
  }

  lemma SizeToEnd(params: BootParams, linkerStart: nat, linkerEnd: nat)
    requires linkerStart < TWO64 && linkerEnd < TWO64
    requires params.Given? ==> params.kernelStart < TWO64 && params.kernelEnd < TWO64
    ensures var lo := if params.Given? then params.kernelStart else linkerStart;
            var hi := if params.Given? then params.kernelEnd else linkerEnd;
            KernelStart(params, linkerStart) == lo && (lo + KernelSize(params, linkerStart, linkerEnd)) % TWO64 == hi
  {
  }

  lemma RangesReserve(lo: nat, hi: nat, size: nat, bitmapStart: nat, free: set<int>, reserved: set<int>)
    requires lo < TWO64 && hi < TWO64 && (lo + size) % TWO64 == hi && bitmapStart < TWO64
    requires reserved == RangeFrames(lo, size) + RangeFrames(bitmapStart, BITMAP_BYTES)
    requires free == AllFrames() - reserved
    ensures Visited(free, reserved, lo, hi, bitmapStart) && Untouched(free, lo, hi, bitmapStart)
  {
    AllReached(lo, hi, size);
    AllReached(bitmapStart, BitmapEnd(bitmapStart), BITMAP_BYTES);
    EveryFrame();
    VisitedUntouched(free, reserved, lo, hi, bitmapStart);
  }

  lemma AllReached(lo: nat, hi: nat, size: nat)
    requires lo < TWO64 && hi < TWO64 && (lo + size) % TWO64 == hi
    ensures forall i :: i in RangeFrames(lo, size) <==> 0 <= i < 262144 && Reached(i, lo, hi)
  {
    forall i ensures i in RangeFrames(lo, size) <==> 0 <= i < 262144 && Reached(i, lo, hi) {
      RangeReached(lo, hi, size, i);
    }
  }

  lemma EveryFrame()
    ensures forall i :: i in AllFrames() <==> 0 <= i < 262144
  {
    assert forall i :: i in AllFrames() <==> IsFrame(i);
  }

  lemma VisitedUntouched(free: set<int>, reserved: set<int>, lo: nat, hi: nat, bitmapStart: nat)
    requires Visited(free, reserved, lo, hi, bitmapStart)
    ensures Untouched(free, lo, hi, bitmapStart)
  {
    if 0x4000_0000 <= lo < hi && 0x4000_0000 <= bitmapStart < 0xFFFF_FFFF_FFFE_0000 {
      forall i ensures i in free <==>
        0 <= i < 262144 && !SharesByte(i, lo, hi) && !SharesByte(i, bitmapStart, bitmapStart + 0x2_0000)
      {
        SharesByteIff(i, lo, hi);
        SharesByteIff(i, bitmapStart, bitmapStart + 0x2_0000);
        assert i in free + reserved <==> 0 <= i < 262144;
      }
    }
  }

  /** A counter after k decrements by a page, each under the guard that a page is left. It has
      lost k pages exactly when it covered them; otherwise less than a page is left, and it has
      lost whole pages only. */
  function Lowered(c: int, k: nat): (r: int)
    requires 0 <= c
    ensures 0 <= r <= c && (r == c - PAGE_SIZE * k <==> PAGE_SIZE * k <= c)
    ensures (c - r) % 4096 == 0 && (c < 4096 * k ==> r < 4096)
  {
    if PAGE_SIZE * k <= c then c - PAGE_SIZE * k else c % PAGE_SIZE
  }

  lemma TakenAway(f: set<int>, g: set<int>)
    ensures Lowered(PAGE_SIZE * |f|, |f * g|) == PAGE_SIZE * |f - g|
  {
    assert f == (f - g) + (f * g);
  }

  predicate Acceptable(frame: int) {
    RAM_BASE <= frame < RAM_TOP && frame % PAGE_SIZE == 0
  }

  function FrameOf(frame: int): int {
    (frame - RAM_BASE) / PAGE_SIZE
  }

  lemma WholeRam()
    ensures RangeFrames(RAM_BASE, RAM_TOP - RAM_BASE) == AllFrames() && IsFrame(TOTAL_FRAMES - 1)
  {
  }

  /** highest_usable_address is raised to the end of the highest frame newly freed, if that is higher. */
  ghost predicate TopRaised(f: set<int>, f': set<int>, top: int, top': int) {
    && top <= top'
    && (forall j :: j in f' && j !in f ==> FrameAddr(j + 1) <= top')
    && (top' == top || exists j :: j in f' && j !in f && top' == FrameAddr(j + 1))
  }

  lemma TopStep(f: set<int>, g: set<int>, i: int, top: int, now: int, next: int)
    requires TopRaised(f, g, top, now) && (i in f ==> i in g)
    requires next == if i !in g && now < RAM_BASE + (i + 1) * PAGE_SIZE then RAM_BASE + (i + 1) * PAGE_SIZE else now
    ensures TopRaised(f, g + {i}, top, next)
  {
    assert FrameAddr(i + 1) == RAM_BASE + (i + 1) * PAGE_SIZE;
    if now != top {
      var j :| j in g && j !in f && now == FrameAddr(j + 1);
      assert j in g + {i};
    }
    if i !in g {
      assert i in g + {i};
    }
  }

  lemma BeyondTop(lo: nat, hi: nat)
    requires TOTAL_FRAMES <= lo
    ensures Between(lo, hi) == {}
  {
  }

  /** The frames of a loop after the cap, and how many of them a set holds. */
  lemma Capped(f: set<int>, lo: nat, hi: nat, top: nat)
    requires top == if hi <= TOTAL_FRAMES then hi else TOTAL_FRAMES
    ensures Between(lo, hi) == Between(lo, top)
    ensures Count(f, lo, top) == |f * Between(lo, hi)| <= |f|
  {
    assert Between(lo, hi) == Between(lo, top);
    CountIsSize(f, lo, top);
    Subset(f * Between(lo, top), f);
  }

  lemma CappedOut(f: set<int>, lo: nat, hi: nat, top: nat)
    requires top == if hi <= TOTAL_FRAMES then hi else TOTAL_FRAMES
    ensures Between(lo, hi) == Between(lo, top)
    ensures Count(AllFrames() - f, lo, top) == |Between(lo, hi) - f|
  {
    Capped(AllFrames() - f, lo, hi, top);
    assert (AllFrames() - f) * Between(lo, hi) == Between(lo, hi) - f;
  }

  lemma InBetween(lo: nat, hi: nat)
    requires hi <= TOTAL_FRAMES
    ensures forall j :: lo <= j < hi <==> j in Between(lo, hi)
  {
    forall j | lo <= j < hi ensures j in Between(lo, hi) {
      assert IsFrame(j);
    }
  }

  lemma Subset(a: set<int>, b: set<int>)
    requires a <= b
    ensures |a| <= |b|
  {
    assert b == a + (b - a);
  }
}
