/** Whole runs of alloc_frame and free_frame. */
module FrameRuns {
  import opened Machine
  import opened Bitmap
  import opened FrameBits
  import opened FrameAlloc

  /** The allocator's two sets, and the frame addresses its callers hold. */
  datatype Frames = Frames(free: set<int>, reserved: set<int>, held: multiset<int>)

  datatype FrameOp = Alloc | Give(frame: int)

  /** The callers hold each frame that is neither free nor reserved once, and nothing else. */
  ghost predicate FramesOk(f: Frames) {
    && f.free <= AllFrames() && f.reserved <= AllFrames() && f.free !! f.reserved
    && |f.held| + |f.free| == |AllFrames() - f.reserved|
    && forall a :: f.held[a] == if Acceptable(a) && FrameOf(a) !in f.free && FrameOf(a) !in f.reserved then 1 else 0
  }

  /** alloc_frame and free_frame as FrameAllocator.AllocFrame and FreeFrame specify them. */
  function Step(f: Frames, op: FrameOp): Frames {
    match op
    case Alloc =>
      if Supply(f.free) == [] then f else
      var a := Supply(f.free)[0];
      f.(free := f.free - {FrameOf(a)}, held := f.held + multiset{a})
    case Give(a) =>
      if Acceptable(a) && FrameOf(a) !in f.free
      then f.(free := f.free + {FrameOf(a)}, held := f.held - multiset{a}) else f
  }

  /** free_frame gets a frame its caller holds, or an argument that it rejects. */
  predicate Legal(f: Frames, op: FrameOp) {
    op.Give? ==> op.frame in f.held || !Acceptable(op.frame) || FrameOf(op.frame) in f.free
  }

  predicate LegalRun(f: Frames, ops: seq<FrameOp>)
    decreases |ops|
  {
    ops == [] || (Legal(f, ops[0]) && LegalRun(Step(f, ops[0]), ops[1..]))
  }

  function Run(f: Frames, ops: seq<FrameOp>): Frames
    decreases |ops|
  {
    if ops == [] then f else Run(Step(f, ops[0]), ops[1..])
  }

  /** Frame numbers and frame addresses correspond one to one. */
  lemma AddrOf(i: int)
    requires IsFrame(i)
    ensures Acceptable(FrameAddr(i)) && FrameOf(FrameAddr(i)) == i
  {
  }

  lemma OfAddr(a: int)
    requires Acceptable(a)
    ensures IsFrame(FrameOf(a)) && FrameAddr(FrameOf(a)) == a
  {
    assert RAM_BASE % PAGE_SIZE == 0;
    assert (a - RAM_BASE) % PAGE_SIZE == 0;
  }

  lemma FirstOfSupply(free: set<int>)
    requires Supply(free) != []
    ensures Acceptable(Supply(free)[0]) && FrameOf(Supply(free)[0]) in free
  {
    SupplyMembers(free, 0, 0);
    var i :| 0 <= i < TOTAL_FRAMES && i in free && Supply(free)[0] == FrameAddr(i);
    AddrOf(i);
  }

  lemma StepOk(f: Frames, op: FrameOp)
    requires FramesOk(f) && Legal(f, op)
    ensures FramesOk(Step(f, op))
  {
    var t := Step(f, op);
    if op.Alloc? && Supply(f.free) != [] {
      var a := Supply(f.free)[0];
      FirstOfSupply(f.free);
      Moved(f, t, a);
      assert |t.free| == |f.free| - 1;
    } else if op.Give? && t != f {
      OfAddr(op.frame);
      Moved(f, t, op.frame);
    }
  }

  /** A frame that changes sides changes nothing else. */
  lemma Moved(f: Frames, t: Frames, a: int)
    requires FramesOk(f) && Acceptable(a) && FrameOf(a) !in f.reserved && t.reserved == f.reserved
    requires || (FrameOf(a) in f.free && t.free == f.free - {FrameOf(a)} && t.held == f.held + multiset{a})
             || (FrameOf(a) !in f.free && t.free == f.free + {FrameOf(a)} && t.held == f.held - multiset{a})
    ensures forall b ::
              t.held[b] == if Acceptable(b) && FrameOf(b) !in t.free && FrameOf(b) !in t.reserved then 1 else 0
  {
    forall b ensures t.held[b] == if Acceptable(b) && FrameOf(b) !in t.free && FrameOf(b) !in t.reserved then 1 else 0 {
      if b != a && Acceptable(b) {
        OfAddr(a);
        OfAddr(b);
      }
    }
  }

  /** After every run the frames held are distinct, none is free or reserved, and their
      number accounts for the difference of the two sets. */
  lemma {:induction false} RunOk(f: Frames, ops: seq<FrameOp>)
    requires FramesOk(f) && LegalRun(f, ops)
    ensures FramesOk(Run(f, ops)) && Run(f, ops).reserved == f.reserved
    decreases |ops|
  {
    if ops != [] {
      StepOk(f, ops[0]);
      RunOk(Step(f, ops[0]), ops[1..]);
    }
  }

  /** The counters of frame_alloc.c: total_memory - free_memory is 4096 bytes a frame held. */
  lemma CountersAgree(f: Frames, ops: seq<FrameOp>, total: int, free: int)
    requires FramesOk(f) && LegalRun(f, ops)
    requires total == PAGE_SIZE * |AllFrames() - f.reserved| && free == PAGE_SIZE * |Run(f, ops).free|
    ensures total - free == PAGE_SIZE * |Run(f, ops).held| && 0 <= free <= total
  {
    RunOk(f, ops);
  }

  /** The allocator is in the state f. */
  ghost predicate IsAt(p: FrameAllocator, f: Frames)
    reads p
  {
    p.free == f.free && p.reserved == f.reserved
  }

  /** What an operation answers: alloc_frame an address or NULL, free_frame nothing. */
  function Answer(f: Frames, op: FrameOp): seq<int> {
    if op.Give? then [] else [if Supply(f.free) == [] then 0 else Supply(f.free)[0]]
  }

  /** The answers of a run, in order. */
  function Answers(f: Frames, ops: seq<FrameOp>): seq<int>
    decreases |ops|
  {
    if ops == [] then [] else Answer(f, ops[0]) + Answers(Step(f, ops[0]), ops[1..])
  }

  /** The frames that free_frame takes back in a run. */
  function Returned(f: Frames, ops: seq<FrameOp>): multiset<int>
    decreases |ops|
  {
    if ops == [] then multiset{} else
    TakenBack(f, ops[0]) + Returned(Step(f, ops[0]), ops[1..])
  }

  function TakenBack(f: Frames, op: FrameOp): multiset<int> {
    if op.Give? && Step(f, op) != f then multiset{op.frame} else multiset{}
  }

  /** The frames among some answers. */
  function Got(answers: seq<int>): multiset<int> {
    multiset(answers)[0 := 0]
  }

  /** What the callers hold after a run is what they held, plus every frame the calls
      answered, less every frame taken back. */
  lemma {:induction false} HeldAreAnswers(f: Frames, ops: seq<FrameOp>)
    requires FramesOk(f) && LegalRun(f, ops)
    ensures Run(f, ops).held + Returned(f, ops) == f.held + Got(Answers(f, ops))
    decreases |ops|
  {
    if ops != [] {
      var op, rest, t := ops[0], ops[1..], Step(f, ops[0]);
      StepOk(f, op);
      HeldAreAnswers(t, rest);
      HeldStep(f, op);
      Balance(f.held, Got(Answer(f, op)), TakenBack(f, op),
              t.held, Got(Answers(t, rest)), Returned(t, rest), Run(t, rest).held);
    }
  }

  lemma Balance(h0: multiset<int>, a0: multiset<int>, r0: multiset<int>,
                h1: multiset<int>, a1: multiset<int>, r1: multiset<int>, h2: multiset<int>)
    requires h1 + r0 == h0 + a0 && h2 + r1 == h1 + a1
    ensures h2 + (r0 + r1) == h0 + (a0 + a1)
  {
    assert h2 + (r0 + r1) == (h2 + r1) + r0;
    assert (h1 + a1) + r0 == (h1 + r0) + a1;
  }

  lemma HeldStep(f: Frames, op: FrameOp)
    requires FramesOk(f) && Legal(f, op)
    ensures Step(f, op).held + TakenBack(f, op) == f.held + Got(Answer(f, op))
  {
    if op.Alloc? && Supply(f.free) != [] {
      FirstOfSupply(f.free);
      assert multiset(Answer(f, op)) == multiset{Supply(f.free)[0]};
    } else if op.Alloc? {
      assert multiset(Answer(f, op)) == multiset{0};
    }
  }

  /** The answers are NULL or frames that were never reserved. */
  lemma {:induction false} AnswersUnreserved(f: Frames, ops: seq<FrameOp>)
    requires FramesOk(f) && LegalRun(f, ops)
    ensures forall a :: a in Answers(f, ops) ==> a == 0 || (Acceptable(a) && FrameOf(a) !in f.reserved)
    decreases |ops|
  {
    if ops != [] {
      StepOk(f, ops[0]);
      if Supply(f.free) != [] {
        FirstOfSupply(f.free);
      }
      AnswersUnreserved(Step(f, ops[0]), ops[1..]);
    }
  }

  method Call(p: FrameAllocator, op: FrameOp, ghost f: Frames) returns (answer: seq<int>)
    requires p.Valid() && IsAt(p, f) && FramesOk(f) && Legal(f, op)
    modifies p`freeMemory, p`free, p.bitmap, p.ram
    ensures p.Valid() && IsAt(p, Step(f, op)) && answer == Answer(f, op)
  {
    match op
    case Alloc =>
      var frame := p.AllocFrame();
      if frame != 0 {
        ghost var m :| m in f.free && frame == FrameAddr(m) && p.free == f.free - {m};
        AddrOf(m);
        assert Supply(f.free)[0] == frame;
      }
      answer := [frame];
    case Give(frame) =>
      p.FreeFrame(frame);
      answer := [];
  }

  /** A run of calls on the bitmap and the counters ends in the state of the model with the
      answers of the model, and the counters agree with the frames held. */
  method Execute(p: FrameAllocator, ops: seq<FrameOp>, ghost f: Frames) returns (answers: seq<int>)
    requires p.Valid() && IsAt(p, f) && FramesOk(f) && LegalRun(f, ops)
    modifies p`freeMemory, p`free, p.bitmap, p.ram
    ensures p.Valid() && IsAt(p, Run(f, ops)) && answers == Answers(f, ops)
    ensures p.totalMemory - p.freeMemory == PAGE_SIZE * |Run(f, ops).held| && 0 <= p.freeMemory <= p.totalMemory
    decreases |ops|
  {
    CountersAgree(f, ops, PAGE_SIZE * |AllFrames() - f.reserved|, PAGE_SIZE * |Run(f, ops).free|);
    answers := [];
    if ops != [] {
      StepOk(f, ops[0]);
      var first := Call(p, ops[0], f);
      var rest := Execute(p, ops[1..], Step(f, ops[0]));
      answers := first + rest;
    }
  }

  /** No frame held shares a byte with a reserved range. */
  lemma HeldMissesRange(f: Frames, ops: seq<FrameOp>, base: nat, size: nat, a: int)
    requires FramesOk(f) && LegalRun(f, ops) && a in Run(f, ops).held
    requires RangeFrames(base, size) <= f.reserved && RAM_BASE <= base && 0 < size && base + size < TWO64
    ensures a + PAGE_SIZE <= base || base + size <= a
  {
    RunOk(f, ops);
    OfAddr(a);
    RangeIsMeeting(base, size, FrameOf(a));
  }

  /** The state frame_alloc_init leaves. */
  function Fresh(reserved: set<int>): Frames {
    Frames(AllFrames() - reserved, reserved, multiset{})
  }

  lemma FreshOk(reserved: set<int>)
    requires reserved <= AllFrames()
    ensures FramesOk(Fresh(reserved))
  {
    forall a | Acceptable(a) ensures FrameOf(a) in AllFrames() {
      OfAddr(a);
    }
  }

  /** A frame that was not set aside shares no byte with [lo, hi). */
  lemma UnreservedMisses(reserved: set<int>, lo: nat, hi: nat, size: nat, a: int)
    requires Acceptable(a) && FrameOf(a) !in reserved && RangeFrames(lo, size) <= reserved
    requires lo < TWO64 && hi < TWO64 && (lo + size) % TWO64 == hi
    ensures 0x4000_0000 <= lo < hi ==> a + 4096 <= lo || hi <= a
  {
    OfAddr(a);
    RangeReached(lo, hi, size, FrameOf(a));
  }

  /** The frames frame_alloc_init sets aside. */
  function Reserved(params: BootParams, linkerStart: nat, linkerEnd: nat, bitmapStart: nat): (r: set<int>)
    ensures r <= AllFrames()
  {
    RangeFrames(KernelStart(params, linkerStart), KernelSize(params, linkerStart, linkerEnd))
    + RangeFrames(bitmapStart, BITMAP_BYTES)
  }

  /** The same call, in the terms of the runs. */
  method Begin(p: FrameAllocator, params: BootParams, linkerStart: nat, linkerEnd: nat, bitmapStart: nat)
    requires p.bitmap.Length == BITMAP_BYTES && Mapped(p.ram.mem)
    requires linkerStart < TWO64 && linkerEnd < TWO64 && bitmapStart < TWO64
    requires params.Given? ==> params.kernelStart < TWO64 && params.kernelEnd < TWO64
    modifies p, p.bitmap
    ensures p.Valid() && p.reserved == Reserved(params, linkerStart, linkerEnd, bitmapStart)
    ensures p.free == Fresh(p.reserved).free
  {
    p.Init(params, linkerStart, linkerEnd, bitmapStart);
    InitIsFresh(p.free, p.reserved);
  }

  /** From frame_alloc_init on, whatever the bitmap and the counters held before. In every run
      the answers and the frames held are those of the model, no answer shares a byte with the
      image or the bitmap, and the counters account for the frames held. */
  method InitAndRun(p: FrameAllocator, params: BootParams, linkerStart: nat, linkerEnd: nat, bitmapStart: nat,
                    ops: seq<FrameOp>, ghost f: Frames)
    returns (answers: seq<int>)
    requires p.bitmap.Length == BITMAP_BYTES && Mapped(p.ram.mem)
    requires linkerStart < TWO64 && linkerEnd < TWO64 && bitmapStart < TWO64
    requires params.Given? ==> params.kernelStart < TWO64 && params.kernelEnd < TWO64
    requires f == Fresh(Reserved(params, linkerStart, linkerEnd, bitmapStart)) && LegalRun(f, ops)
    modifies p, p.bitmap, p.ram
    ensures p.Valid() && IsAt(p, Run(f, ops)) && answers == Answers(f, ops)
    ensures p.totalMemory - p.freeMemory == PAGE_SIZE * |Run(f, ops).held| && 0 <= p.freeMemory <= p.totalMemory
    ensures Run(f, ops).held + Returned(f, ops) == Got(answers)
    ensures var lo := if params.Given? then params.kernelStart else linkerStart;
            var hi := if params.Given? then params.kernelEnd else linkerEnd;
            forall a :: (a in answers && a != 0) || a in Run(f, ops).held ==>
              && (0x4000_0000 <= lo < hi ==> a + 4096 <= lo || hi <= a)
              && (0x4000_0000 <= bitmapStart < 0xFFFF_FFFF_FFFE_0000 ==>
                    a + 4096 <= bitmapStart || bitmapStart + 0x2_0000 <= a)
  {
    Begin(p, params, linkerStart, linkerEnd, bitmapStart);
    FreshOk(f.reserved);
    answers := Execute(p, ops, f);
    HeldAreAnswers(f, ops);
    AnswersUnreserved(f, ops);
    RunOk(f, ops);
    NonePicked(f.reserved, answers, Run(f, ops).held, params, linkerStart, linkerEnd, bitmapStart);
  }

  /** Unreserved frames share no byte with the image or the bitmap. */
  lemma NonePicked(reserved: set<int>, answers: seq<int>, held: multiset<int>,
                   params: BootParams, linkerStart: nat, linkerEnd: nat, bitmapStart: nat)
    requires linkerStart < TWO64 && linkerEnd < TWO64 && bitmapStart < TWO64
    requires params.Given? ==> params.kernelStart < TWO64 && params.kernelEnd < TWO64
    requires reserved == Reserved(params, linkerStart, linkerEnd, bitmapStart)
    requires forall a :: (a in answers && a != 0) || a in held ==> Acceptable(a) && FrameOf(a) !in reserved
    ensures var lo := if params.Given? then params.kernelStart else linkerStart;
            var hi := if params.Given? then params.kernelEnd else linkerEnd;
            forall a :: (a in answers && a != 0) || a in held ==>
              && (0x4000_0000 <= lo < hi ==> a + 4096 <= lo || hi <= a)
              && (0x4000_0000 <= bitmapStart < 0xFFFF_FFFF_FFFE_0000 ==>
                    a + 4096 <= bitmapStart || bitmapStart + 0x2_0000 <= a)
  {
    SizeToEnd(params, linkerStart, linkerEnd);
    AllMiss(reserved, if params.Given? then params.kernelStart else linkerStart,
            if params.Given? then params.kernelEnd else linkerEnd, KernelSize(params, linkerStart, linkerEnd));
    AllMiss(reserved, bitmapStart, BitmapEnd(bitmapStart), BITMAP_BYTES);
  }

  lemma AllMiss(reserved: set<int>, lo: nat, hi: nat, size: nat)
    requires RangeFrames(lo, size) <= reserved && lo < TWO64 && hi < TWO64 && (lo + size) % TWO64 == hi
    ensures forall a :: Acceptable(a) && FrameOf(a) !in reserved && 0x4000_0000 <= lo < hi ==>
                          a + 4096 <= lo || hi <= a
  {
    forall a | Acceptable(a) && FrameOf(a) !in reserved ensures 0x4000_0000 <= lo < hi ==> a + 4096 <= lo || hi <= a {
      UnreservedMisses(reserved, lo, hi, size, a);
    }
  }

  lemma InitIsFresh(free: set<int>, reserved: set<int>)
    requires free <= AllFrames() && free !! reserved && AllFrames() - reserved - free == {}
    ensures free == Fresh(reserved).free
  {
    forall i | i in AllFrames() - reserved ensures i in free {
      assert i !in AllFrames() - reserved - free;
    }
  }

  // ---------------------------------------------------------------- allocation only

  /** n calls of alloc_frame in a row. */
  function Allocs(n: nat): seq<FrameOp> {
    seq(n, k => Alloc)
  }

  lemma SupplyShrinks(free: set<int>)
    requires Supply(free) != []
    ensures Supply(free - {FrameOf(Supply(free)[0])}) == Supply(free)[1..]
  {
    SupplyMembers(free, 0, 0);
    var m :| 0 <= m < TOTAL_FRAMES && m in free && Supply(free)[0] == FrameAddr(m);
    AddrOf(m);
    forall j: nat | j < m && j in free ensures FrameAddr(m) <= FrameAddr(j) {
      LowestFirst(free, 0, j);
    }
    SupplyTake(free, m);
  }

  lemma AllocsTail(n: nat)
    requires 0 < n
    ensures Allocs(n) != [] && Allocs(n)[0] == Alloc && Allocs(n)[1..] == Allocs(n - 1)
  {
  }

  /** Without free_frame the answers are the free frames, each once, lowest first, and then
      NULL for ever. */
  lemma {:induction false} AnswersAreSupply(f: Frames, n: nat)
    ensures LegalRun(f, Allocs(n)) && |Answers(f, Allocs(n))| == n
    ensures forall k :: 0 <= k < n ==> Answers(f, Allocs(n))[k] == if k < |Supply(f.free)| then Supply(f.free)[k] else 0
    decreases n
  {
    if 0 < n {
      AllocsTail(n);
      AnswersAreSupply(Step(f, Alloc), n - 1);
      var rest := Answers(Step(f, Alloc), Allocs(n - 1));
      assert Answers(f, Allocs(n)) == Answer(f, Alloc) + rest;
      if Supply(f.free) != [] {
        SupplyShrinks(f.free);
        assert forall k :: 1 <= k < n ==> Answers(f, Allocs(n))[k] == rest[k - 1];
      }
    }
  }

  /** The caller's loop that only allocates: what it receives is the supply, then NULLs. */
  method AllocMany(p: FrameAllocator, n: nat, ghost f: Frames) returns (frames: seq<int>)
    requires p.Valid() && IsAt(p, f) && FramesOk(f)
    modifies p`freeMemory, p`free, p.bitmap, p.ram
    ensures p.Valid() && |frames| == n
    ensures forall k :: 0 <= k < n ==> frames[k] == if k < |Supply(f.free)| then Supply(f.free)[k] else 0
  {
    AnswersAreSupply(f, n);
    frames := Execute(p, Allocs(n), f);
  }

  // ---------------------------------------------------------------- giving back a reserved frame

  /** The operation gives free_frame a reserved frame, which it accepts. */
  predicate GivesReserved(f: Frames, op: FrameOp) {
    op.Give? && Acceptable(op.frame) && FrameOf(op.frame) in f.reserved
  }

  lemma {:induction false} RunSnoc(f: Frames, ops: seq<FrameOp>, k: nat)
    requires k < |ops|
    ensures Run(f, ops[..k + 1]) == Step(Run(f, ops[..k]), ops[k]) && Run(f, ops[..k]).reserved == f.reserved
    decreases k
  {
    if k == 0 {
      assert ops[..1][1..] == [] && ops[..0] == [];
    } else {
      var t := Step(f, ops[0]);
      RunSnoc(t, ops[1..], k - 1);
      assert ops[..k + 1][1..] == ops[1..][..k] && ops[..k][1..] == ops[1..][..k - 1];
    }
  }

  /** Over runs with any arguments to free_frame, the reserved frames stay out of the free set at
      every moment if and only if none of them is ever given back. */
  lemma ReservedStayOut(f: Frames, ops: seq<FrameOp>)
    requires f.free !! f.reserved
    ensures (forall k :: 0 <= k <= |ops| ==> Run(f, ops[..k]).free !! f.reserved)
       <==> (forall k :: 0 <= k < |ops| ==> !GivesReserved(f, ops[k]))
  {
    if forall k :: 0 <= k < |ops| ==> !GivesReserved(f, ops[k]) {
      forall k | 0 <= k <= |ops| ensures Run(f, ops[..k]).free !! f.reserved {
        StayOutUpTo(f, ops, k);
      }
    }
    forall k | 0 <= k < |ops| && GivesReserved(f, ops[k]) ensures !(Run(f, ops[..k + 1]).free !! f.reserved) {
      RunSnoc(f, ops, k);
      assert FrameOf(ops[k].frame) in Run(f, ops[..k + 1]).free;
    }
  }

  lemma {:induction false} StayOutUpTo(f: Frames, ops: seq<FrameOp>, k: nat)
    requires f.free !! f.reserved && k <= |ops| && forall j :: 0 <= j < |ops| ==> !GivesReserved(f, ops[j])
    ensures Run(f, ops[..k]).free !! f.reserved
    decreases k
  {
    if 0 < k {
      StayOutUpTo(f, ops, k - 1);
      RunSnoc(f, ops, k - 1);
      assert !GivesReserved(f, ops[k - 1]);
    }
  }

  /** The end of a run alone does not tell: the frame may have been handed out again. */
  lemma EndDoesNotTell()
    ensures var f := Frames({}, {0}, multiset{});
            && GivesReserved(f, Give(RAM_BASE))
            && Run(f, [Give(RAM_BASE), Alloc]).free !! f.reserved
  {
    var f := Frames({}, {0}, multiset{});
    var g := Step(f, Give(RAM_BASE));
    assert g.free == {0};
    SupplyTake({0}, 0);
    SupplyNone({});
    assert {0} - {0} == {};
    var h := Step(g, Alloc);
    assert h.free == {};
    assert [Give(RAM_BASE), Alloc][1..] == [Alloc] && [Alloc][1..] == [];
    assert Run(h, []) == h && Run(g, [Alloc]) == h;
  }

  /** n calls of alloc_frame, whatever is reserved: the first of the supply. */
  method Take(p: FrameAllocator, n: nat) returns (frames: seq<int>)
    requires p.Counted() && n <= |Supply(p.free)|
    modifies p`freeMemory, p`free, p.bitmap, p.ram
    ensures p.Counted() && frames == Supply(old(p.free))[..n]
  {
    frames := [];
    ghost var supply := Supply(p.free);
    while |frames| < n
      invariant |frames| <= n && p.Counted() && supply == frames + Supply(p.free)
    {
      ghost var left := Supply(p.free);
      var frame := p.AllocFrame();
      assert frame == 0 ==> left == [];
      assert left == [frame] + Supply(p.free);
      assert supply == (frames + [frame]) + Supply(p.free);
      frames := frames + [frame];
    }
  }

  /** frame_alloc_init, free_frame of reserved frame q, and q + 1 calls of alloc_frame: when all
      frames below q are free, the last call answers the reserved frame. */
  method GiveAndTake(p: FrameAllocator, params: BootParams, linkerStart: nat, linkerEnd: nat, bitmapStart: nat, q: nat)
    returns (frames: seq<int>)
    requires p.bitmap.Length == BITMAP_BYTES && Mapped(p.ram.mem)
    requires linkerStart < TWO64 && linkerEnd < TWO64 && bitmapStart < TWO64
    requires params.Given? ==> params.kernelStart < TWO64 && params.kernelEnd < TWO64
    requires var reserved := Reserved(params, linkerStart, linkerEnd, bitmapStart);
             q in reserved && forall j :: 0 <= j < q ==> j !in reserved
    modifies p, p.bitmap, p.ram
    ensures |frames| == q + 1 && frames[q] == FrameAddr(q)
  {
    Begin(p, params, linkerStart, linkerEnd, bitmapStart);
    LowFree(p.reserved, q, p.free);
    frames := GiveThenTake(p, q);
  }

  lemma LowFree(reserved: set<int>, q: nat, free: set<int>)
    requires reserved <= AllFrames() && q in reserved && (forall j :: 0 <= j < q ==> j !in reserved)
    requires free == Fresh(reserved).free
    ensures IsFrame(q) && forall j :: 0 <= j < q ==> j in free
  {
    forall j | 0 <= j < q ensures j in free {
      assert IsFrame(j);
    }
  }

  /** The same from any state in which the frames below q are free. */
  method GiveThenTake(p: FrameAllocator, q: nat) returns (frames: seq<int>)
    requires p.Counted() && IsFrame(q) && forall j :: 0 <= j < q ==> j in p.free
    modifies p`freeMemory, p`free, p.bitmap, p.ram
    ensures |frames| == q + 1 && frames[q] == FrameAddr(q)
  {
    AddrOf(q);
    p.FreeFrame(FrameAddr(q));
    SupplyRun(p.free, 0, q + 1);
    frames := Take(p, q + 1);
    assert FrameAddr(0 + q) == FrameAddr(q);
  }

  /** An image without bytes, off a page boundary, still sets the frame around it aside. */
  lemma EmptyImage(start: nat, linkerStart: nat, linkerEnd: nat, bitmapStart: nat)
    requires RAM_BASE < start < RAM_TOP && start % PAGE_SIZE != 0
    ensures KernelSize(Given(start, start), linkerStart, linkerEnd) == 0
    ensures (start - RAM_BASE) / PAGE_SIZE in Reserved(Given(start, start), linkerStart, linkerEnd, bitmapStart)
  {
    var lo := start - RAM_BASE;
    assert (start + 0) % TWO64 == start && start % PAGE_SIZE == lo % PAGE_SIZE;
    assert IsFrame(lo / PAGE_SIZE);
  }
}
