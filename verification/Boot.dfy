/** From frame_alloc_init to the heap, and what the kernel image in the middle of the frames does
    to it. */
module Boot {
  import opened Machine
  import opened Bitmap
  import opened FrameBits
  import opened HeapModel
  import opened HeapGrowth
  import opened Accounting
  import opened LiveBlocks
  import opened HeapRuns
  import opened Tiling
  import opened KHeap

  /** Where QEMU loads the image, and the number of frames below it. */
  const IMAGE_START := 0x4008_0000
  const LOW_FRAMES := 128

  /** The system kheap_init starts from. */
  ghost function Start(reserved: set<int>): (s: System)
    requires reserved <= AllFrames()
    ensures SystemOk(s)
  {
    StartOk(AllFrames() - reserved);
    System(EMPTY_HEAP, Supply(AllFrames() - reserved))
  }

  lemma StartOk(free: set<int>)
    ensures SystemOk(System(EMPTY_HEAP, Supply(free)))
  {
    var s := System(EMPTY_HEAP, Supply(free));
    SupplyIsFrames(free);
    forall j | 0 <= j < |s.supply| ensures FrameAhead(s, j) {
      if 0 < j {
        SupplyAscends(free, j);
      }
    }
  }

  /** The system kheap_init leaves. */
  ghost function Booted(reserved: set<int>): (t: System)
    requires reserved <= AllFrames()
    ensures SystemOk(t)
  {
    Expand(Start(reserved), 5).sys
  }

  /** The frames drawn from initialization up to state t. */
  ghost function DrawnSince(reserved: set<int>, t: System): int
    requires reserved <= AllFrames()
  {
    Used(Start(reserved), t)
  }

  lemma BootedGrew(reserved: set<int>, ops: seq<Op>)
    requires reserved <= AllFrames() && LegalRun(Booted(reserved), ops)
    ensures GrewTo(Start(reserved), Run(Booted(reserved), ops))
  {
    var s, t := Start(reserved), Booted(reserved);
    ExpandAccounts(s, 5);
    ExpandBase(s, 5);
    RunConserves(t, ops);
    RunKeepsBase(t, ops);
    ConservesTrans(s, t, Run(t, ops));
  }

  lemma BootedTiled(reserved: set<int>, ops: seq<Op>)
    requires reserved <= AllFrames() && LegalRun(Booted(reserved), ops)
    requires DrawnSince(reserved, Run(Booted(reserved), ops)) >= 0
    requires Contiguous(Start(reserved), DrawnSince(reserved, Run(Booted(reserved), ops)))
    ensures Tiled(Run(Booted(reserved), ops).heap.blocks)
  {
    RunConserves(Booted(reserved), ops);
    FivePagesTiled(Start(reserved), DrawnSince(reserved, Run(Booted(reserved), ops)));
    ThenTiled(Start(reserved), Booted(reserved), ops);
  }

  lemma FivePagesTiled(s: System, q: nat)
    requires SystemOk(s) && Tiled(s.heap.blocks) && Contiguous(s, q) && Drawn(s, 5) <= q
    ensures GrewTo(s, Expand(s, 5).sys) && Tiled(Expand(s, 5).sys.heap.blocks)
  {
    ExpandAccounts(s, 5);
    ExpandBase(s, 5);
    ContiguousLess(s, Drawn(s, 5), q);
    ExpandTiled(s, 5);
  }

  /** The tiling theorem from boot, for every run: the heap is tiled and covers exactly the frames
      drawn so far if and only if those frames follow one another. */
  lemma BootRunTiles(reserved: set<int>, ops: seq<Op>)
    requires reserved <= AllFrames() && LegalRun(Booted(reserved), ops)
    ensures var s, t := Start(reserved), Run(Booted(reserved), ops);
            && Used(s, t) >= 0
            && (Tiled(t.heap.blocks) && Exactly(s, t) <==> Contiguous(s, Used(s, t)))
  {
    var s, t := Start(reserved), Run(Booted(reserved), ops);
    BootedGrew(reserved, ops);
    if Contiguous(s, Used(s, t)) {
      BootedTiled(reserved, ops);
    }
    if Tiled(t.heap.blocks) {
      ExactIff(s, t);
    }
  }

  // ---------------------------------------------------------------- the image

  /** None of the frames set aside lies below IMAGE_START. */
  ghost predicate AboveLowFrames(reserved: set<int>) {
    reserved <= AllFrames() && forall i :: i in reserved ==> LOW_FRAMES <= i
  }

  /** The first 128 frames that alloc_frame hands out follow one another from the start of RAM. */
  lemma LowFramesInLine(reserved: set<int>)
    requires AboveLowFrames(reserved)
    ensures Contiguous(Start(reserved), LOW_FRAMES) && Base(Start(reserved)) == RAM_BASE
  {
    var s, free := Start(reserved), AllFrames() - reserved;
    forall j | 0 <= j < LOW_FRAMES ensures j in free {
      assert IsFrame(j);
    }
    SupplyRun(free, 0, LOW_FRAMES);
    forall j | 0 <= j < LOW_FRAMES ensures InLine(s, j) {
      assert s.supply[j] == FrameAddr(0 + j) && s.supply[0] == FrameAddr(0 + 0);
    }
  }

  /** And the next one does not, when the image begins there. */
  lemma ImageBreaksLine(reserved: set<int>, q: nat)
    requires AboveLowFrames(reserved) && LOW_FRAMES in reserved && LOW_FRAMES < q
    ensures !Contiguous(Start(reserved), q)
  {
    var s, free := Start(reserved), AllFrames() - reserved;
    LowFramesInLine(reserved);
    if Contiguous(s, q) {
      assert InLine(s, LOW_FRAMES);
      SupplyMembers(free, 0, LOW_FRAMES);
      NotThere(free, s.supply[LOW_FRAMES]);
    }
  }

  lemma NotThere(free: set<int>, a: int)
    requires IsFreeFrame(free, 0, a) && LOW_FRAMES !in free
    ensures a != IMAGE_START
  {
  }

  /** With the image where the linker puts it, the heap is tiled and covers exactly the frames it
      drew if and only if it drew at most 128. */
  lemma BootRunTilesIff(reserved: set<int>, ops: seq<Op>)
    requires AboveLowFrames(reserved) && LegalRun(Booted(reserved), ops)
    ensures var s, t := Start(reserved), Run(Booted(reserved), ops);
            && (Used(s, t) <= LOW_FRAMES ==> Tiled(t.heap.blocks) && Exactly(s, t))
            && (LOW_FRAMES in reserved && Tiled(t.heap.blocks) && Exactly(s, t) ==> Used(s, t) <= LOW_FRAMES)
  {
    var s, t := Start(reserved), Run(Booted(reserved), ops);
    BootRunTiles(reserved, ops);
    LowFramesInLine(reserved);
    if Used(s, t) <= LOW_FRAMES {
      ContiguousLess(s, Used(s, t), LOW_FRAMES);
    } else if LOW_FRAMES in reserved {
      ImageBreaksLine(reserved, Used(s, t));
    }
  }

  /** Every run after boot leaves at most four uncoalesced free pairs and those that its
      expansions brought; once nothing is live, the heap is in at most five pieces more than
      those. */
  lemma BootRunPairs(reserved: set<int>, ops: seq<Op>)
    requires reserved <= AllFrames() && LegalRun(Booted(reserved), ops) && 5 <= |Start(reserved).supply|
    ensures var s, bs := Booted(reserved), Run(Booted(reserved), ops).heap.blocks;
            && FreePairs(bs) <= 4 + PairsOfRun(s, ops)
            && (Live(bs) == {} ==> |bs| <= 5 + PairsOfRun(s, ops))
  {
    ExpandAccounts(Start(reserved), 5);
    RunPairs(Booted(reserved), ops);
    if Live(Run(Booted(reserved), ops).heap.blocks) == {} {
      PiecesLeft(Booted(reserved), ops);
    }
  }
}
