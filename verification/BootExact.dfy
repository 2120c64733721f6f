/** The first calls after boot, with their addresses. */
module BootExact {
  import opened Bitmap
  import opened FrameBits
  import opened HeapModel
  import opened FreeLinks
  import opened Blocks
  import opened HeapGrowth
  import opened HeapExact
  import opened Boot
  import opened BootCases

  /** The four pages behind the first. */
  const BEHIND := [Block(0x4000_1000, 4048, true), Block(0x4000_2000, 4048, true),
                   Block(0x4000_3000, 4048, true), Block(0x4000_4000, 4048, true)]

  lemma FirstAt(s: System, bs: seq<Block>, m: nat, n: nat, a: int, x: seq<Block>)
    requires bs != [] && bs[0] == Block(a, 4048, true) && At(s, bs, a) && 0 < m && n == (m + 7) / 8 * 8 && n <= 4048
    requires x == if n <= 3952 then [Block(a, n, false), Block(a + 48 + n, 4000 - n, true)] else [Block(a, 4048, false)]
    ensures Kmalloc(s, m).ptr == a + 48 && Kmalloc(s, m).sys.supply == s.supply
    ensures Kmalloc(s, m).sys.heap.blocks == x + bs[1..]
  {
    SparseFit(s.heap, bs, 0, n);
    FirstPlace(s, bs, a);
    ServedExactly(s, m, n, 0, a, 4048);
    InFront(bs, x);
  }

  lemma FirstList(s: System, bs: seq<Block>, m: nat, n: nat, a: int)
    requires bs != [] && bs[0] == Block(a, 4048, true) && At(s, bs, a) && 0 < m && n == (m + 7) / 8 * 8 && n <= 4048
    ensures FreeList(Kmalloc(s, m).sys.heap.links) == if n <= 3952 then [a + 48 + n] else []
  {
    SparseFit(s.heap, bs, 0, n);
    FirstPlace(s, bs, a);
    ServedExactly(s, m, n, 0, a, 4048);
    OnlyOne(a);
  }

  lemma FirstPlace(s: System, bs: seq<Block>, a: int)
    requires bs != [] && bs[0] == Block(a, 4048, true) && At(s, bs, a)
    ensures a != 0 && IndexOf(s.heap.blocks, a) == 0 && FreeList(s.heap.links) == [a]
  {
    IndexOfBlock(bs, 0);
    assert BlockOk(bs[0]);
    SparseList(s.heap, bs, a);
  }

  lemma InFront(bs: seq<Block>, x: seq<Block>)
    requires bs != []
    ensures bs[..0] + x + bs[0 + 1..] == x + bs[1..]
  {
  }

  lemma OnlyOne(a: int)
    ensures Without([a], a) == []
  {
    WithoutFirst(a, [], a);
    assert [a] + [] == [a];
  }

  /** A first request of up to 4048 rounded bytes gets the first page, split when it rounds to at
      most 3952 bytes and whole otherwise. */
  lemma FirstRequest(reserved: set<int>, m: nat, n: nat)
    requires AboveLowFrames(reserved) && 0 < m && n == (m + 7) / 8 * 8 && n <= 4048
    ensures var r := Kmalloc(Booted(reserved), m);
            && r.ptr == 0x4000_0030 && r.sys.supply == Booted(reserved).supply
            && r.sys.heap.blocks
               == (if n <= 3952 then [Block(0x4000_0000, n, false), Block(0x4000_0030 + n, 4000 - n, true)]
                   else [Block(0x4000_0000, 4048, false)]) + BEHIND
            && FreeList(r.sys.heap.links) == if n <= 3952 then [0x4000_0030 + n] else []
  {
    BootShape(reserved);
    assert BOOT_BLOCKS[1..] == BEHIND;
    FirstAt(Booted(reserved), BOOT_BLOCKS, m, n, 0x4000_0000,
            if n <= 3952 then [Block(0x4000_0000, n, false), Block(0x4000_0030 + n, 4000 - n, true)]
            else [Block(0x4000_0000, 4048, false)]);
    FirstList(Booted(reserved), BOOT_BLOCKS, m, n, 0x4000_0000);
  }

  /** Both sides of the threshold: 3952 bytes are split off the first page. */
  lemma SplitAt3952(reserved: set<int>)
    requires AboveLowFrames(reserved)
    ensures Kmalloc(Booted(reserved), 3952).sys.heap.blocks
         == [Block(0x4000_0000, 3952, false), Block(0x4000_0FA0, 48, true)] + BEHIND
  {
    FirstRequest(reserved, 3952, 3952);
  }

  /** And 3960 bytes, or 3984, get the whole of it. */
  lemma WholeFrom3960(reserved: set<int>, m: nat)
    requires AboveLowFrames(reserved) && (m == 3960 || m == 3984)
    ensures Kmalloc(Booted(reserved), m).sys.heap.blocks == [Block(0x4000_0000, 4048, false)] + BEHIND
  {
    FirstRequest(reserved, m, m);
  }

  /** After kmalloc(3984) the list is empty, so kmalloc(16) draws a frame and gets the last page. */
  lemma SecondRequest(reserved: set<int>) returns (s1: System)
    requires AboveLowFrames(reserved)
    ensures s1 == Kmalloc(Booted(reserved), 3984).sys && Kmalloc(s1, 16).ptr == 0x4000_4030
    ensures |Kmalloc(s1, 16).sys.supply| == |s1.supply| - 1
  {
    var bs := BOOT_BLOCKS;
    BootIsFive(reserved);
    s1 := Kmalloc(Booted(reserved), 3984).sys;
    AtServe(Booted(reserved), bs, 0, 3984);
    assert SetFree(bs, 0, false)[4] == Page(4);
    AtGrow(s1, SetFree(bs, 0, false), 16);
  }

  // ---------------------------------------------------------------- a request beyond all memory

  lemma {:induction false} SupplyLength(free: set<int>, i: nat)
    requires i <= TOTAL_FRAMES
    ensures |SupplyFrom(free, i)| <= TOTAL_FRAMES - i
    decreases TOTAL_FRAMES - i
  {
    if i < TOTAL_FRAMES {
      SupplyLength(free, i + 1);
    }
  }

  lemma BeyondAt(s: System, bs: seq<Block>, a: int) returns (s1: System)
    requires bs != [] && bs[0] == Block(a, 4048, true) && At(s, bs, a) && |s.supply| <= 0x4_0000
    ensures s1 == Kmalloc(s, 0x4000_0000).sys && Kmalloc(s, 0x4000_0000).ptr == 0
    ensures s1.supply == [] && FreeList(s1.heap.links) == [a] && Kmalloc(s1, 8).ptr == Kmalloc(s, 8).ptr
  {
    SparseFit(s.heap, bs, 0, 0x4000_0000);
    SparseFit(s.heap, bs, 0, 8);
    assert BlockOk(bs[0]);
    SparseList(s.heap, bs, a);
    StarvedExactly(s, 0x4000_0000, 0x4000_0000);
    FailureLeavesList(s, 0x4000_0000, 0x4000_0000, 8);
    s1 := Kmalloc(s, 0x4000_0000).sys;
  }

  /** kmalloc(0x40000000) fails for want of frames and leaves the list alone: kmalloc(8) then gets
      the first page, as it would have before. */
  lemma BeyondMemory(reserved: set<int>) returns (s1: System)
    requires AboveLowFrames(reserved)
    ensures s1 == Kmalloc(Booted(reserved), 0x4000_0000).sys && Kmalloc(Booted(reserved), 0x4000_0000).ptr == 0
    ensures s1.supply == [] && FreeList(s1.heap.links) == [0x4000_0000] && Kmalloc(s1, 8).ptr == 0x4000_0030
  {
    BootShape(reserved);
    SupplyLength(AllFrames() - reserved, 0);
    FirstRequest(reserved, 8, 8);
    s1 := BeyondAt(Booted(reserved), BOOT_BLOCKS, 0x4000_0000);
  }
}
