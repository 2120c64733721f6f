/** The frame ranges that the loops of src/memory/frame_alloc.c run over, and the order in which
    frames are handed out. */
module FrameBits {
  import opened Machine
  import opened Bitmap

  const TWO64 := 0x1_0000_0000_0000_0000

  // ---------------------------------------------------------------- address ranges

  function FrameAddr(i: int): int {
    RAM_BASE + i * PAGE_SIZE
  }

  /** The first frame of mark_range_used and mark_range_free; UINT64_MAX below RAM. */
  function StartFrame(base: nat): nat {
    if RAM_BASE <= base then (base - RAM_BASE) / PAGE_SIZE else TWO64 - 1
  }

  /** Their last frame, before the cap; base + size is taken modulo 2^64. */
  function EndFrame(base: nat, size: nat): nat {
    var end := (base + size) % TWO64;
    if RAM_BASE < end then (end - 1 - RAM_BASE) / PAGE_SIZE else 0
  }

  function Between(lo: int, hi: int): set<int> {
    set i | 0 <= i < TOTAL_FRAMES && IsFrame(i) && lo <= i < hi
  }

  /** The frames the two loops visit. */
  function RangeFrames(base: nat, size: nat): set<int> {
    Between(StartFrame(base), EndFrame(base, size) + 1)
  }

  predicate Meets(i: int, base: int, size: int) {
    base < FrameAddr(i) + PAGE_SIZE && FrameAddr(i) < base + size
  }

  /** For a non-empty range in RAM that does not wrap, the loops visit exactly the managed
      frames that share a byte with it. */
  lemma RangeIsMeeting(base: nat, size: nat, i: int)
    requires RAM_BASE <= base && 0 < size && base + size < TWO64
    ensures i in RangeFrames(base, size) <==> 0 <= i < TOTAL_FRAMES && Meets(i, base, size)
  {
    assert (base + size) % TWO64 == base + size;
    var lo, hi := base - RAM_BASE, base + size - 1 - RAM_BASE;
    assert lo / PAGE_SIZE <= i <==> lo < i * PAGE_SIZE + PAGE_SIZE;
    assert i <= hi / PAGE_SIZE <==> i * PAGE_SIZE <= hi;
  }

  /** An empty range in RAM still visits a frame, exactly when it lies inside a managed page
      or at the very start of RAM. */
  lemma EmptyRange(base: nat)
    requires RAM_BASE <= base < TWO64
    ensures RangeFrames(base, 0) != {} <==> base < RAM_TOP && (base % PAGE_SIZE != 0 || base == RAM_BASE)
  {
    assert (base + 0) % TWO64 == base;
    var lo := base - RAM_BASE;
    var q, r := lo / PAGE_SIZE, lo % PAGE_SIZE;
    assert base % PAGE_SIZE == r;
    if 0 < lo {
      assert EndFrame(base, 0) == if r == 0 then q - 1 else q;
    }
    if base < RAM_TOP && (r != 0 || base == RAM_BASE) {
      assert IsFrame(q);
      assert q in RangeFrames(base, 0);
    }
  }

  /** How many frames from lo up to, not including, hi are in the set. */
  function Count(f: set<int>, lo: int, hi: int): (n: nat)
    ensures hi <= lo ==> n == 0
    decreases f, hi - lo
  {
    if hi <= lo then 0 else Count(f, lo, hi - 1) + if hi - 1 in f then 1 else 0
  }

  lemma {:induction false} CountMonotone(f: set<int>, lo: int, mid: int, hi: int)
    requires mid <= hi
    ensures Count(f, lo, mid) <= Count(f, lo, hi)
    decreases hi - mid
  {
    if mid < hi {
      CountMonotone(f, lo, mid, hi - 1);
    }
  }

  lemma BetweenGrows(f: set<int>, lo: int, hi: int)
    requires 0 <= lo < hi <= TOTAL_FRAMES
    ensures f * Between(lo, hi) == f * Between(lo, hi - 1) + if hi - 1 in f then {hi - 1} else {}
  {
    assert IsFrame(hi - 1);
  }

  lemma {:induction false} CountIsSize(f: set<int>, lo: int, hi: int)
    requires 0 <= lo && hi <= TOTAL_FRAMES
    ensures Count(f, lo, hi) == |f * Between(lo, hi)|
    ensures hi <= lo ==> Between(lo, hi) == {}
    decreases hi - lo
  {
    if lo < hi {
      CountIsSize(f, lo, hi - 1);
      BetweenGrows(f, lo, hi);
    } else {
      assert Between(lo, hi) == {};
    }
  }

  // ---------------------------------------------------------------- the order of frames

  /** The addresses of the free frames from frame i up, lowest first. */
  function SupplyFrom(free: set<int>, i: nat): seq<int>
    requires i <= TOTAL_FRAMES
    decreases free, TOTAL_FRAMES - i
  {
    if i == TOTAL_FRAMES then [] else (if i in free then [FrameAddr(i)] else []) + SupplyFrom(free, i + 1)
  }

  function Supply(free: set<int>): seq<int> {
    SupplyFrom(free, 0)
  }

  lemma {:induction false} SupplySkip(free: set<int>, i: nat, m: nat)
    requires i <= m <= TOTAL_FRAMES && forall j :: i <= j < m ==> j !in free
    ensures SupplyFrom(free, i) == SupplyFrom(free, m)
    decreases m - i
  {
    if i < m {
      SupplySkip(free, i + 1, m);
    }
  }

  lemma {:induction false} SupplySame(f: set<int>, g: set<int>, i: nat)
    requires i <= TOTAL_FRAMES && forall j :: i <= j < TOTAL_FRAMES ==> (j in f <==> j in g)
    ensures SupplyFrom(f, i) == SupplyFrom(g, i)
    decreases TOTAL_FRAMES - i
  {
    if i < TOTAL_FRAMES {
      SupplySame(f, g, i + 1);
    }
  }

  /** Taking the lowest free frame takes the first of the supply. */
  lemma SupplyTake(free: set<int>, m: nat)
    requires m < TOTAL_FRAMES && m in free && forall j :: 0 <= j < m ==> j !in free
    ensures Supply(free) == [FrameAddr(m)] + Supply(free - {m})
  {
    SupplySkip(free, 0, m);
    SupplySkip(free - {m}, 0, m + 1);
    SupplySame(free, free - {m}, m + 1);
  }

  lemma SupplyNone(free: set<int>)
    requires forall j :: 0 <= j < TOTAL_FRAMES ==> j !in free
    ensures Supply(free) == []
  {
    SupplySkip(free, 0, TOTAL_FRAMES);
  }

  /** a is the address of a free frame from i on. */
  predicate IsFreeFrame(free: set<int>, i: nat, a: int) {
    exists j :: i <= j < TOTAL_FRAMES && j in free && a == FrameAddr(j)
  }

  lemma {:induction false} SupplyMembers(free: set<int>, i: nat, k: nat)
    requires i <= TOTAL_FRAMES && k < |SupplyFrom(free, i)|
    ensures IsFreeFrame(free, i, SupplyFrom(free, i)[k])
    decreases TOTAL_FRAMES - i
  {
    var s, rest := SupplyFrom(free, i), SupplyFrom(free, i + 1);
    if i in free && k == 0 {
      assert s[0] == FrameAddr(i);
    } else {
      var k' := if i in free then k - 1 else k;
      assert s[k] == rest[k'];
      SupplyMembers(free, i + 1, k');
      var j :| i + 1 <= j < TOTAL_FRAMES && j in free && rest[k'] == FrameAddr(j);
    }
  }

  lemma {:induction false} SupplyHasAll(free: set<int>, i: nat, j: nat)
    requires i <= j < TOTAL_FRAMES && j in free
    ensures FrameAddr(j) in SupplyFrom(free, i)
    decreases j - i
  {
    if i < j {
      SupplyHasAll(free, i + 1, j);
    }
  }

  /** No free frame lies below the first of the supply. */
  lemma {:induction false} LowestFirst(free: set<int>, i: nat, j: nat)
    requires i <= j < TOTAL_FRAMES && j in free
    ensures SupplyFrom(free, i) != [] && SupplyFrom(free, i)[0] <= FrameAddr(j)
    decreases j - i
  {
    if i !in free {
      LowestFirst(free, i + 1, j);
    }
  }

  /** The supply lists every free frame once, in strictly increasing order. */
  lemma {:induction false} SupplyOrdered(free: set<int>, i: nat, a: nat, b: nat)
    requires i <= TOTAL_FRAMES && a < b < |SupplyFrom(free, i)|
    ensures SupplyFrom(free, i)[a] < SupplyFrom(free, i)[b]
    decreases TOTAL_FRAMES - i
  {
    var s, rest := SupplyFrom(free, i), SupplyFrom(free, i + 1);
    if i in free {
      assert s == [FrameAddr(i)] + rest;
      if a == 0 {
        SupplyMembers(free, i + 1, b - 1);
        var j :| i + 1 <= j < TOTAL_FRAMES && j in free && rest[b - 1] == FrameAddr(j);
      } else {
        SupplyOrdered(free, i + 1, a - 1, b - 1);
      }
    } else {
      assert s == rest;
      SupplyOrdered(free, i + 1, a, b);
    }
  }

  /** While the frames from i to k are all free, they come one after the other. */
  lemma {:induction false} SupplyRun(free: set<int>, i: nat, k: nat)
    requires i <= k <= TOTAL_FRAMES && forall j :: i <= j < k ==> j in free
    ensures k - i <= |SupplyFrom(free, i)|
    ensures forall j :: 0 <= j < k - i ==> SupplyFrom(free, i)[j] == FrameAddr(i + j)
    decreases k - i
  {
    if i < k {
      SupplyRun(free, i + 1, k);
    }
  }

  /** Frame addresses that differ are a page apart. */
  lemma {:induction false} SupplyAscends(free: set<int>, k: nat)
    requires 0 < k < |Supply(free)|
    ensures Supply(free)[k - 1] + PAGE_SIZE <= Supply(free)[k]
  {
    SupplyOrdered(free, 0, k - 1, k);
    SupplyMembers(free, 0, k - 1);
    SupplyMembers(free, 0, k);
    PageApart(free, Supply(free)[k - 1], Supply(free)[k]);
  }

  lemma PageApart(free: set<int>, a: int, b: int)
    requires IsFreeFrame(free, 0, a) && IsFreeFrame(free, 0, b) && a < b
    ensures a + PAGE_SIZE <= b
  {
  }
}
