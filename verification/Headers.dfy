/** Block headers as they lie in memory: six 64-bit words at the start of every block. */
module Headers {
  import opened Machine
  import opened HeapModel
  import opened Blocks

  datatype Header = Header(size: int, free: bool, next: int, prev: int, nextFree: int, prevFree: int)

  datatype Field = Size | IsFree | Next | Prev | NextFree | PrevFree

  function Offset(f: Field): int {
    match f
    case Size => 0
    case IsFree => 8
    case Next => 16
    case Prev => 24
    case NextFree => 32
    case PrevFree => 40
  }

  function Put(h: Header, f: Field, v: int): Header {
    match f
    case Size => h.(size := v)
    case IsFree => h.(free := v != 0)
    case Next => h.(next := v)
    case Prev => h.(prev := v)
    case NextFree => h.(nextFree := v)
    case PrevFree => h.(prevFree := v)
  }

  predicate InRam(a: int) {
    RAM_BASE <= a && a + HEADER_SIZE <= RAM_TOP
  }

  function HeaderAt(m: Memory, a: int): Header
    requires Mapped(m) && InRam(a)
  {
    Header(m[a], m[a + 8] != 0, m[a + 16], m[a + 24], m[a + 32], m[a + 40])
  }

  /** The places that hold headers: in RAM, and no two of them overlapping. */
  ghost predicate SlotsOk(slots: set<int>) {
    && (forall a :: a in slots ==> InRam(a))
    && (forall a, b :: a in slots && b in slots && a < b ==> a + HEADER_SIZE <= b)
  }

  /** w gives the headers that the memory holds. */
  ghost predicate Shown(m: Memory, w: map<int, Header>) {
    && Mapped(m) && SlotsOk(w.Keys)
    && forall a {:trigger HeaderAt(m, a)} :: a in w ==> HeaderAt(m, a) == w[a]
  }

  function Get(h: Header, f: Field): int {
    match f
    case Size => h.size
    case IsFree => if h.free then 1 else 0
    case Next => h.next
    case Prev => h.prev
    case NextFree => h.nextFree
    case PrevFree => h.prevFree
  }

  /** A store into one header field changes that field of that header, and nothing else. */
  lemma StoreShown(m: Memory, w: map<int, Header>, a: int, f: Field, v: int)
    requires Shown(m, w) && a in w
    ensures Shown(m[a + Offset(f) := v], w[a := Put(w[a], f, v)])
    ensures HeadersOnly(m, m[a + Offset(f) := v], w.Keys)
  {
    var m', w' := m[a + Offset(f) := v], w[a := Put(w[a], f, v)];
    assert w'.Keys == w.Keys && InRam(a);
    forall b | b in w' ensures InRam(b) && HeaderAt(m', b) == w'[b] {
      assert InRam(b) && HeaderAt(m, b) == w[b];
      if a != b {
        assert a + HEADER_SIZE <= b || b + HEADER_SIZE <= a;
      }
    }
    forall x | x in m && !InSlots(w.Keys, x) ensures m'[x] == m[x] {
      assert !(a <= x < a + HEADER_SIZE);
    }
  }

  /** x lies in one of the headers. */
  ghost predicate InSlots(slots: set<int>, x: int) {
    exists a :: a in slots && a <= x < a + HEADER_SIZE
  }

  /** m' differs from m in header words only. */
  ghost predicate HeadersOnly(m: Memory, m': Memory, slots: set<int>) {
    && m'.Keys == m.Keys
    && forall x :: x in m && !InSlots(slots, x) ==> m'[x] == m[x]
  }

  // ---------------------------------------------------------------- headers of a heap value

  function NextAddr(bs: seq<Block>, i: nat): int {
    if i + 1 < |bs| then bs[i + 1].addr else 0
  }

  function PrevAddr(bs: seq<Block>, i: nat): int
    requires i <= |bs|
  {
    if 0 < i then bs[i - 1].addr else 0
  }

  function Or0(links: map<int, int>, a: int): int {
    if a in links then links[a] else 0
  }

  /** Block i has a header with its size and the addresses of its neighbours. */
  predicate PhysAt(w: map<int, Header>, bs: seq<Block>, i: nat)
    requires i < |bs|
  {
    && bs[i].addr in w
    && w[bs[i].addr].size == bs[i].size
    && w[bs[i].addr].next == NextAddr(bs, i)
    && w[bs[i].addr].prev == PrevAddr(bs, i)
  }

  /** The headers are those of the blocks, with their sizes and physical links. */
  ghost predicate PhysRep(w: map<int, Header>, bs: seq<Block>) {
    && (forall a {:trigger IsBlock(bs, a)} :: a in w ==> IsBlock(bs, a))
    && (forall i :: 0 <= i < |bs| ==> PhysAt(w, bs, i))
  }

  ghost predicate FlagRep(w: map<int, Header>, bs: seq<Block>) {
    forall i :: 0 <= i < |bs| ==> bs[i].addr in w && w[bs[i].addr].free == bs[i].free
  }

  ghost predicate LinkRep(w: map<int, Header>, l: Links) {
    && l.next.Keys <= w.Keys
    && forall a :: a in w ==> w[a].nextFree == Or0(l.next, a) && w[a].prevFree == Or0(l.prev, a)
  }

  /** LinkRep, whatever the links of the header at a. */
  ghost predicate LinkRepBut(w: map<int, Header>, l: Links, a: int) {
    && l.next.Keys <= w.Keys
    && forall b :: b in w && b != a ==> w[b].nextFree == Or0(l.next, b) && w[b].prevFree == Or0(l.prev, b)
  }

  /** FlagRep, whatever the flag of block k. */
  ghost predicate FlagRepBut(w: map<int, Header>, bs: seq<Block>, k: int) {
    forall i :: 0 <= i < |bs| && i != k ==> bs[i].addr in w && w[bs[i].addr].free == bs[i].free
  }

  ghost predicate Rep(w: map<int, Header>, h: Heap) {
    PhysRep(w, h.blocks) && FlagRep(w, h.blocks) && LinkRep(w, h.links)
  }

  /** The six words at the start of block i in memory: its size, its flag, the blocks behind and
      before it, and its two links. */
  lemma HeaderWords(m: Memory, w: map<int, Header>, h: Heap, i: nat)
    requires Shown(m, w) && Rep(w, h) && i < |h.blocks|
    ensures var b := h.blocks[i];
            && (forall x :: b.addr <= x < b.addr + 48 ==> x in m)
            && m[b.addr] == b.size && (m[b.addr + 8] != 0 <==> b.free)
            && m[b.addr + 16] == (if i + 1 < |h.blocks| then h.blocks[i + 1].addr else 0)
            && m[b.addr + 24] == (if 0 < i then h.blocks[i - 1].addr else 0)
            && m[b.addr + 32] == (if b.addr in h.links.next then h.links.next[b.addr] else 0)
            && m[b.addr + 40] == (if b.addr in h.links.prev then h.links.prev[b.addr] else 0)
  {
    var b := h.blocks[i];
    assert PhysAt(w, h.blocks, i) && InRam(b.addr);
    assert HeaderAt(m, b.addr) == w[b.addr];
  }

  /** w' has the physical fields of w, and its flags except at a. */
  ghost predicate SamePhys(w: map<int, Header>, w': map<int, Header>, a: int) {
    && w'.Keys == w.Keys
    && forall b :: b in w ==>
         && w'[b].size == w[b].size && w'[b].next == w[b].next && w'[b].prev == w[b].prev
         && (b != a ==> w'[b].free == w[b].free)
  }

  /** The headers after add_to_free_list. */
  function Hooked(w: map<int, Header>, head: int, a: int): map<int, Header>
    requires a in w && (head != 0 ==> head in w)
  {
    var w1 := w[a := w[a].(free := true, nextFree := head, prevFree := 0)];
    if head != 0 then w1[head := w1[head].(prevFree := a)] else w1
  }

  lemma HookedRep(w: map<int, Header>, l: Links, a: int)
    requires LinksOk(l) && LinkRepBut(w, l, a) && Unlinked(l, a) && a in w
    ensures l.head != 0 ==> l.head in w
    ensures var w' := Hooked(w, l.head, a);
            LinkRep(w', Add(l, a)) && SamePhys(w, w', a) && w'[a].free
  {
    var r, w' := Add(l, a), Hooked(w, l.head, a);
    assert w'.Keys == w.Keys;
    forall b | b in w' ensures w'[b].nextFree == Or0(r.next, b) && w'[b].prevFree == Or0(r.prev, b) {
      assert b != a ==> w[b].nextFree == Or0(l.next, b) && w[b].prevFree == Or0(l.prev, b);
    }
  }

  /** The headers after remove_from_free_list. */
  function Unhooked(w: map<int, Header>, a: int): map<int, Header>
    requires a in w
    requires w[a].prevFree != 0 ==> w[a].prevFree in w
    requires w[a].nextFree != 0 ==> w[a].nextFree in w
  {
    var p, n := w[a].prevFree, w[a].nextFree;
    var w1 := if p != 0 then w[p := w[p].(nextFree := n)] else w;
    var w2 := if n != 0 then w1[n := w1[n].(prevFree := p)] else w1;
    w2[a := w2[a].(free := false, nextFree := 0, prevFree := 0)]
  }

  lemma UnhookedLinks(w: map<int, Header>, l: Links, a: int)
    requires LinksOk(l) && LinkRep(w, l) && a in l.next
    ensures (w[a].prevFree != 0 ==> w[a].prevFree in w) && (w[a].nextFree != 0 ==> w[a].nextFree in w)
    ensures LinkRep(Unhooked(w, a), Remove(l, a))
  {
    assert LinkOk(l, a);
    var r, w' := Remove(l, a), Unhooked(w, a);
    assert w'.Keys == w.Keys;
    assert r.next.Keys <= l.next.Keys;
    forall b | b in w' ensures w'[b].nextFree == Or0(r.next, b) && w'[b].prevFree == Or0(r.prev, b) {
      assert w[b].nextFree == Or0(l.next, b) && w[b].prevFree == Or0(l.prev, b);
    }
  }

  lemma UnhookedPhys(w: map<int, Header>, a: int)
    requires a in w
    requires w[a].prevFree != 0 ==> w[a].prevFree in w
    requires w[a].nextFree != 0 ==> w[a].nextFree in w
    ensures SamePhys(w, Unhooked(w, a), a) && !Unhooked(w, a)[a].free
  {
    assert Unhooked(w, a).Keys == w.Keys;
  }

  // ---------------------------------------------------------------- merging

  /** w' has the flags and free links of w, on the headers it keeps. */
  ghost predicate SameLinks(w: map<int, Header>, w': map<int, Header>) {
    && w'.Keys <= w.Keys
    && forall b :: b in w' ==>
         w'[b].free == w[b].free && w'[b].nextFree == w[b].nextFree && w'[b].prevFree == w[b].prevFree
  }

  /** The headers after block a has swallowed its successor b. */
  function Absorbed(w: map<int, Header>, a: int, b: int): map<int, Header>
    requires a in w && b in w && (w[b].next != 0 ==> w[b].next in w)
  {
    var n := w[b].next;
    var w1 := w[a := w[a].(size := w[a].size + (w[b].size + HEADER_SIZE), next := n)];
    (if n != 0 then w1[n := w1[n].(prev := a)] else w1) - {b}
  }

  function LastAddr(bs: seq<Block>): int {
    if bs == [] then 0 else bs[|bs| - 1].addr
  }

  lemma NextIsHeader(w: map<int, Header>, bs: seq<Block>, i: nat)
    requires PhysRep(w, bs) && i < |bs|
    ensures bs[i].addr in w && (w[bs[i].addr].next != 0 ==> w[bs[i].addr].next in w)
  {
    assert PhysAt(w, bs, i);
    assert i + 1 < |bs| ==> PhysAt(w, bs, i + 1);
  }

  /** One block of the merged list, and its header. */
  lemma AbsorbedAt(w: map<int, Header>, bs: seq<Block>, i: nat, k: nat)
    requires Spaced(bs) && PhysRep(w, bs) && i + 1 < |bs| && k < |MergeAt(bs, i)|
    requires bs[i].addr in w && bs[i + 1].addr in w && (w[bs[i + 1].addr].next != 0 ==> w[bs[i + 1].addr].next in w)
    ensures PhysAt(Absorbed(w, bs[i].addr, bs[i + 1].addr), MergeAt(bs, i), k)
  {
    var m, j := MergeAt(bs, i), if k <= i then k else k + 1;
    AllOrdered(bs);
    assert m[k].addr == bs[j].addr;
    assert PhysAt(w, bs, j) && PhysAt(w, bs, i) && PhysAt(w, bs, i + 1);
  }

  lemma AbsorbedRep(w: map<int, Header>, bs: seq<Block>, i: nat)
    requires Spaced(bs) && PhysRep(w, bs) && i + 1 < |bs|
    ensures bs[i].addr in w && bs[i + 1].addr in w && (w[bs[i + 1].addr].next != 0 ==> w[bs[i + 1].addr].next in w)
    ensures PhysRep(Absorbed(w, bs[i].addr, bs[i + 1].addr), MergeAt(bs, i))
  {
    var m := MergeAt(bs, i);
    NextIsHeader(w, bs, i);
    NextIsHeader(w, bs, i + 1);
    var w' := Absorbed(w, bs[i].addr, bs[i + 1].addr);
    forall a | a in w' ensures IsBlock(m, a) {
      var k := IndexOf(bs, a);
      assert m[if k <= i then k else k - 1].addr == a;
    }
    forall k | 0 <= k < |m| ensures PhysAt(w', m, k) {
      AbsorbedAt(w, bs, i, k);
    }
  }

  lemma AbsorbedLinks(w: map<int, Header>, a: int, b: int)
    requires a in w && b in w && (w[b].next != 0 ==> w[b].next in w)
    ensures SameLinks(w, Absorbed(w, a, b)) && Absorbed(w, a, b).Keys == w.Keys - {b}
  {
  }

  lemma MergedLast(bs: seq<Block>, i: nat)
    requires Spaced(bs) && i + 1 < |bs|
    ensures LastAddr(MergeAt(bs, i)) == if LastAddr(bs) == bs[i + 1].addr then bs[i].addr else LastAddr(bs)
  {
    if i + 2 < |bs| {
      Ordered(bs, i + 1, |bs| - 1);
    }
  }

  lemma SamePhysRep(w: map<int, Header>, w': map<int, Header>, a: int, bs: seq<Block>)
    requires PhysRep(w, bs) && SamePhys(w, w', a)
    ensures PhysRep(w', bs)
  {
    forall i | 0 <= i < |bs| ensures PhysAt(w', bs, i) {
      assert PhysAt(w, bs, i);
    }
  }

  /** Flags after one of the two blocks at i left the free list and they were merged. */
  lemma MergedFlags(w: map<int, Header>, w1: map<int, Header>, w2: map<int, Header>,
                    bs: seq<Block>, i: nat, at: nat, a: int)
    requires Spaced(bs) && i + 1 < |bs| && i <= at <= i + 1 && FlagRepBut(w, bs, at)
    requires (a == bs[i].addr || a == bs[i + 1].addr) && SamePhys(w, w1, a)
    requires SameLinks(w1, w2) && w2.Keys == w1.Keys - {bs[i + 1].addr}
    ensures FlagRepBut(w2, MergeAt(bs, i), i)
  {
    var m := MergeAt(bs, i);
    AllOrdered(bs);
    forall k | 0 <= k < |m| && k != i ensures m[k].addr in w2 && w2[m[k].addr].free == m[k].free {
      var j := if k < i then k else k + 1;
      assert m[k] == bs[j] && bs[j].addr in w;
    }
  }

  lemma DroppedLinks(w: map<int, Header>, w': map<int, Header>, l: Links, gone: int)
    requires LinkRep(w, l) && gone !in l.next && SameLinks(w, w') && w'.Keys == w.Keys - {gone}
    ensures LinkRep(w', l)
  {
  }

  function FirstAddr(bs: seq<Block>): int {
    if bs == [] then 0 else bs[0].addr
  }

  lemma HeadersOnlyTrans(m: Memory, m1: Memory, m2: Memory, s: set<int>, t: set<int>)
    requires HeadersOnly(m, m1, s) && HeadersOnly(m1, m2, t) && t <= s
    ensures HeadersOnly(m, m2, s)
  {
    forall x | x in m && !InSlots(s, x) ensures m2[x] == m[x] {
      assert !InSlots(t, x);
    }
  }

  /** The contents of b's payload are the same in both memories. */
  ghost predicate PayloadKept(m: Memory, m': Memory, b: Block) {
    forall x :: b.addr + HEADER_SIZE <= x < End(b) && x in m ==> x in m' && m'[x] == m[x]
  }

  /** No header lies in a payload, so writing headers keeps every payload. */
  lemma HeadersKeepPayloads(m: Memory, m': Memory, w: map<int, Header>, bs: seq<Block>)
    requires Spaced(bs) && PhysRep(w, bs) && HeadersOnly(m, m', w.Keys)
    ensures forall b :: b in bs ==> PayloadKept(m, m', b)
  {
    AllOrdered(bs);
    forall i, x | 0 <= i < |bs| && bs[i].addr + HEADER_SIZE <= x < End(bs[i]) && x in m ensures m'[x] == m[x] {
      assert !InSlots(w.Keys, x) by {
        forall a | a in w.Keys ensures !(a <= x < a + HEADER_SIZE) {
          var k := IndexOf(bs, a);
          assert BlockOk(bs[k]);
        }
      }
    }
  }

  // ---------------------------------------------------------------- splitting

  /** The headers after block a, cut to n bytes, has a new successor at b; g is whatever the
      six words at b held. */
  function SplitHeaders(w: map<int, Header>, a: int, n: int, b: int, g: Header): map<int, Header>
    requires a in w && (w[a].next != 0 ==> w[a].next in w)
  {
    var next := w[a].next;
    var w1 := w[b := g.(size := w[a].size - n - HEADER_SIZE, free := true, next := next, prev := a)];
    var w2 := if next != 0 then w1[next := w1[next].(prev := b)] else w1;
    w2[a := w2[a].(size := n, next := b)]
  }

  /** Whether b counted as a header before makes no difference. */
  lemma SplitFromSlot(w: map<int, Header>, a: int, n: int, b: int, g: Header)
    requires a in w && (w[a].next != 0 ==> w[a].next in w) && b !in w
    ensures SplitHeaders(w[b := g], a, n, b, g) == SplitHeaders(w, a, n, b, g)
  {
    assert w[b := g][b := g.(size := w[a].size - n - HEADER_SIZE, free := true, next := w[a].next, prev := a)]
        == w[b := g.(size := w[a].size - n - HEADER_SIZE, free := true, next := w[a].next, prev := a)];
  }

  lemma SplitPhysAt(w: map<int, Header>, bs: seq<Block>, i: nat, n: int, g: Header, k: nat)
    requires Spaced(bs) && PhysRep(w, bs) && i < |bs| && 0 <= n && n + MIN_BLOCK_SIZE <= bs[i].size
    requires bs[i].addr in w && (w[bs[i].addr].next != 0 ==> w[bs[i].addr].next in w)
    requires k < |SplitAt(bs, i, n)|
    ensures PhysAt(SplitHeaders(w, bs[i].addr, n, bs[i].addr + HEADER_SIZE + n, g), SplitAt(bs, i, n), k)
  {
    var m, j := SplitAt(bs, i, n), if k <= i then k else k - 1;
    assert PhysAt(w, bs, j) && PhysAt(w, bs, i);
    assert BlockOk(bs[i]);
    if j < i {
      Ordered(bs, j, i);
      assert m[k] == bs[j] && m[k + 1].addr == bs[j + 1].addr;
      if i + 1 < |bs| { Ordered(bs, i, i + 1); }
    } else if i < j {
      Ordered(bs, i, j);
      assert m[k] == bs[j] && NextAddr(m, k) == NextAddr(bs, j);
      if i + 1 < j { Ordered(bs, i + 1, j); }
    } else if i + 1 < |bs| {
      Ordered(bs, i, i + 1);
    }
  }

  lemma SplitRep(w: map<int, Header>, bs: seq<Block>, i: nat, n: int, g: Header)
    requires Spaced(bs) && PhysRep(w, bs) && i < |bs| && 0 <= n && n + MIN_BLOCK_SIZE <= bs[i].size
    ensures bs[i].addr in w && (w[bs[i].addr].next != 0 ==> w[bs[i].addr].next in w)
    ensures PhysRep(SplitHeaders(w, bs[i].addr, n, bs[i].addr + HEADER_SIZE + n, g), SplitAt(bs, i, n))
  {
    var a, m := bs[i].addr, SplitAt(bs, i, n);
    NextIsHeader(w, bs, i);
    var w' := SplitHeaders(w, a, n, a + HEADER_SIZE + n, g);
    forall x | x in w' ensures IsBlock(m, x) {
      if x == a + HEADER_SIZE + n {
        assert m[i + 1].addr == x;
      } else {
        assert x in w && IsBlock(bs, x);
        var k := IndexOf(bs, x);
        assert m[if k <= i then k else k + 1].addr == x;
      }
    }
    forall k | 0 <= k < |m| ensures PhysAt(w', m, k) {
      SplitPhysAt(w, bs, i, n, g, k);
    }
  }

  lemma SplitFlagsAndLinks(w: map<int, Header>, bs: seq<Block>, i: nat, n: int, g: Header, l: Links)
    requires Spaced(bs) && PhysRep(w, bs) && i < |bs| && 0 <= n && n + MIN_BLOCK_SIZE <= bs[i].size
    requires bs[i].addr in w && (w[bs[i].addr].next != 0 ==> w[bs[i].addr].next in w)
    requires FlagRepBut(w, bs, i) && !w[bs[i].addr].free && LinkRep(w, l)
    ensures var b := bs[i].addr + HEADER_SIZE + n;
            var w' := SplitHeaders(w, bs[i].addr, n, b, g);
            FlagRep(w', SplitAt(bs, i, n)) && LinkRepBut(w', l, b) && b !in w && w'.Keys == w.Keys + {b}
  {
    var a, b, m := bs[i].addr, bs[i].addr + HEADER_SIZE + n, SplitAt(bs, i, n);
    AllOrdered(bs);
    assert b in w ==> IsBlock(bs, b);
    var w' := SplitHeaders(w, a, n, b, g);
    assert w'.Keys == w.Keys + {b};
    forall k | 0 <= k < |m| ensures m[k].addr in w' && w'[m[k].addr].free == m[k].free {
      if k != i && k != i + 1 {
        var j := if k < i then k else k - 1;
        assert m[k] == bs[j] && bs[j].addr in w && w[bs[j].addr].free == bs[j].free;
      }
    }
  }

  /** A place inside a payload, large enough for a header, can become one. */
  lemma InnerSlot(m: Memory, w: map<int, Header>, bs: seq<Block>, i: nat, b: int)
    requires Shown(m, w) && Spaced(bs) && PhysRep(w, bs) && i < |bs|
    requires bs[i].addr + HEADER_SIZE <= b && b + HEADER_SIZE <= End(bs[i])
    ensures InRam(b) && Shown(m, w[b := HeaderAt(m, b)]) && b !in w
  {
    AllOrdered(bs);
    assert BlockOk(bs[i]);
    forall a | a in w ensures a + HEADER_SIZE <= b || b + HEADER_SIZE <= a {
      assert IsBlock(bs, a) && BlockOk(bs[IndexOf(bs, a)]);
    }
    var w' := w[b := HeaderAt(m, b)];
    assert w'.Keys == w.Keys + {b};
    forall a | a in w' ensures InRam(a) && HeaderAt(m, a) == w'[a] {
      assert a != b ==> InRam(a) && HeaderAt(m, a) == w[a];
    }
  }

  /** Flags after the block left the free list and is handed out whole. */
  lemma TakenRep(w: map<int, Header>, w': map<int, Header>, h: Heap, i: nat)
    requires Spaced(h.blocks) && PhysRep(w, h.blocks) && FlagRep(w, h.blocks) && i < |h.blocks|
    requires var a := h.blocks[i].addr; a in w' && SamePhys(w, w', a) && !w'[a].free
    ensures PhysRep(w', SetFree(h.blocks, i, false)) && FlagRep(w', SetFree(h.blocks, i, false))
    ensures PhysRep(w', h.blocks) && FlagRepBut(w', h.blocks, i)
  {
    var a, bs, cs := h.blocks[i].addr, h.blocks, SetFree(h.blocks, i, false);
    SamePhysRep(w, w', a, bs);
    AllOrdered(bs);
    forall x | x in w' ensures IsBlock(cs, x) {
      assert IsBlock(bs, x);
      assert cs[IndexOf(bs, x)].addr == x;
    }
    forall k | 0 <= k < |cs| ensures PhysAt(w', cs, k) {
      assert PhysAt(w', bs, k);
    }
  }

  /** Writing a payload disturbs no header, and no payload but that one. */
  lemma PayloadWrite(m: Memory, m': Memory, w: map<int, Header>, bs: seq<Block>, i: nat)
    requires Shown(m, w) && Spaced(bs) && PhysRep(w, bs) && i < |bs| && m'.Keys == m.Keys
    requires forall x :: x in m && !(bs[i].addr + HEADER_SIZE <= x < End(bs[i])) ==> m'[x] == m[x]
    ensures Shown(m', w)
    ensures forall b :: b in bs && b != bs[i] ==> PayloadKept(m, m', b)
  {
    AllOrdered(bs);
    assert BlockOk(bs[i]);
    forall a | a in w ensures InRam(a) && HeaderAt(m', a) == w[a] {
      assert InRam(a) && HeaderAt(m, a) == w[a];
      assert IsBlock(bs, a) && BlockOk(bs[IndexOf(bs, a)]);
    }
  }
}
