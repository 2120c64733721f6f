/** The kernel heap of src/memory/kheap.c as values: the physical block list, the free
    links threaded through the free blocks, and one function per heap operation. */
module HeapModel {
  import opened Machine

  const HEADER_SIZE := 48
  const MIN_BLOCK_SIZE := 96
  const PAGE_PAYLOAD := 4048

  /** One block of the physical list; `size` excludes the 48-byte header. */
  datatype Block = Block(addr: int, size: int, free: bool)

  /** free_list_head and the next_free/prev_free fields of the free blocks (0 is NULL).
      `rank` is a history variable: a block's rank is one above that of the block it was
      pushed in front of, so every next_free link leads to a smaller rank. */
  datatype Links = Links(head: int, next: map<int, int>, prev: map<int, int>, rank: map<int, nat>)

  datatype Heap = Heap(blocks: seq<Block>, links: Links)

  /** The heap with the frames alloc_frame still has to give, in the order it gives them. */
  datatype System = System(heap: Heap, supply: seq<int>)

  const EMPTY_LINKS := Links(0, map[], map[], map[])
  const EMPTY_HEAP := Heap([], EMPTY_LINKS)

  // ---------------------------------------------------------------- physical list

  function End(b: Block): int {
    b.addr + HEADER_SIZE + b.size
  }

  predicate BlockOk(b: Block) {
    && b.addr % 8 == 0 && b.size % 8 == 0 && 8 <= b.size
    && RAM_BASE <= b.addr && End(b) <= RAM_TOP
  }

  /** Block i begins where its predecessor ends, or further on. */
  predicate Follows(bs: seq<Block>, i: nat)
    requires i < |bs|
  {
    0 < i ==> End(bs[i - 1]) <= bs[i].addr
  }

  /** Every block is aligned and lies in RAM, and none begins before its predecessor ends. */
  predicate Spaced(bs: seq<Block>) {
    && (forall i {:trigger BlockOk(bs[i])} :: 0 <= i < |bs| ==> BlockOk(bs[i]))
    && (forall i :: 0 <= i < |bs| ==> Follows(bs, i))
  }

  /** Block i begins exactly where its predecessor ends. */
  predicate Adjoins(bs: seq<Block>, i: nat)
    requires i < |bs|
  {
    0 < i ==> bs[i].addr == End(bs[i - 1])
  }

  /** The blocks leave no gap. */
  predicate Tiled(bs: seq<Block>) {
    Spaced(bs) && forall i :: 0 <= i < |bs| ==> Adjoins(bs, i)
  }

  predicate IsBlock(bs: seq<Block>, a: int) {
    exists i :: 0 <= i < |bs| && bs[i].addr == a
  }

  /** The position of the block at address a, or |bs|. */
  ghost function IndexOf(bs: seq<Block>, a: int): (i: nat)
    ensures i <= |bs|
    ensures i < |bs| ==> bs[i].addr == a
    ensures i < |bs| <==> IsBlock(bs, a)
  {
    if IsBlock(bs, a) then var i :| 0 <= i < |bs| && bs[i].addr == a; i else |bs|
  }

  function MergeAt(bs: seq<Block>, i: nat): seq<Block>
    requires i + 1 < |bs|
  {
    bs[..i] + [Block(bs[i].addr, bs[i].size + HEADER_SIZE + bs[i + 1].size, bs[i].free)] + bs[i + 2..]
  }

  function SplitAt(bs: seq<Block>, i: nat, n: int): seq<Block>
    requires i < |bs|
  {
    bs[..i]
    + [Block(bs[i].addr, n, false), Block(bs[i].addr + HEADER_SIZE + n, bs[i].size - n - HEADER_SIZE, true)]
    + bs[i + 1..]
  }

  function SetFree(bs: seq<Block>, i: nat, f: bool): seq<Block>
    requires i < |bs|
  {
    bs[i := bs[i].(free := f)]
  }

  function MergeNext(bs: seq<Block>, i: nat): seq<Block>
    requires i < |bs|
  {
    if i + 1 < |bs| && bs[i + 1].free then MergeAt(bs, i) else bs
  }

  function MergePrev(bs: seq<Block>, i: nat): seq<Block>
    requires i < |bs|
  {
    if 0 < i && bs[i - 1].free then MergeAt(bs, i - 1) else bs
  }

  /** kfree on the physical list: flag the block, then merge forward and backward. */
  function FreedBlocks(bs: seq<Block>, i: nat): seq<Block>
    requires i < |bs|
  {
    MergePrev(MergeNext(SetFree(bs, i, true), i), i)
  }

  /** kmalloc on the physical list: split when a block of at least 48 bytes remains. */
  function PlacedBlocks(bs: seq<Block>, i: nat, n: int): seq<Block>
    requires i < |bs|
  {
    if n + MIN_BLOCK_SIZE <= bs[i].size then SplitAt(bs, i, n) else SetFree(bs, i, false)
  }

  // ---------------------------------------------------------------- free links

  /** The links at a: the block after a leads back to a and ranks below it, and the block
      before a leads on to a. */
  predicate LinkOk(l: Links, a: int)
    requires l.next.Keys == l.prev.Keys == l.rank.Keys && a in l.next
  {
    && (l.next[a] != 0 ==> l.next[a] in l.next && l.prev[l.next[a]] == a && l.rank[l.next[a]] < l.rank[a])
    && (l.prev[a] != 0 ==> l.prev[a] in l.next && l.next[l.prev[a]] == a)
  }

  /** next_free and prev_free are mutually inverse, next_free leads down in rank, and the
      list head has no predecessor. Chains that free_list_head does not reach are allowed. */
  ghost predicate LinksOk(l: Links) {
    && l.next.Keys == l.prev.Keys == l.rank.Keys
    && 0 !in l.next
    && (forall a {:trigger LinkOk(l, a)} :: a in l.next ==> LinkOk(l, a))
    && (l.head != 0 ==> l.head in l.next && l.prev[l.head] == 0)
  }

  /** a is free but linked to nothing: how expand_heap leaves the pages after the first. */
  ghost predicate Unlinked(l: Links, a: int) {
    && a != 0 && a != l.head
    && (a in l.next ==> l.next[a] == 0)
    && (a in l.prev ==> l.prev[a] == 0)
  }

  /** add_to_free_list: push in front of the current head. */
  function Add(l: Links, a: int): Links {
    Links(a,
          l.next[a := l.head],
          (if l.head != 0 then l.prev[l.head := a] else l.prev)[a := 0],
          l.rank[a := if l.head in l.rank then l.rank[l.head] + 1 else 0])
  }

  /** remove_from_free_list: a block without predecessor is taken for the list head, and
      whatever follows it becomes the list, even when it was not on the list at all. */
  function Remove(l: Links, a: int): Links
    requires a in l.next && a in l.prev
  {
    var p, n := l.prev[a], l.next[a];
    Links(if p != 0 then l.head else n,
          (if p != 0 then l.next[p := n] else l.next) - {a},
          (if n != 0 then l.prev[n := p] else l.prev) - {a},
          l.rank - {a})
  }

  /** A fresh page: flagged free, with the null links of a zeroed frame. */
  function Enroll(l: Links, a: int): Links {
    l.(next := l.next[a := 0], prev := l.prev[a := 0], rank := l.rank[a := 0])
  }

  /** The inverse of Enroll, for a page header swallowed by a merge. */
  function Drop(l: Links, a: int): Links {
    l.(next := l.next - {a}, prev := l.prev - {a}, rank := l.rank - {a})
  }

  /** The addresses met by following next_free from a. */
  ghost function Chain(l: Links, a: int): seq<int>
    requires LinksOk(l)
    requires a != 0 ==> a in l.next
    decreases if a != 0 then l.rank[a] + 1 else 0
  {
    if a == 0 then [] else assert LinkOk(l, a); [a] + Chain(l, l.next[a])
  }

  ghost function FreeList(l: Links): seq<int>
    requires LinksOk(l)
  {
    Chain(l, l.head)
  }

  // ---------------------------------------------------------------- the heap invariant

  /** The linked addresses are exactly those of the free blocks. */
  ghost predicate LinksMatch(bs: seq<Block>, l: Links) {
    && (forall i :: 0 <= i < |bs| ==> (bs[i].free <==> bs[i].addr in l.next))
    && (forall a {:trigger IsBlock(bs, a)} :: a in l.next ==> IsBlock(bs, a))
  }

  ghost predicate HeapOk(h: Heap) {
    Spaced(h.blocks) && LinksOk(h.links) && LinksMatch(h.blocks, h.links)
  }

  predicate FrameOk(f: int) {
    RAM_BASE <= f && f + PAGE_SIZE <= RAM_TOP && f % 8 == 0
  }

  /** f lies behind all blocks. */
  predicate Behind(bs: seq<Block>, f: int) {
    bs != [] ==> End(bs[|bs| - 1]) <= f
  }

  /** Frame j of the supply lies behind the heap and behind the frames before it. */
  predicate FrameAhead(s: System, j: nat)
    requires j < |s.supply|
  {
    && FrameOk(s.supply[j])
    && if j == 0 then Behind(s.heap.blocks, s.supply[0]) else s.supply[j - 1] + PAGE_SIZE <= s.supply[j]
  }

  ghost predicate SystemOk(s: System) {
    HeapOk(s.heap) && forall j {:trigger FrameAhead(s, j)} :: 0 <= j < |s.supply| ==> FrameAhead(s, j)
  }
}
