/** What one removal from a chain of free links leaves, and what two in a row leave. */
module Removals {
  import opened HeapModel
  import opened FreeLinks

  // ---------------------------------------------------------------- one removal

  /** prev_free of x once r is taken off its chain. */
  function PrevPast(l: Links, x: int, r: int): int
    requires x in l.prev && r in l.prev
  {
    if l.prev[x] == r then l.prev[r] else l.prev[x]
  }

  /** next_free of x once r is taken off its chain. */
  function NextPast(l: Links, x: int, r: int): int
    requires x in l.next && r in l.next
  {
    if l.next[x] == r then l.next[r] else l.next[x]
  }

  /** free_list_head once r is taken off its chain. */
  function HeadPast(l: Links, r: int): int
    requires r in l.next && r in l.prev
  {
    if l.prev[r] == 0 then l.next[r] else l.head
  }

  lemma RemoveFields(l: Links, r: int, x: int)
    requires LinksOk(l) && r in l.next && x in l.next && x != r
    ensures var l1 := Remove(l, r);
            && LinksOk(l1) && l1.next.Keys == l.next.Keys - {r} && x in l1.next && x in l1.prev
            && l1.prev[x] == PrevPast(l, x, r) && l1.next[x] == NextPast(l, x, r) && l1.head == HeadPast(l, r)
  {
    RemoveOk(l, r);
    assert LinkOk(l, r) && LinkOk(l, x);
  }

  /** The list after a removal is the chain from the new head, without the block. */
  lemma RemovedList(l: Links, r: int)
    requires LinksOk(l) && r in l.next
    ensures LinksOk(Remove(l, r)) && Remove(l, r).next.Keys == l.next.Keys - {r}
    ensures HeadPast(l, r) != r && (HeadPast(l, r) != 0 ==> HeadPast(l, r) in l.next)
    ensures FreeList(Remove(l, r)) == Without(Chain(l, HeadPast(l, r)), r)
  {
    RemoveOk(l, r);
    assert LinkOk(l, r);
    ChainAfterRemove(l, r, HeadPast(l, r));
  }

  // ---------------------------------------------------------------- two removals

  /** free_list_head once r and then q are taken off their chains. */
  function HeadPastBoth(l: Links, r: int, q: int): int
    requires r in l.next && r in l.prev && q in l.next && q in l.prev
  {
    if PrevPast(l, q, r) == 0 then NextPast(l, q, r) else HeadPast(l, r)
  }

  lemma BothRemovedList(l: Links, r: int, q: int)
    requires LinksOk(l) && r in l.next && q in l.next && r != q
    ensures LinksOk(Remove(l, r)) && q in Remove(l, r).next && LinksOk(Remove(Remove(l, r), q))
    ensures var y := HeadPastBoth(l, r, q);
            && y != r && y != q && (y != 0 ==> y in l.next)
            && FreeList(Remove(Remove(l, r), q)) == Without(Without(Chain(l, y), r), q)
  {
    RemoveFields(l, r, q);
    RemovedList(l, r);
    var l1, y := Remove(l, r), HeadPastBoth(l, r, q);
    RemovedList(l1, q);
    assert HeadPast(l1, q) == y;
    assert LinkOk(l1, q);
    ChainAfterRemove(l, r, y);
  }

  /** When two removals leave the rest of the list in place. If the first keeps it, the second
      has to; if the first does not, the second repairs it exactly when q was the head, or when
      nothing was listed and nothing is left behind q. */
  ghost predicate BothKept(l: Links, r: int, q: int)
    requires LinksOk(l) && r in l.next && q in l.next
  {
    if Kept(l, r)
    then q in FreeList(l) || PrevPast(l, q, r) != 0 || (HeadPast(l, r) == 0 && NextPast(l, q, r) == 0)
    else q == l.head || (l.head == 0 && l.next[q] == 0 && PrevPast(l, q, r) == 0)
  }

  lemma ChainStarts(l: Links, a: int)
    requires LinksOk(l) && a in l.next
    ensures Chain(l, a) != [] && Chain(l, a)[0] == a
  {
  }

  lemma FirstSurvives(s: seq<int>, r: int, q: int)
    requires s != [] && s[0] != r && s[0] != q
    ensures Without(Without(s, r), q) != [] && Without(Without(s, r), q)[0] == s[0]
  {
    assert Without(s, r)[0] == s[0];
  }

  /** The first removal keeps the list: the second decides. */
  lemma SecondDecides(l: Links, r: int, q: int)
    requires LinksOk(l) && r in l.next && q in l.next && r != q && Kept(l, r)
    requires LinksOk(Remove(l, r)) && q in Remove(l, r).next && LinksOk(Remove(Remove(l, r), q))
    ensures FreeList(Remove(Remove(l, r), q)) == Without(Without(FreeList(l), r), q) <==> BothKept(l, r, q)
  {
    RemoveKeepsList(l, r);
    RemoveFields(l, r, q);
    RemoveKeepsList(Remove(l, r), q);
    WithoutMembers(FreeList(l), r);
  }

  /** The first removal loses the list, and q was not its head. */
  lemma LostUnlessEmpty(l: Links, r: int, q: int)
    requires LinksOk(l) && r in l.next && q in l.next && r != q && !Kept(l, r) && q != l.head
    requires LinksOk(Remove(l, r)) && q in Remove(l, r).next && LinksOk(Remove(Remove(l, r), q))
    ensures FreeList(Remove(Remove(l, r), q)) == Without(Without(FreeList(l), r), q) <==> BothKept(l, r, q)
  {
    var y := HeadPastBoth(l, r, q);
    BothRemovedList(l, r, q);
    assert LinkOk(l, r) && LinkOk(l, q);
    assert y != 0 ==> l.prev[y] != 0;
    if y != 0 {
      ChainStarts(l, y);
      FirstSurvives(Chain(l, y), r, q);
    }
    if l.head != 0 {
      ChainStarts(l, l.head);
      FirstSurvives(FreeList(l), r, q);
    }
  }

  /** The first removal loses the list, and the second restores it from its old head. */
  lemma HeadRestores(l: Links, r: int, q: int)
    requires LinksOk(l) && r in l.next && q in l.next && r != q && !Kept(l, r) && q == l.head
    requires LinksOk(Remove(l, r)) && q in Remove(l, r).next && LinksOk(Remove(Remove(l, r), q))
    ensures FreeList(Remove(Remove(l, r), q)) == Without(Without(FreeList(l), r), q)
  {
    BothRemovedList(l, r, q);
    assert LinkOk(l, r) && LinkOk(l, q);
    var tail := Chain(l, l.next[q]);
    assert HeadPastBoth(l, r, q) == l.next[q] && FreeList(l) == [q] + tail;
    WithoutFirst(q, tail, r);
    WithoutFirst(q, Without(tail, r), q);
  }

  lemma BothRemovedKeeps(l: Links, r: int, q: int)
    requires LinksOk(l) && r in l.next && q in l.next && r != q
    ensures LinksOk(Remove(l, r)) && q in Remove(l, r).next && LinksOk(Remove(Remove(l, r), q))
    ensures FreeList(Remove(Remove(l, r), q)) == Without(Without(FreeList(l), r), q) <==> BothKept(l, r, q)
  {
    BothRemovedList(l, r, q);
    if Kept(l, r) {
      SecondDecides(l, r, q);
    } else if q == l.head {
      HeadRestores(l, r, q);
    } else {
      LostUnlessEmpty(l, r, q);
    }
  }
}
