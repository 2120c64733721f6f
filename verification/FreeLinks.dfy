/** What the two free-list primitives do to the free links, whichever chain the block is on. */
module FreeLinks {
  import opened HeapModel

  lemma AddOk(l: Links, a: int)
    requires LinksOk(l) && Unlinked(l, a)
    ensures LinksOk(Add(l, a)) && Add(l, a).next.Keys == l.next.Keys + {a}
  {
    var r := Add(l, a);
    assert r.next.Keys == r.prev.Keys == r.rank.Keys == l.next.Keys + {a};
    forall b | b in r.next ensures LinkOk(r, b) {
      if b != a {
        assert LinkOk(l, b);
        assert a in l.next ==> LinkOk(l, a);
      }
    }
  }

  lemma RemoveOk(l: Links, a: int)
    requires LinksOk(l) && a in l.next
    ensures LinksOk(Remove(l, a)) && Remove(l, a).next.Keys == l.next.Keys - {a}
  {
    var r, p, n := Remove(l, a), l.prev[a], l.next[a];
    assert LinkOk(l, a);
    assert p != 0 ==> LinkOk(l, p);
    assert n != 0 ==> LinkOk(l, n);
    assert r.next.Keys == r.prev.Keys == r.rank.Keys == l.next.Keys - {a};
    forall b | b in r.next ensures LinkOk(r, b) {
      assert LinkOk(l, b);
    }
  }

  lemma EnrollOk(l: Links, a: int)
    requires LinksOk(l) && a !in l.next && a != 0
    ensures LinksOk(Enroll(l, a)) && Unlinked(Enroll(l, a), a)
    ensures Enroll(l, a).next.Keys == l.next.Keys + {a}
  {
    var r := Enroll(l, a);
    forall b | b in r.next ensures LinkOk(r, b) {
      assert b != a ==> LinkOk(l, b);
    }
  }

  lemma DropOk(l: Links, a: int)
    requires LinksOk(l) && Unlinked(l, a)
    ensures LinksOk(Drop(l, a)) && Drop(l, a).next.Keys == l.next.Keys - {a}
  {
    var r := Drop(l, a);
    forall b | b in r.next ensures LinkOk(r, b) {
      assert LinkOk(l, b);
      assert a in l.next ==> LinkOk(l, a);
    }
  }

  /** s with every occurrence of a taken out. */
  function Without(s: seq<int>, a: int): seq<int> {
    if s == [] then [] else (if s[0] == a then [] else [s[0]]) + Without(s[1..], a)
  }

  lemma {:induction false} WithoutAbsent(s: seq<int>, a: int)
    ensures a !in s ==> Without(s, a) == s
  {
    if s != [] {
      WithoutAbsent(s[1..], a);
    }
  }

  lemma {:induction false} WithoutMembers(s: seq<int>, a: int)
    ensures forall x :: x in Without(s, a) <==> x in s && x != a
  {
    if s != [] {
      WithoutMembers(s[1..], a);
    }
  }

  lemma WithoutFirst(x: int, s: seq<int>, a: int)
    ensures Without([x] + s, a) == (if x == a then [] else [x]) + Without(s, a)
  {
    assert ([x] + s)[1..] == s;
  }

  /** Ranks fall along a chain, so a chain visits no block twice. */
  lemma {:induction false} ChainFalls(l: Links, a: int)
    requires LinksOk(l) && a in l.next
    ensures forall x :: x in Chain(l, a) ==> x in l.next && (x != a ==> l.rank[x] < l.rank[a])
    decreases l.rank[a]
  {
    assert LinkOk(l, a);
    if l.next[a] != 0 {
      ChainFalls(l, l.next[a]);
    }
  }

  lemma {:induction false} ChainDistinct(l: Links, a: int)
    requires LinksOk(l) && a in l.next
    ensures forall i, j :: 0 <= i < j < |Chain(l, a)| ==> Chain(l, a)[i] != Chain(l, a)[j]
    decreases l.rank[a]
  {
    assert LinkOk(l, a);
    if l.next[a] != 0 {
      ChainDistinct(l, l.next[a]);
      ChainFalls(l, l.next[a]);
      assert forall x :: x in Chain(l, l.next[a]) ==> x != a;
    }
  }

  /** A block other than the first of a chain is reached through its prev_free. */
  lemma {:induction false} ChainEntry(l: Links, a: int, x: int)
    requires LinksOk(l) && a in l.next && x in Chain(l, a) && x != a
    ensures x in l.prev && l.prev[x] != 0
    decreases l.rank[a]
  {
    assert LinkOk(l, a);
    if l.next[a] != 0 && x != l.next[a] {
      ChainEntry(l, l.next[a], x);
    }
  }

  lemma {:induction false} ChainAfterAdd(l: Links, a: int, x: int)
    requires LinksOk(l) && Unlinked(l, a) && LinksOk(Add(l, a))
    requires x != 0 ==> x in l.next && x != a
    ensures Chain(Add(l, a), x) == Chain(l, x)
    decreases if x != 0 then l.rank[x] + 1 else 0
  {
    if x != 0 {
      assert LinkOk(l, x);
      ChainAfterAdd(l, a, l.next[x]);
    }
  }

  /** add_to_free_list puts the block first and keeps the order of the rest. */
  lemma AddPushesFront(l: Links, a: int)
    requires LinksOk(l) && Unlinked(l, a)
    ensures LinksOk(Add(l, a)) && FreeList(Add(l, a)) == [a] + FreeList(l)
  {
    AddOk(l, a);
    ChainAfterAdd(l, a, l.head);
  }

  /** A block that led to a now leads to what followed a. */
  lemma RemoveSkips(l: Links, a: int, x: int)
    requires LinksOk(l) && a in l.next && x in l.next && x != a
    ensures x in Remove(l, a).next && Remove(l, a).next[x] == if l.next[x] == a then l.next[a] else l.next[x]
  {
    assert LinkOk(l, x) && LinkOk(l, a);
  }

  /** Taking a out shortens exactly the chains that ran through a. */
  lemma {:induction false} ChainAfterRemove(l: Links, a: int, x: int)
    requires LinksOk(l) && a in l.next && LinksOk(Remove(l, a))
    requires x != 0 ==> x in l.next && x != a
    ensures Chain(Remove(l, a), x) == Without(Chain(l, x), a)
    decreases if x != 0 then l.rank[x] + 1 else 0
  {
    if x != 0 {
      RemoveSkips(l, a, x);
      assert LinkOk(l, x) && LinkOk(l, a);
      var y := l.next[x];
      if y == a {
        ChainAfterRemove(l, a, l.next[a]);
        WithoutFirst(a, Chain(l, l.next[a]), a);
      } else {
        ChainAfterRemove(l, a, y);
      }
      WithoutFirst(x, Chain(l, y), a);
    }
  }

  /** remove_from_free_list, for a block on the list, on another chain, or on none. */
  lemma RemoveCases(l: Links, a: int)
    requires LinksOk(l) && a in l.next
    ensures LinksOk(Remove(l, a))
    ensures a in FreeList(l) ==> FreeList(Remove(l, a)) == Without(FreeList(l), a)
    ensures a !in FreeList(l) && l.prev[a] != 0 ==> FreeList(Remove(l, a)) == FreeList(l)
    ensures a !in FreeList(l) && l.prev[a] == 0 ==> FreeList(Remove(l, a)) == Chain(l, l.next[a])
  {
    RemoveOk(l, a);
    var r := Remove(l, a);
    assert LinkOk(l, a);
    if l.prev[a] == 0 {
      var n := l.next[a];
      ChainAfterRemove(l, a, n);
      ChainFalls(l, a);
      assert a !in Chain(l, n) by {
        if n != 0 { ChainFalls(l, n); }
      }
      WithoutAbsent(Chain(l, n), a);
      assert FreeList(r) == Chain(l, n);
      if a in FreeList(l) {
        if a != l.head {
          ChainEntry(l, l.head, a);
          assert false;
        }
        assert FreeList(l) == [a] + Chain(l, n);
        WithoutFirst(a, Chain(l, n), a);
      }
    } else {
      ChainAfterRemove(l, a, l.head);
      WithoutAbsent(FreeList(l), a);
    }
  }

  /** The block is on the list, or inside another chain, or nothing is listed or follows it. */
  ghost predicate Kept(l: Links, a: int)
    requires LinksOk(l) && a in l.next
  {
    a in FreeList(l) || l.prev[a] != 0 || (l.head == 0 && l.next[a] == 0)
  }

  /** The exact condition under which a removal leaves the rest of the free list in place. */
  lemma RemoveKeepsList(l: Links, a: int)
    requires LinksOk(l) && a in l.next
    ensures LinksOk(Remove(l, a))
    ensures FreeList(Remove(l, a)) == Without(FreeList(l), a) <==> Kept(l, a)
  {
    RemoveCases(l, a);
    WithoutAbsent(FreeList(l), a);
    var n := l.next[a];
    assert LinkOk(l, a);
    assert n != 0 ==> Chain(l, n)[0] == n && n != l.head;
    assert l.head != 0 ==> FreeList(l)[0] == l.head;
  }

  /** n steps along next_free. */
  ghost function Follow(l: Links, a: int, n: nat): (r: int)
    requires LinksOk(l)
    requires a != 0 ==> a in l.next
    ensures r != 0 ==> r in l.next
    ensures a != 0 && 0 < n && r != 0 ==> l.rank[r] < l.rank[a]
    decreases n
  {
    if n == 0 || a == 0 then a else assert LinkOk(l, a); Follow(l, l.next[a], n - 1)
  }

  /** The free links have no cycle: no number of steps leads back to the start. */
  lemma Acyclic(l: Links, a: int, n: nat)
    requires LinksOk(l) && a in l.next && 0 < n
    ensures Follow(l, a, n) != a
  {
    assert Follow(l, a, n) != 0 ==> l.rank[Follow(l, a, n)] < l.rank[a];
  }
}
