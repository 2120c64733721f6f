/** The physical list: splitting, merging and appending keep the blocks apart. */
module Blocks {
  import opened HeapModel

  /** In a spaced list every block ends before any later one begins. */
  lemma {:induction false} Ordered(bs: seq<Block>, i: nat, j: nat)
    requires Spaced(bs) && i < j < |bs|
    ensures bs[i].addr < End(bs[i]) <= bs[j].addr
    decreases j
  {
    assert BlockOk(bs[i]) && BlockOk(bs[j - 1]) && Follows(bs, j);
    if i + 1 < j {
      Ordered(bs, i, j - 1);
    }
  }

  lemma AllOrdered(bs: seq<Block>)
    requires Spaced(bs)
    ensures forall i :: 0 <= i < |bs| ==> 0 < bs[i].addr < End(bs[i])
    ensures forall i, j :: 0 <= i < j < |bs| ==> End(bs[i]) <= bs[j].addr
  {
    forall i | 0 <= i < |bs| ensures 0 < bs[i].addr < End(bs[i]) {
      assert BlockOk(bs[i]);
    }
    forall i, j | 0 <= i < j < |bs| ensures End(bs[i]) <= bs[j].addr {
      Ordered(bs, i, j);
    }
  }

  lemma IndexOfBlock(bs: seq<Block>, i: nat)
    requires Spaced(bs) && i < |bs|
    ensures IndexOf(bs, bs[i].addr) == i
  {
    var k := IndexOf(bs, bs[i].addr);
    if k < i { Ordered(bs, k, i); } else if i < k { Ordered(bs, i, k); }
  }

  lemma MergeSpaced(bs: seq<Block>, i: nat)
    requires Spaced(bs) && i + 1 < |bs|
    ensures Spaced(MergeAt(bs, i))
  {
    var m := MergeAt(bs, i);
    assert BlockOk(bs[i]) && BlockOk(bs[i + 1]) && Follows(bs, i + 1);
    forall k | 0 <= k < |m| ensures BlockOk(m[k]) && Follows(m, k) {
      if k <= i {
        assert BlockOk(bs[k]) && Follows(bs, k);
      } else {
        assert BlockOk(bs[k + 1]) && Follows(bs, k + 1);
      }
    }
  }

  lemma SplitSpaced(bs: seq<Block>, i: nat, n: int)
    requires Spaced(bs) && i < |bs| && 8 <= n && n % 8 == 0 && n + MIN_BLOCK_SIZE <= bs[i].size
    ensures Spaced(SplitAt(bs, i, n))
  {
    var m := SplitAt(bs, i, n);
    assert BlockOk(bs[i]);
    forall k | 0 <= k < |m| ensures BlockOk(m[k]) && Follows(m, k) {
      if k <= i {
        assert BlockOk(bs[k]) && Follows(bs, k);
      } else if i + 1 < k {
        assert BlockOk(bs[k - 1]) && Follows(bs, k - 1);
      }
    }
  }

  lemma SetFreeSpaced(bs: seq<Block>, i: nat, f: bool)
    requires Spaced(bs) && i < |bs|
    ensures Spaced(SetFree(bs, i, f))
  {
    var m := SetFree(bs, i, f);
    forall k | 0 <= k < |m| ensures BlockOk(m[k]) && Follows(m, k) {
      assert BlockOk(bs[k]) && Follows(bs, k);
    }
  }

  lemma AppendSpaced(bs: seq<Block>, f: int)
    requires Spaced(bs) && FrameOk(f) && Behind(bs, f)
    ensures Spaced(bs + [Block(f, PAGE_PAYLOAD, true)])
  {
    var m := bs + [Block(f, PAGE_PAYLOAD, true)];
    forall k | 0 <= k < |m| ensures BlockOk(m[k]) && Follows(m, k) {
      if k < |bs| {
        assert BlockOk(bs[k]) && Follows(bs, k);
      }
    }
  }
}
