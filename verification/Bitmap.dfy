/** The frame bitmap of src/memory/frame_alloc.c as a set of frame numbers. */
module Bitmap {
  const TOTAL_FRAMES := 262144
  const BITMAP_BYTES := 0x2_0000

  function Mask(k: nat): bv8
    requires k < 8
  {
    (1 as bv8) << k
  }

  /** Whether bit k of byte b is set. */
  predicate On(b: bv8, k: nat)
    requires k < 8
  {
    b & Mask(k) != 0
  }

  predicate Bit(bytes: seq<bv8>, i: nat)
    requires i / 8 < |bytes|
  {
    On(bytes[i / 8], i % 8)
  }

  predicate IsFrame(i: int) {
    0 <= i < TOTAL_FRAMES
  }

  function AllFrames(): set<int> {
    set i | 0 <= i < TOTAL_FRAMES && IsFrame(i)
  }

  /** The bitmap stands for this set of free frames: their bits are clear, the others set. */
  ghost predicate Shows(bytes: seq<bv8>, free: set<int>) {
    && |bytes| == BITMAP_BYTES && free <= AllFrames()
    && forall i {:trigger Bit(bytes, i)} :: 0 <= i < TOTAL_FRAMES ==> (Bit(bytes, i) <==> i !in free)
  }

  /** Bit i % 8 of byte i / 8, counted from the least significant, is clear for a free frame. */
  lemma FreeBits(bytes: seq<bv8>, free: set<int>, i: nat)
    requires Shows(bytes, free) && i < 262144
    ensures |bytes| == 131072 && (i in free <==> (bytes[i / 8] >> (i % 8)) & 1 == 0)
  {
    assert Bit(bytes, i) <==> i !in free;
    MaskIsShift(bytes[i / 8], i % 8);
  }

  lemma MaskIsShift(b: bv8, k: nat)
    requires k < 8
    ensures On(b, k) <==> (b >> k) & 1 == 1
  {
    assert forall x: nat :: x < 8 ==> Mask(x) == [1, 2, 4, 8, 16, 32, 64, 128][x];
  }

  /** b' is b with bit k set to the value, and no other bit changed. */
  predicate Changed(b: bv8, b': bv8, k: nat, value: bool) {
    forall l :: 0 <= l < 8 ==> (On(b', l) <==> if l == k then value else On(b, l))
  }

  lemma MaskOthers(b: bv8, j: nat, k: nat)
    requires j < 8 && k < 8
    ensures (b | Mask(j)) & Mask(k) != 0 <==> j == k || b & Mask(k) != 0
    ensures (b & !Mask(j)) & Mask(k) != 0 <==> j != k && b & Mask(k) != 0
  {
    assert forall x: nat :: x < 8 ==> Mask(x) == [1, 2, 4, 8, 16, 32, 64, 128][x];
  }

  /** Or with a mask sets one bit, and with its complement clears it. */
  lemma MasksChange(b: bv8, k: nat)
    requires k < 8
    ensures Changed(b, b | Mask(k), k, true) && Changed(b, b & !Mask(k), k, false)
  {
    forall l | 0 <= l < 8
      ensures On(b | Mask(k), l) <==> l == k || On(b, l)
      ensures On(b & !Mask(k), l) <==> l != k && On(b, l)
    {
      MaskOthers(b, k, l);
    }
  }

  lemma SamePlace(i: nat, j: nat)
    ensures i == j <==> i / 8 == j / 8 && i % 8 == j % 8
  {
    assert i == i / 8 * 8 + i % 8 && j == j / 8 * 8 + j % 8;
  }

  /** Setting a bit takes its frame out of the free set, clearing it puts the frame back,
      and no other frame moves. */
  lemma ByteUpdate(bytes: seq<bv8>, free: set<int>, i: nat, b: bv8, used: bool)
    requires Shows(bytes, free) && i < TOTAL_FRAMES && Changed(bytes[i / 8], b, i % 8, used)
    ensures Shows(bytes[i / 8 := b], if used then free - {i} else free + {i})
  {
    assert IsFrame(i);
    forall j | 0 <= j < TOTAL_FRAMES
      ensures Bit(bytes[i / 8 := b], j) <==> if j == i then used else j !in free
    {
      SamePlace(i, j);
      assert Bit(bytes, j) <==> j !in free;
    }
  }

  /** A bitmap stands for one set only. */
  lemma ShowsOne(bytes: seq<bv8>, f: set<int>, g: set<int>)
    requires Shows(bytes, f) && Shows(bytes, g)
    ensures f == g
  {
    forall i | i in AllFrames() ensures i in f <==> i in g {
      assert Bit(bytes, i) <==> i !in f;
    }
  }

  lemma AllUsed(bytes: seq<bv8>)
    requires |bytes| == BITMAP_BYTES && forall k :: 0 <= k < |bytes| ==> bytes[k] == 0xFF
    ensures Shows(bytes, {})
  {
    forall i | 0 <= i < TOTAL_FRAMES ensures Bit(bytes, i) {
      MaskOthers(0xFF, i % 8, i % 8);
      assert 0xFF | Mask(i % 8) == 0xFF;
    }
  }
}
