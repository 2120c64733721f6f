/** The kernel heap of src/memory/kheap.c, on memory. */
module KHeap {
  import opened Machine
  import opened HeapModel
  import opened FreeLinks
  import opened Blocks
  import opened HeapOps
  import opened HeapGrowth
  import opened LiveBlocks
  import opened Headers
  import opened Bitmap
  import opened FrameBits
  import opened FrameAlloc

  class KernelHeap {
    const ram: Ram
    const pmm: FrameAllocator
    var freeListHead: int
    var heapStart: int
    var heapEnd: int

    /** The headers in memory, and the heap value they stand for. */
    ghost var hdrs: map<int, Header>
    ghost var heap: Heap

    constructor (ram: Ram, pmm: FrameAllocator)
      ensures this.ram == ram && this.pmm == pmm
    {
      this.ram, this.pmm := ram, pmm;
      freeListHead, heapStart, heapEnd := 0, 0, 0;
      hdrs, heap := map[], EMPTY_HEAP;
    }

    ghost predicate Ready()
      reads this, ram
    {
      Shown(ram.mem, hdrs)
    }

    method Load(a: int, f: Field) returns (v: int)
      requires Ready() && a in hdrs
      ensures f != IsFree ==> v == Get(hdrs[a], f)
      ensures f == IsFree ==> (v != 0 <==> hdrs[a].free)
    {
      assert InRam(a) && HeaderAt(ram.mem, a) == hdrs[a];
      v := ram.mem[a + Offset(f)];
    }

    method Store(a: int, f: Field, v: int)
      requires Ready() && a in hdrs
      modifies ram, this`hdrs
      ensures Ready() && hdrs == old(hdrs)[a := Put(old(hdrs)[a], f, v)]
      ensures hdrs.Keys == old(hdrs).Keys && HeadersOnly(old(ram.mem), ram.mem, hdrs.Keys)
    {
      StoreShown(ram.mem, hdrs, a, f, v);
      assert InRam(a);
      ram.mem := ram.mem[a + Offset(f) := v];
      hdrs := hdrs[a := Put(hdrs[a], f, v)];
      assert hdrs.Keys == old(hdrs).Keys;
    }

    /** The flag and the two free links of one header. */
    method StoreLinks(block: int, free: int, next: int, prev: int)
      requires Ready() && block in hdrs
      modifies ram, this`hdrs
      ensures Ready()
              && hdrs == old(hdrs)[block := old(hdrs)[block].(free := free != 0, nextFree := next, prevFree := prev)]
      ensures hdrs.Keys == old(hdrs).Keys && HeadersOnly(old(ram.mem), ram.mem, hdrs.Keys)
    {
      Store(block, IsFree, free);
      Store(block, NextFree, next);
      Store(block, PrevFree, prev);
    }

    method AddToFreeList(block: int, ghost l: Links)
      requires Ready() && block in hdrs
      requires LinksOk(l) && LinkRepBut(hdrs, l, block) && freeListHead == l.head && Unlinked(l, block)
      modifies ram, this`hdrs, this`freeListHead
      ensures Ready() && LinkRep(hdrs, Add(l, block)) && freeListHead == block
      ensures SamePhys(old(hdrs), hdrs, block) && hdrs[block].free
      ensures hdrs.Keys == old(hdrs).Keys && HeadersOnly(old(ram.mem), ram.mem, hdrs.Keys)
    {
      HookedRep(hdrs, l, block);
      StoreLinks(block, 1, freeListHead, 0);
      if freeListHead != 0 {
        Store(freeListHead, PrevFree, block);
      }
      assert hdrs == Hooked(old(hdrs), l.head, block);
      freeListHead := block;
    }

    method RemoveFromFreeList(block: int, ghost l: Links)
      requires Ready() && block in hdrs
      requires LinksOk(l) && LinkRep(hdrs, l) && freeListHead == l.head && block in l.next
      modifies ram, this`hdrs, this`freeListHead
      ensures Ready() && LinkRep(hdrs, Remove(l, block)) && freeListHead == Remove(l, block).head
      ensures SamePhys(old(hdrs), hdrs, block) && !hdrs[block].free
      ensures hdrs.Keys == old(hdrs).Keys && HeadersOnly(old(ram.mem), ram.mem, hdrs.Keys)
    {
      UnhookedLinks(hdrs, l, block);
      UnhookedPhys(hdrs, block);
      var prevFree := Load(block, PrevFree);
      var nextFree := Load(block, NextFree);
      if prevFree != 0 {
        Store(prevFree, NextFree, nextFree);
      } else {
        freeListHead := nextFree;
      }
      if nextFree != 0 {
        Store(nextFree, PrevFree, prevFree);
      }
      StoreLinks(block, 0, 0, 0);
      assert hdrs == Unhooked(old(hdrs), block);
    }

    // -------------------------------------------------------------- coalescing

    /** The size and the successor of one header. */
    method StoreExtent(block: int, size: int, next: int)
      requires Ready() && block in hdrs
      modifies ram, this`hdrs
      ensures Ready() && hdrs == old(hdrs)[block := old(hdrs)[block].(size := size, next := next)]
      ensures hdrs.Keys == old(hdrs).Keys && HeadersOnly(old(ram.mem), ram.mem, hdrs.Keys)
    {
      Store(block, Size, size);
      Store(block, Next, next);
    }

    /** Merges block i+1 into block i: the statements that coalesce (twice) and expand_heap
        share. coalesce also clears the header that disappears. */
    method Absorb(into: int, gone: int, wipe: bool, ghost bs: seq<Block>, ghost i: nat)
      requires Ready() && Spaced(bs) && PhysRep(hdrs, bs) && heapEnd == LastAddr(bs)
      requires i + 1 < |bs| && into == bs[i].addr && gone == bs[i + 1].addr
      modifies ram, this`hdrs, this`heapEnd
      ensures Ready() && PhysRep(hdrs, MergeAt(bs, i)) && heapEnd == LastAddr(MergeAt(bs, i))
      ensures SameLinks(old(hdrs), hdrs) && hdrs.Keys == old(hdrs).Keys - {gone}
      ensures HeadersOnly(old(ram.mem), ram.mem, old(hdrs).Keys)
    {
      ghost var w := hdrs;
      AbsorbedRep(hdrs, bs, i);
      AbsorbedLinks(hdrs, into, gone);
      MergedLast(bs, i);
      var size := Load(into, Size);
      var goneSize := Load(gone, Size);
      var next := Load(gone, Next);
      StoreExtent(into, size + (goneSize + HEADER_SIZE), next);
      if next != 0 {
        Store(next, Prev, into);
      }
      if heapEnd == gone {
        heapEnd := into;
      }
      DropHeader(gone, wipe);
      assert hdrs == Absorbed(w, into, gone);
    }

    /** A header that no longer is one; its words may be cleared. */
    method DropHeader(gone: int, wipe: bool)
      requires Ready() && gone in hdrs
      modifies ram, this`hdrs
      ensures Ready() && hdrs == old(hdrs) - {gone}
      ensures HeadersOnly(old(ram.mem), ram.mem, old(hdrs).Keys)
    {
      assert InRam(gone);
      ghost var m := ram.mem;
      if wipe {
        ram.Zero(gone, HEADER_SIZE);
      }
      hdrs := hdrs - {gone};
      forall a | a in hdrs ensures InRam(a) && HeaderAt(ram.mem, a) == hdrs[a] {
        assert InRam(a) && HeaderAt(m, a) == hdrs[a];
        assert a + HEADER_SIZE <= gone || gone + HEADER_SIZE <= a;
      }
    }

    /** The headers, free_list_head and heap_end of a heap with a block waiting to be listed. */
    ghost predicate Holds(p: Pending)
      reads this
    {
      && PhysRep(hdrs, p.heap.blocks) && FlagRepBut(hdrs, p.heap.blocks, p.at) && LinkRep(hdrs, p.heap.links)
      && freeListHead == p.heap.links.head && heapEnd == LastAddr(p.heap.blocks)
    }

    /** Takes one of the two blocks at i off the free list and merges them. */
    method Join(into: int, gone: int, listed: int, wipe: bool,
                ghost bs: seq<Block>, ghost i: nat, ghost at: nat, ghost l: Links)
      requires Ready() && Spaced(bs) && LinksOk(l) && i + 1 < |bs| && i <= at <= i + 1
      requires PhysRep(hdrs, bs) && FlagRepBut(hdrs, bs, at) && LinkRep(hdrs, l)
      requires freeListHead == l.head && heapEnd == LastAddr(bs)
      requires into == bs[i].addr && gone == bs[i + 1].addr && listed in l.next
      requires listed == gone || (listed == into && gone !in l.next)
      modifies ram, this`hdrs, this`freeListHead, this`heapEnd
      ensures Ready() && PhysRep(hdrs, MergeAt(bs, i)) && FlagRepBut(hdrs, MergeAt(bs, i), i)
              && LinkRep(hdrs, Remove(l, listed))
      ensures freeListHead == Remove(l, listed).head && heapEnd == LastAddr(MergeAt(bs, i))
      ensures HeadersOnly(old(ram.mem), ram.mem, old(hdrs).Keys) && hdrs.Keys == old(hdrs).Keys - {gone}
    {
      ghost var w := hdrs;
      RemoveFromFreeList(listed, l);
      ghost var w1 := hdrs;
      SamePhysRep(w, w1, listed, bs);
      Absorb(into, gone, wipe, bs, i);
      MergedFlags(w, w1, hdrs, bs, i, at, listed);
      RemoveOk(l, listed);
      DroppedLinks(w1, hdrs, Remove(l, listed), gone);
    }

    /** coalesce, lines 124-139. */
    method CoalesceForward(current: int, ghost p: Pending)
      requires Ready() && PendingOk(p) && Holds(p) && current == p.heap.blocks[p.at].addr
      modifies ram, this`hdrs, this`freeListHead, this`heapEnd
      ensures Ready() && Holds(CoalesceNext(p))
      ensures HeadersOnly(old(ram.mem), ram.mem, old(hdrs).Keys) && hdrs.Keys <= old(hdrs).Keys
    {
      ghost var bs, l, i := p.heap.blocks, p.heap.links, p.at;
      assert PhysAt(hdrs, bs, i);
      NextIsHeader(hdrs, bs, i);
      LastHasNoNext(bs, i);
      assert i + 1 < |bs| ==> bs[i + 1].addr in hdrs && hdrs[bs[i + 1].addr].free == bs[i + 1].free;
      var next := Load(current, Next);
      if next != 0 {
        var nextFree := Load(next, IsFree);
        if nextFree != 0 {
          Join(current, next, next, true, bs, i, i, l);
        }
      }
    }

    /** coalesce, lines 142-158; without the wiping, expand_heap, lines 96-108. */
    method CoalesceBackward(current: int, wipe: bool, ghost p: Pending) returns (merged: int)
      requires Ready() && PendingOk(p) && Holds(p) && current == p.heap.blocks[p.at].addr
      modifies ram, this`hdrs, this`freeListHead, this`heapEnd
      ensures Ready() && Holds(CoalescePrev(p))
      ensures merged == CoalescePrev(p).heap.blocks[CoalescePrev(p).at].addr
      ensures HeadersOnly(old(ram.mem), ram.mem, old(hdrs).Keys) && hdrs.Keys <= old(hdrs).Keys
    {
      ghost var bs, l, i := p.heap.blocks, p.heap.links, p.at;
      assert PhysAt(hdrs, bs, i);
      assert 0 < i ==> PhysAt(hdrs, bs, i - 1) && BlockOk(bs[i - 1]);
      merged := current;
      var prev := Load(current, Prev);
      if prev != 0 {
        var prevFree := Load(prev, IsFree);
        if prevFree != 0 {
          Join(prev, current, prev, wipe, bs, i - 1, i, l);
          merged := prev;
        }
      }
    }

    /** coalesce: forward, then backward; the answer is the block that remains. */
    method Coalesce(block: int, ghost p: Pending) returns (current: int)
      requires Ready() && PendingOk(p) && Holds(p) && block == p.heap.blocks[p.at].addr
      modifies ram, this`hdrs, this`freeListHead, this`heapEnd
      ensures Ready() && Holds(CoalescePrev(CoalesceNext(p)))
      ensures var q := CoalescePrev(CoalesceNext(p)); current == q.heap.blocks[q.at].addr
      ensures HeadersOnly(old(ram.mem), ram.mem, old(hdrs).Keys) && hdrs.Keys <= old(hdrs).Keys
    {
      CoalesceForward(block, p);
      ghost var m, s := ram.mem, hdrs.Keys;
      current := CoalesceBackward(block, true, CoalesceNext(p));
      HeadersOnlyTrans(old(ram.mem), m, ram.mem, old(hdrs).Keys, s);
    }

    /** Lists the block that was waiting, which completes the heap again. */
    method ListPending(block: int, ghost p: Pending)
      requires Ready() && PendingOk(p) && Holds(p) && block == p.heap.blocks[p.at].addr
      modifies ram, this`hdrs, this`freeListHead
      ensures Ready() && Rep(hdrs, Finish(p)) && freeListHead == Finish(p).links.head
      ensures HeadersOnly(old(ram.mem), ram.mem, old(hdrs).Keys) && hdrs.Keys == old(hdrs).Keys
    {
      PendingIsUnlinked(hdrs, p);
      AddToFreeList(block, p.heap.links);
      FinishedRep(old(hdrs), hdrs, p);
    }

    /** kfree, lines 287-301. */
    method Settle(block: int, ghost p: Pending)
      requires Ready() && PendingOk(p) && Holds(p) && block == p.heap.blocks[p.at].addr
      modifies ram, this`hdrs, this`freeListHead, this`heapEnd
      ensures Ready()
      ensures var h := Finish(CoalescePrev(CoalesceNext(p)));
              Rep(hdrs, h) && freeListHead == h.links.head && heapEnd == LastAddr(h.blocks)
      ensures HeadersOnly(old(ram.mem), ram.mem, old(hdrs).Keys)
    {
      ghost var q := CoalescePrev(CoalesceNext(p));
      var current := Coalesce(block, p);
      ghost var m, s := ram.mem, hdrs.Keys;
      ListPending(current, q);
      HeadersOnlyTrans(old(ram.mem), m, ram.mem, old(hdrs).Keys, s);
    }

    // -------------------------------------------------------------- the public interface

    /** Memory and statics agree with the heap value, which satisfies its invariant. */
    ghost predicate Sound()
      reads this, ram
    {
      && Ready() && HeapOk(heap) && Rep(hdrs, heap)
      && freeListHead == heap.links.head && heapEnd == LastAddr(heap.blocks)
    }

    ghost predicate Valid()
      reads this, ram, pmm, pmm.bitmap
    {
      ram == pmm.ram && pmm.Valid() && Sound() && heapStart == FirstAddr(heap.blocks)
    }

    /** kfree of a live block, from the flag on. Only headers are written. */
    method ReleaseBlock(block: int, ghost i: nat)
      requires Sound() && i < |heap.blocks| && block == heap.blocks[i].addr && !heap.blocks[i].free
      modifies ram, this`hdrs, this`freeListHead, this`heapEnd, this`heap
      ensures Sound() && heap == Release(old(heap), i)
      ensures HeadersOnly(old(ram.mem), ram.mem, old(hdrs).Keys)
    {
      ghost var h' := Release(heap, i);
      ghost var p := Pending(Heap(SetFree(heap.blocks, i, true), heap.links), i);
      MarkOk(heap, i);
      assert PhysAt(hdrs, heap.blocks, i);
      MarkedRep(hdrs, heap, i);
      Store(block, IsFree, 1);
      ghost var m := ram.mem;
      Settle(block, p);
      HeadersOnlyTrans(old(ram.mem), m, ram.mem, old(hdrs).Keys, old(hdrs).Keys);
      heap := h';
    }

    /** kfree of a live block. Every payload keeps its contents. */
    method ReleaseKeeping(block: int, ghost h: Heap, ghost i: nat)
      requires Valid() && heap == h && i < |h.blocks| && block == h.blocks[i].addr && !h.blocks[i].free
      modifies ram, this`hdrs, this`freeListHead, this`heapEnd, this`heap
      ensures Valid() && heap == Release(h, i)
      ensures forall b :: b in h.blocks ==> PayloadKept(old(ram.mem), ram.mem, b)
    {
      FreedFirst(h.blocks, i);
      ReleaseBlock(block, i);
      HeadersKeepPayloads(old(ram.mem), ram.mem, old(hdrs), h.blocks);
    }

    /** kfree. Every payload keeps its contents, that of the freed block included. */
    method Kfree(ptr: int)
      requires Valid() && (ptr != 0 ==> IsBlock(heap.blocks, ptr - HEADER_SIZE))
      modifies ram, this`hdrs, this`freeListHead, this`heapEnd, this`heap
      ensures Valid() && heap == HeapOps.Kfree(old(heap), ptr)
      ensures forall b :: b in old(heap.blocks) ==> PayloadKept(old(ram.mem), ram.mem, b)
    {
      if ptr != 0 {
        var block := ptr - HEADER_SIZE;
        ghost var i := IndexOf(heap.blocks, block);
        assert PhysAt(hdrs, heap.blocks, i);
        var isFree := Load(block, IsFree);
        if isFree == 0 {
          ReleaseKeeping(block, heap, i);
        }
      }
    }

    // -------------------------------------------------------------- expansion

    /** The fields every new page gets, lines 73-75. */
    method StorePage(frame: int)
      requires Ready() && frame in hdrs
      modifies ram, this`hdrs
      ensures Ready()
      ensures hdrs == old(hdrs)[frame := old(hdrs)[frame].(size := PAGE_PAYLOAD, free := true, next := 0)]
      ensures hdrs.Keys == old(hdrs).Keys && HeadersOnly(old(ram.mem), ram.mem, hdrs.Keys)
    {
      Store(frame, Size, PAGE_SIZE - HEADER_SIZE);
      Store(frame, IsFree, 1);
      Store(frame, Next, 0);
    }

    /** Lines 73-90 on the headers: a zeroed frame becomes the last block. */
    method LinkPage(frame: int)
      requires Ready() && frame in hdrs && hdrs[frame] == Header(0, false, 0, 0, 0, 0)
      requires heapEnd != 0 ==> heapEnd in hdrs && heapEnd != frame
      modifies ram, this`hdrs, this`heapStart, this`heapEnd
      ensures Ready() && hdrs == AppendedHeaders(old(hdrs), old(heapEnd), frame)
      ensures heapEnd == frame && heapStart == if old(heapEnd) != 0 then old(heapStart) else frame
      ensures hdrs.Keys == old(hdrs).Keys && HeadersOnly(old(ram.mem), ram.mem, hdrs.Keys)
    {
      StorePage(frame);
      if heapEnd != 0 {
        Store(frame, Prev, heapEnd);
        Store(heapEnd, Next, frame);
      } else {
        heapStart := frame;
        Store(frame, Prev, 0);
      }
      heapEnd := frame;
    }

    /** One round of the frame loop on the heap value. */
    method AppendFrame(frame: int)
      requires Ready() && HeapOk(heap) && Rep(hdrs, heap)
      requires heapStart == FirstAddr(heap.blocks) && heapEnd == LastAddr(heap.blocks)
      requires FrameOk(frame) && Behind(heap.blocks, frame)
      requires forall x :: frame <= x < frame + PAGE_SIZE ==> x in ram.mem && ram.mem[x] == 0
      modifies ram, this`hdrs, this`heapStart, this`heapEnd, this`heap
      ensures Ready() && heap == AppendPage(old(heap), frame) && Rep(hdrs, heap)
      ensures heapStart == FirstAddr(heap.blocks) && heapEnd == LastAddr(heap.blocks)
      ensures HeadersOnly(old(ram.mem), ram.mem, hdrs.Keys)
    {
      ghost var w, h, h' := hdrs, heap, AppendPage(heap, frame);
      NewSlot(ram.mem, w, h.blocks, frame);
      AppendedRep(w, h, frame);
      LastIsHeader(w, h);
      hdrs := w[frame := Header(0, false, 0, 0, 0, 0)];
      LinkPage(frame);
      assert hdrs == AppendedHeaders(w, LastAddr(h.blocks), frame);
      heap := h';
    }

    /** alloc_frame and the linking of the new page; a frame that comes must lie behind the heap. */
    method DrawFrame(ghost h': Heap) returns (frame: int)
      requires Valid()
      requires Supply(pmm.free) != [] ==>
                 Continues(heap.blocks, Supply(pmm.free)[0]) && h' == AppendPage(heap, Supply(pmm.free)[0])
      modifies ram, this`hdrs, this`heapStart, this`heapEnd, this`heap, pmm`free, pmm`freeMemory, pmm.bitmap
      ensures Valid()
      ensures frame == 0 ==> old(Supply(pmm.free)) == Supply(pmm.free) == [] && heap == old(heap)
      ensures frame != 0 ==> old(Supply(pmm.free)) == [frame] + Supply(pmm.free) && heap == h'
      ensures forall b :: b in old(heap.blocks) ==> PayloadKept(old(ram.mem), ram.mem, b)
    {
      ghost var m := ram.mem;
      frame := pmm.AllocFrame();
      if frame != 0 {
        ghost var m1 := ram.mem;
        FrameBeyond(m, m1, hdrs, heap.blocks, frame);
        AppendPageOk(heap, frame);
        AppendFrame(frame);
        HeadersKeepPayloads(m1, ram.mem, hdrs, heap.blocks);
        PayloadsTrans(m, m1, ram.mem, old(heap.blocks), heap.blocks);
      }
    }

    /** The heap and the supply are those of s. */
    ghost predicate IsAt(s: System)
      reads this, pmm
    {
      heap == s.heap && Supply(pmm.free) == s.supply
    }

    /** i frames further than the system s, whose memory was m; no payload of s has changed. */
    ghost predicate GrownBy(s: System, m: Memory, i: nat)
      reads this, ram, pmm, pmm.bitmap
    {
      && Valid() && i <= |s.supply|
      && heap == AppendPages(s.heap, s.supply, i) && Supply(pmm.free) == s.supply[i..]
      && forall b :: b in s.heap.blocks ==> PayloadKept(m, ram.mem, b)
    }

    method DrawNext(ghost s: System, ghost m: Memory, ghost i: nat, ghost first: int) returns (frame: int)
      requires SystemOk(s) && GrownBy(s, m, i)
      requires s.supply != [] ==> first == s.supply[0]
      modifies ram, this`hdrs, this`heapStart, this`heapEnd, this`heap, pmm`free, pmm`freeMemory, pmm.bitmap
      ensures frame == 0 ==> i == |s.supply| && GrownBy(s, m, i)
      ensures frame != 0 ==> i < |s.supply| && (i == 0 ==> frame == first) && GrownBy(s, m, i + 1)
    {
      ghost var m1, bs := ram.mem, heap.blocks;
      NextContinues(s, i, heap);
      frame := DrawFrame(if i < |s.supply| then AppendPages(s.heap, s.supply, i + 1) else heap);
      PayloadsTrans(m, m1, ram.mem, s.heap.blocks, bs);
    }

    /** The frame loop of expand_heap, lines 63-91. */
    method DrawFrames(pages: nat, ghost s: System, ghost first: int) returns (newBlock: int, ok: bool)
      requires Valid() && IsAt(s) && SystemOk(s)
      requires s.supply != [] ==> first == s.supply[0]
      modifies ram, this`hdrs, this`heapStart, this`heapEnd, this`heap, pmm`free, pmm`freeMemory, pmm.bitmap
      ensures GrownBy(s, old(ram.mem), Drawn(s, pages))
      ensures ok <==> pages <= |s.supply|
      ensures ok && 0 < pages ==> newBlock == first
    {
      newBlock := 0;
      var i := 0;
      while i < pages
        invariant 0 <= i <= pages && GrownBy(s, old(ram.mem), i)
        invariant i == 0 ==> newBlock == 0
        invariant i != 0 ==> newBlock == first && newBlock != 0
      {
        var frame := DrawNext(s, old(ram.mem), i, first);
        if frame == 0 {
          return newBlock, false;
        }
        if newBlock == 0 {
          newBlock := frame;
        }
        i := i + 1;
      }
      ok := true;
    }

    /** expand_heap, lines 95-111. Only headers are written. */
    method AdoptPage(newBlock: int, ghost i: nat)
      requires Sound() && i < |heap.blocks| && newBlock == heap.blocks[i].addr
      requires heap.blocks[i].free && Unlinked(heap.links, newBlock)
      modifies ram, this`hdrs, this`freeListHead, this`heapEnd, this`heap
      ensures Sound() && heap == Adopt(old(heap), i)
      ensures HeadersOnly(old(ram.mem), ram.mem, old(hdrs).Keys)
    {
      ghost var h' := Adopt(heap, i);
      ghost var p := Pending(Heap(heap.blocks, Drop(heap.links, newBlock)), i);
      AdoptOk(heap, i);
      DroppedPage(hdrs, heap.links, newBlock);
      var current := CoalesceBackward(newBlock, false, p);
      ghost var m, s := ram.mem, hdrs.Keys;
      ListPending(current, CoalescePrev(p));
      HeadersOnlyTrans(old(ram.mem), m, ram.mem, old(hdrs).Keys, s);
      heap := h';
    }

    /** The end of a successful expansion. Only headers are written. */
    method AdoptGrown(newBlock: int, ghost s: System, ghost h: Heap, ghost pages: nat, ghost e: Expansion)
      requires SystemOk(s) && 0 < pages <= |s.supply| && e == Expand(s, pages)
      requires Valid() && heap == h == AppendPages(s.heap, s.supply, pages) && Supply(pmm.free) == s.supply[pages..]
      requires newBlock == s.supply[0]
      modifies ram, this`hdrs, this`freeListHead, this`heapEnd, this`heap
      ensures Valid() && IsAt(e.sys)
      ensures HeadersOnly(old(ram.mem), ram.mem, old(hdrs).Keys)
    {
      GrownForAdopt(s, pages, h, e);
      AdoptPage(newBlock, |s.heap.blocks|);
    }

    /** The same, for a heap that has just grown: no payload has changed since s. */
    method AdoptKeeping(newBlock: int, ghost s: System, ghost m: Memory, ghost pages: nat, ghost e: Expansion)
      requires SystemOk(s) && 0 < pages <= |s.supply| && e == Expand(s, pages)
      requires GrownBy(s, m, pages) && newBlock == s.supply[0]
      modifies ram, this`hdrs, this`freeListHead, this`heapEnd, this`heap
      ensures Valid() && IsAt(e.sys)
      ensures forall b :: b in s.heap.blocks ==> PayloadKept(m, ram.mem, b)
    {
      ghost var m1, w, h := ram.mem, hdrs, heap;
      AdoptGrown(newBlock, s, h, pages, e);
      GrownForAdopt(s, pages, h, e);
      HeadersKeepPayloads(m1, ram.mem, w, h.blocks);
      PayloadsTrans(m, m1, ram.mem, s.heap.blocks, h.blocks);
    }

    /** expand_heap. Every payload keeps its contents. Without wrap-around the page count is
        never 0, so line 58 has nothing to do. */
    method ExpandHeap(minExpandSize: nat, ghost s: System, ghost pages: nat, ghost e: Expansion) returns (ok: bool)
      requires Valid() && IsAt(s) && SystemOk(s) && pages == PagesNeeded(minExpandSize)
      requires e == Expand(s, pages)
      modifies ram, this`hdrs, this`freeListHead, this`heapStart, this`heapEnd, this`heap,
               pmm`free, pmm`freeMemory, pmm.bitmap
      ensures Valid() && IsAt(e.sys) && ok == e.ok
      ensures forall b :: b in s.heap.blocks ==> PayloadKept(old(ram.mem), ram.mem, b)
    {
      var pagesNeeded := (minExpandSize + HEADER_SIZE + PAGE_SIZE - 1) / PAGE_SIZE;
      assert pagesNeeded == pages;
      var newBlock;
      newBlock, ok := DrawFrames(pagesNeeded, s, if s.supply != [] then s.supply[0] else 0);
      if ok {
        AdoptKeeping(newBlock, s, old(ram.mem), pages, e);
      }
    }

    // -------------------------------------------------------------- kmalloc

    /** The search of kmalloc; ranks fall along the list, so it ends. */
    method FindFit(size: int) returns (fit: int)
      requires Sound()
      ensures fit == FirstFit(heap, heap.links.head, size)
    {
      var currentFree := freeListHead;
      while currentFree != 0
        invariant currentFree != 0 ==> currentFree in heap.links.next
        invariant FirstFit(heap, currentFree, size) == FirstFit(heap, heap.links.head, size)
        decreases if currentFree != 0 then heap.links.rank[currentFree] + 1 else 0
      {
        ghost var i := IndexOf(heap.blocks, currentFree);
        assert IsBlock(heap.blocks, currentFree) && PhysAt(hdrs, heap.blocks, i);
        assert LinkOk(heap.links, currentFree);
        var have := Load(currentFree, Size);
        if have >= size {
          return currentFree;
        }
        currentFree := Load(currentFree, NextFree);
      }
      fit := 0;
    }

    /** The fields of the header that a split creates, lines 232-235. */
    method StoreRest(block: int, size: int, next: int, prev: int)
      requires Ready() && block in hdrs
      modifies ram, this`hdrs
      ensures Ready()
      ensures hdrs == old(hdrs)[block := old(hdrs)[block].(size := size, free := true, next := next, prev := prev)]
      ensures hdrs.Keys == old(hdrs).Keys && HeadersOnly(old(ram.mem), ram.mem, hdrs.Keys)
    {
      Store(block, Size, size);
      Store(block, IsFree, 1);
      Store(block, Next, next);
      Store(block, Prev, prev);
    }

    /** Lines 229-244 on the headers. */
    method CutBlock(best: int, size: int, newBlock: int)
      requires Ready() && best in hdrs && newBlock in hdrs && newBlock != best
      requires hdrs[best].next != newBlock && (hdrs[best].next != 0 ==> hdrs[best].next in hdrs)
      modifies ram, this`hdrs, this`heapEnd
      ensures Ready() && hdrs == SplitHeaders(old(hdrs), best, size, newBlock, old(hdrs)[newBlock])
      ensures heapEnd == if old(hdrs)[best].next != 0 then old(heapEnd) else newBlock
      ensures hdrs.Keys == old(hdrs).Keys && HeadersOnly(old(ram.mem), ram.mem, hdrs.Keys)
    {
      var have := Load(best, Size);
      var next := Load(best, Next);
      StoreRest(newBlock, have - size - HEADER_SIZE, next, best);
      if next != 0 {
        Store(next, Prev, newBlock);
      } else {
        heapEnd := newBlock;
      }
      StoreExtent(best, size, newBlock);
    }

    /** Lines 229-244: cut block i to the wanted size. */
    method CutAt(best: int, size: int, newBlock: int, ghost bs: seq<Block>, ghost i: nat, ghost l: Links)
      requires Ready() && Spaced(bs) && PhysRep(hdrs, bs) && FlagRepBut(hdrs, bs, i) && LinkRep(hdrs, l)
      requires i < |bs| && best == bs[i].addr && best in hdrs && !hdrs[best].free && heapEnd == LastAddr(bs)
      requires 0 <= size && size + MIN_BLOCK_SIZE <= bs[i].size && newBlock == best + HEADER_SIZE + size
      modifies ram, this`hdrs, this`heapEnd
      ensures Ready() && PhysRep(hdrs, SplitAt(bs, i, size)) && FlagRep(hdrs, SplitAt(bs, i, size))
      ensures LinkRepBut(hdrs, l, newBlock) && heapEnd == LastAddr(SplitAt(bs, i, size))
      ensures hdrs.Keys == old(hdrs).Keys + {newBlock} && HeadersOnly(old(ram.mem), ram.mem, hdrs.Keys)
    {
      InnerSlot(ram.mem, hdrs, bs, i, newBlock);
      ghost var w, g := hdrs, HeaderAt(ram.mem, newBlock);
      SplitRep(w, bs, i, size, g);
      SplitFlagsAndLinks(w, bs, i, size, g, l);
      LastHasNoNext(bs, i);
      assert PhysAt(w, bs, i);
      SplitFromSlot(w, best, size, newBlock, g);
      hdrs := w[newBlock := g];
      CutBlock(best, size, newBlock);
    }

    /** Lines 229-247: cut block i to the wanted size and list the rest. */
    method SplitBlock(best: int, size: int, ghost bs: seq<Block>, ghost i: nat, ghost l: Links)
      requires Ready() && Spaced(bs) && LinksOk(l) && PhysRep(hdrs, bs) && FlagRepBut(hdrs, bs, i) && LinkRep(hdrs, l)
      requires freeListHead == l.head && heapEnd == LastAddr(bs)
      requires i < |bs| && best == bs[i].addr && best in hdrs && !hdrs[best].free
      requires 0 <= size && size + MIN_BLOCK_SIZE <= bs[i].size && Unlinked(l, best + HEADER_SIZE + size)
      modifies ram, this`hdrs, this`freeListHead, this`heapEnd
      ensures Ready() && PhysRep(hdrs, SplitAt(bs, i, size)) && FlagRep(hdrs, SplitAt(bs, i, size))
      ensures LinkRep(hdrs, Add(l, best + HEADER_SIZE + size)) && freeListHead == best + HEADER_SIZE + size
      ensures heapEnd == LastAddr(SplitAt(bs, i, size))
      ensures hdrs.Keys == old(hdrs).Keys + {best + HEADER_SIZE + size} && HeadersOnly(old(ram.mem), ram.mem, hdrs.Keys)
    {
      var newBlock := best + HEADER_SIZE + size;
      CutAt(best, size, newBlock, bs, i, l);
      ghost var w, m := hdrs, ram.mem;
      AddToFreeList(newBlock, l);
      HeadersOnlyTrans(old(ram.mem), m, ram.mem, hdrs.Keys, hdrs.Keys);
      SamePhysRep(w, hdrs, newBlock, SplitAt(bs, i, size));
      SplitListed(w, hdrs, bs, i, size);
    }

    /** Line 224: take block i off the free list. */
    method TakeBlock(best: int, ghost h: Heap, ghost i: nat)
      requires Sound() && heap == h && i < |h.blocks| && best == h.blocks[i].addr && best in h.links.next
      modifies ram, this`hdrs, this`freeListHead
      ensures Ready() && PhysRep(hdrs, h.blocks) && FlagRepBut(hdrs, h.blocks, i) && best in hdrs && !hdrs[best].free
      ensures LinkRep(hdrs, Remove(h.links, best)) && freeListHead == Remove(h.links, best).head
      ensures Rep(hdrs, Heap(SetFree(h.blocks, i, false), Remove(h.links, best)))
      ensures hdrs.Keys == old(hdrs).Keys && HeadersOnly(old(ram.mem), ram.mem, hdrs.Keys)
    {
      assert PhysAt(hdrs, h.blocks, i);
      RemoveFromFreeList(best, h.links);
      TakenRep(old(hdrs), hdrs, h, i);
    }

    /** kmalloc, lines 224-257, on the headers, one of them perhaps new. */
    method PlaceHeaders(best: int, size: nat, ghost h: Heap, ghost i: nat, ghost h': Heap)
      requires Sound() && heap == h && i < |h.blocks| && best == h.blocks[i].addr && best in h.links.next
      requires 8 <= size && size % 8 == 0 && size <= h.blocks[i].size && LinksOk(Remove(h.links, best))
      requires size + MIN_BLOCK_SIZE <= h.blocks[i].size ==> Unlinked(Remove(h.links, best), best + HEADER_SIZE + size)
      requires h' == (if size + MIN_BLOCK_SIZE <= h.blocks[i].size
                      then Heap(SplitAt(h.blocks, i, size), Add(Remove(h.links, best), best + HEADER_SIZE + size))
                      else Heap(SetFree(h.blocks, i, false), Remove(h.links, best)))
      modifies ram, this`hdrs, this`freeListHead, this`heapEnd
      ensures Ready() && Rep(hdrs, h') && freeListHead == h'.links.head
      ensures heapEnd == LastAddr(if size + MIN_BLOCK_SIZE <= h.blocks[i].size then h'.blocks else h.blocks)
      ensures HeadersOnly(old(ram.mem), ram.mem, hdrs.Keys)
    {
      TakeBlock(best, h, i);
      assert PhysAt(hdrs, h.blocks, i);
      ghost var m := ram.mem;
      var have := Load(best, Size);
      if have >= size + MIN_BLOCK_SIZE {
        SplitBlock(best, size, h.blocks, i, Remove(h.links, best));
        HeadersOnlyGrow(old(ram.mem), m, ram.mem, old(hdrs).Keys, hdrs.Keys);
      }
    }

    /** kmalloc, lines 224-257. Only headers are written. */
    method PlaceBlock(best: int, size: nat, ghost h: Heap, ghost i: nat, ghost h': Heap)
      requires Sound() && heap == h && i < |h.blocks| && best == h.blocks[i].addr && best in h.links.next
      requires 8 <= size && size % 8 == 0 && size <= SizeAt(h, best) && i == IndexOf(h.blocks, best)
      requires h' == Place(h, best, size)
      modifies ram, this`hdrs, this`freeListHead, this`heapEnd, this`heap
      ensures Sound() && heap == h'
      ensures HeadersOnly(old(ram.mem), ram.mem, hdrs.Keys)
    {
      RemoveOk(h.links, best);
      SplitUnlinked(h, i, size);
      PlacedIs(h, best, size, i);
      PlaceHeaders(best, size, h, i, h');
      heap := h';
    }

    /** kmalloc after a successful search: place, clear and return the payload. The flag of
        line 257 is already down since the block left the free list. */
    method ServeBlock(fit: int, size: nat) returns (ptr: int)
      requires Sound() && fit in heap.links.next && IsBlock(heap.blocks, fit)
      requires 8 <= size && size % 8 == 0 && size <= SizeAt(heap, fit)
      modifies ram, this`hdrs, this`freeListHead, this`heapEnd, this`heap
      ensures Sound() && heap == Place(old(heap), fit, size) && ptr == fit + HEADER_SIZE
      ensures Cleared(ram.mem, heap, ptr)
      ensures forall b :: b in Live(old(heap.blocks)) ==> PayloadKept(old(ram.mem), ram.mem, b)
    {
      ghost var h := heap;
      ghost var i := IndexOf(heap.blocks, fit);
      PlacedBlocksKept(h, fit, size);
      PlaceBlock(fit, size, h, i, Place(h, fit, size));
      ghost var m, bs := ram.mem, heap.blocks;
      HeadersKeepPayloads(old(ram.mem), m, hdrs, bs);
      assert PhysAt(hdrs, bs, i);
      var have := Load(fit, Size);
      ptr := fit + HEADER_SIZE;
      ZeroedPayload(bs, i);
      ram.Zero(ptr, have);
      PayloadWrite(m, ram.mem, hdrs, bs, i);
      LivePayloads(old(ram.mem), m, ram.mem, h.blocks, bs, bs[i]);
    }

    /** A search and, when it finds a block, the placement. */
    method SearchAndServe(size: nat, ghost s: System, ghost r: Served) returns (ptr: int)
      requires Valid() && IsAt(s) && SystemOk(s) && 8 <= size && size % 8 == 0 && r == Retry(s, size)
      modifies ram, this`hdrs, this`freeListHead, this`heapEnd, this`heap
      ensures Valid() && IsAt(r.sys) && ptr == r.ptr
      ensures ptr == 0 ==> ram.mem == old(ram.mem)
      ensures ptr != 0 ==> Cleared(ram.mem, heap, ptr)
      ensures forall b :: b in Live(s.heap.blocks) ==> PayloadKept(old(ram.mem), ram.mem, b)
    {
      ghost var h := heap;
      var fit := FindFit(size);
      FirstFitFits(h, h.links.head, size);
      if fit == 0 { return 0; }
      assert IsBlock(h.blocks, fit);
      PlacedFirst(h, fit, size);
      ptr := ServeBlock(fit, size);
    }

    /** kmalloc, lines 202-221, with the placement after the second search. */
    method ExpandAndServe(size: nat, ghost s: System, ghost r: Served) returns (ptr: int)
      requires Valid() && IsAt(s) && SystemOk(s) && 8 <= size && size % 8 == 0
      requires r == OnMiss(s, size)
      modifies ram, this`hdrs, this`freeListHead, this`heapStart, this`heapEnd, this`heap,
               pmm`free, pmm`freeMemory, pmm.bitmap
      ensures Valid() && IsAt(r.sys) && ptr == r.ptr
      ensures ptr != 0 ==> Cleared(ram.mem, heap, ptr)
      ensures forall b :: b in Live(s.heap.blocks) ==> PayloadKept(old(ram.mem), ram.mem, b)
    {
      ghost var m := ram.mem;
      ghost var pages := PagesNeeded(size + HEADER_SIZE);
      ghost var e := Expand(s, pages);
      ExpandLive(s, pages);
      var ok := ExpandHeap(size + HEADER_SIZE, s, pages, e);
      ptr := 0;
      if ok {
        ghost var m1 := ram.mem;
        ptr := SearchAndServe(size, e.sys, r);
        LiveTrans(m, m1, ram.mem, s.heap.blocks);
      }
    }

    /** kmalloc: the answer and the system of the specification, a cleared payload, and every
        live payload as it was. The bound keeps all size arithmetic below 2^64. */
    method Kmalloc(n: nat, ghost s: System, ghost r: Served) returns (ptr: int)
      requires Valid() && IsAt(s) && SystemOk(s) && r == HeapGrowth.Kmalloc(s, n)
      requires RoundUp(n) + 2 * HEADER_SIZE + PAGE_SIZE - 1 < TWO64
      modifies ram, this`hdrs, this`freeListHead, this`heapStart, this`heapEnd, this`heap,
               pmm`free, pmm`freeMemory, pmm.bitmap
      ensures Valid() && IsAt(r.sys) && ptr == r.ptr
      ensures ptr != 0 ==> Cleared(ram.mem, heap, ptr)
      ensures forall b :: b in Live(s.heap.blocks) ==> PayloadKept(old(ram.mem), ram.mem, b)
    {
      if n == 0 { return 0; }
      var size := RoundUp(n);
      ghost var first := Retry(s, size);
      ServedAt(s, size);
      Answers(s, n, size, r);
      ptr := SearchAndServe(size, s, first);
      if ptr == 0 {
        ptr := ExpandAndServe(size, s, r);
      }
    }

    /** kheap_init: an empty heap, then five pages. */
    method KheapInit(ghost s: System, ghost e: Expansion)
      requires ram == pmm.ram && pmm.Valid()
      requires s == System(EMPTY_HEAP, Supply(pmm.free)) && SystemOk(s) && e == Expand(s, 5)
      modifies ram, this, pmm`free, pmm`freeMemory, pmm.bitmap
      ensures Valid() && IsAt(e.sys)
    {
      freeListHead, heapStart, heapEnd := 0, 0, 0;
      hdrs, heap := map[], EMPTY_HEAP;
      NothingYet(ram.mem);
      assert PagesNeeded(PAGE_SIZE * 4) == 5;
      var _ := ExpandHeap(PAGE_SIZE * 4, s, 5, e);
    }

    /** What a client may do with a live block: store a word anywhere in its payload. */
    method WritePayload(addr: int, v: int, ghost b: Block)
      requires Valid() && b in Live(heap.blocks) && InPayload(b, addr) && addr % 8 == 0
      modifies ram
      ensures Valid() && ram.mem == old(ram.mem)[addr := v]
      ensures forall c :: c in heap.blocks && c != b ==> PayloadKept(old(ram.mem), ram.mem, c)
    {
      ghost var m, bs := ram.mem, heap.blocks;
      ghost var i :| 0 <= i < |bs| && bs[i] == b;
      ZeroedPayload(bs, i);
      ram.mem := ram.mem[addr := v];
      PayloadWrite(m, ram.mem, hdrs, bs, i);
    }
  }

  lemma NothingYet(m: Memory)
    requires Mapped(m)
    ensures Shown(m, map[]) && HeapOk(EMPTY_HEAP) && Rep(map[], EMPTY_HEAP)
    ensures FirstAddr(EMPTY_HEAP.blocks) == 0 == LastAddr(EMPTY_HEAP.blocks)
  {
  }

  /** The two ways a positive request is answered. */
  lemma Answers(s: System, n: nat, size: nat, r: Served)
    requires SystemOk(s) && 0 < n && size == RoundUp(n)
    requires r == HeapGrowth.Kmalloc(s, n)
    ensures FirstFit(s.heap, s.heap.links.head, size) != 0 ==> r == Retry(s, size)
    ensures FirstFit(s.heap, s.heap.links.head, size) == 0 ==> r == OnMiss(s, size)
  {
  }

  /** A first search that finds nothing leaves everything as it is. */
  lemma ServedAt(s: System, size: nat)
    requires SystemOk(s) && 8 <= size && size % 8 == 0
    ensures Retry(s, size).ptr == 0 <==> FirstFit(s.heap, s.heap.links.head, size) == 0
    ensures Retry(s, size).ptr == 0 ==> Retry(s, size).sys == s
  {
    var fit := FirstFit(s.heap, s.heap.links.head, size);
    FirstFitFits(s.heap, s.heap.links.head, size);
    assert fit != 0 ==> BlockOk(s.heap.blocks[IndexOf(s.heap.blocks, fit)]);
  }

  lemma PlacedIs(h: Heap, a: int, n: int, i: nat)
    requires HeapOk(h) && a in h.links.next && 8 <= n && n % 8 == 0 && n <= SizeAt(h, a) && i == IndexOf(h.blocks, a)
    ensures Place(h, a, n)
         == if n + MIN_BLOCK_SIZE <= h.blocks[i].size
            then Heap(SplitAt(h.blocks, i, n), Add(Remove(h.links, a), a + HEADER_SIZE + n))
            else Heap(SetFree(h.blocks, i, false), Remove(h.links, a))
    ensures LastAddr(SetFree(h.blocks, i, false)) == LastAddr(h.blocks)
  {
  }

  lemma PlacedFirst(h: Heap, a: int, n: int)
    requires HeapOk(h) && a in h.links.next && 8 <= n && n % 8 == 0 && n <= SizeAt(h, a)
    ensures FirstAddr(Place(h, a, n).blocks) == FirstAddr(h.blocks)
  {
  }

  lemma LiveTrans(m: Memory, m1: Memory, m2: Memory, bs: seq<Block>)
    requires forall b :: b in bs ==> PayloadKept(m, m1, b)
    requires forall b :: b in Live(bs) ==> PayloadKept(m1, m2, b)
    ensures forall b :: b in Live(bs) ==> PayloadKept(m, m2, b)
  {
    forall b | b in Live(bs) ensures PayloadKept(m, m2, b) {
      assert PayloadKept(m, m1, b) && PayloadKept(m1, m2, b);
    }
  }

  /** The frames of the allocator are fit for the heap. */
  lemma SupplyIsFrames(free: set<int>)
    ensures forall j :: 0 <= j < |Supply(free)| ==> FrameOk(Supply(free)[j])
  {
    forall k | 0 <= k < |Supply(free)| ensures FrameOk(Supply(free)[k]) {
      SupplyMembers(free, 0, k);
      FreeFrameOk(free, Supply(free)[k]);
    }
  }

  lemma FreeFrameOk(free: set<int>, a: int)
    requires IsFreeFrame(free, 0, a)
    ensures FrameOk(a)
  {
    var j :| 0 <= j < TOTAL_FRAMES && j in free && a == FrameAddr(j);
    FrameAddrOk(j);
  }

  lemma FrameAddrOk(j: nat)
    requires j < TOTAL_FRAMES
    ensures FrameOk(FrameAddr(j))
  {
    var q := 512 * j + 0x800_0000;
    assert FrameAddr(j) == 8 * q;
  }

  /** The whole payload at ptr is zero. */
  ghost predicate Cleared(m: Memory, h: Heap, ptr: int) {
    && IsBlock(h.blocks, ptr - HEADER_SIZE)
    && forall x :: ptr <= x < ptr + SizeAt(h, ptr - HEADER_SIZE) ==> x in m && m[x] == 0
  }

  lemma PlacedBlocksKept(h: Heap, a: int, n: int)
    requires HeapOk(h) && a in h.links.next && 8 <= n && n % 8 == 0 && n <= SizeAt(h, a)
    ensures var p, i := Place(h, a, n), IndexOf(h.blocks, a);
            && i < |p.blocks| && p.blocks[i].addr == a && IndexOf(p.blocks, a) == i
            && forall b :: b in Live(h.blocks) ==> b in p.blocks && b != p.blocks[i]
  {
    var p, i := Place(h, a, n), IndexOf(h.blocks, a);
    assert p.blocks[i].addr == a;
    IndexOfBlock(p.blocks, i);
    LiveSplit(h.blocks, i, n);
    LiveSetFree(h.blocks, i, false);
    AllOrdered(h.blocks);
    assert Live(h.blocks) <= Live(p.blocks);
    forall b | b in Live(h.blocks) ensures b != p.blocks[i] {
      var k :| 0 <= k < |h.blocks| && h.blocks[k] == b;
      assert k != i;
    }
  }

  lemma ZeroedPayload(bs: seq<Block>, i: nat)
    requires Spaced(bs) && i < |bs|
    ensures 8 <= bs[i].size && RAM_BASE <= bs[i].addr && End(bs[i]) <= RAM_TOP
  {
    assert BlockOk(bs[i]);
  }

  lemma LivePayloads(m: Memory, m1: Memory, m2: Memory, bs: seq<Block>, cs: seq<Block>, c: Block)
    requires forall b :: b in cs ==> PayloadKept(m, m1, b)
    requires forall b :: b in cs && b != c ==> PayloadKept(m1, m2, b)
    requires forall b :: b in Live(bs) ==> b in cs && b != c
    ensures forall b :: b in Live(bs) ==> PayloadKept(m, m2, b)
  {
    forall b | b in Live(bs) ensures PayloadKept(m, m2, b) {
      assert PayloadKept(m, m1, b) && PayloadKept(m1, m2, b);
    }
  }

  lemma HeadersOnlyGrow(m: Memory, m1: Memory, m2: Memory, s: set<int>, t: set<int>)
    requires HeadersOnly(m, m1, s) && HeadersOnly(m1, m2, t) && s <= t
    ensures HeadersOnly(m, m2, t)
  {
    forall x | x in m && !InSlots(t, x) ensures m2[x] == m[x] {
      assert !InSlots(s, x);
    }
  }

  lemma SplitUnlinked(h: Heap, i: nat, n: int)
    requires HeapOk(h) && i < |h.blocks| && h.blocks[i].free && 0 <= n
    ensures n + MIN_BLOCK_SIZE <= h.blocks[i].size ==>
              Unlinked(Remove(h.links, h.blocks[i].addr), h.blocks[i].addr + HEADER_SIZE + n)
  {
    if n + MIN_BLOCK_SIZE <= h.blocks[i].size {
      SplitAddressIsNew(h, i, n);
      RemoveOk(h.links, h.blocks[i].addr);
      assert BlockOk(h.blocks[i]);
    }
  }

  lemma SplitListed(w: map<int, Header>, w': map<int, Header>, bs: seq<Block>, i: nat, n: int)
    requires i < |bs| && FlagRep(w, SplitAt(bs, i, n))
    requires var b := bs[i].addr + HEADER_SIZE + n; b in w' && w'[b].free && SamePhys(w, w', b)
    ensures FlagRep(w', SplitAt(bs, i, n))
  {
    assert SplitAt(bs, i, n)[i + 1].free;
  }

  lemma DroppedPage(w: map<int, Header>, l: Links, a: int)
    requires LinkRep(w, l) && Unlinked(l, a) && l.prev.Keys == l.next.Keys
    ensures LinkRep(w, Drop(l, a))
  {
  }

  /** Each frame of the supply lies behind the heap grown by the ones before it. */
  lemma NextContinues(s: System, i: nat, h: Heap)
    requires SystemOk(s) && i <= |s.supply| && h == AppendPages(s.heap, s.supply, i)
    ensures forall b :: b in s.heap.blocks ==> b in h.blocks
    ensures i < |s.supply| ==>
              && s.supply[i] == s.supply[i..][0] && s.supply[i..][1..] == s.supply[i + 1..]
              && Continues(h.blocks, s.supply[i])
              && AppendPages(s.heap, s.supply, i + 1) == AppendPage(h, s.supply[i])
  {
    AppendedBlocks(s.heap, s.supply, i);
    AppendPagesOk(s, i);
    assert i < |s.supply| ==> FrameAhead(s, i);
  }

  /** What the frame loop leaves for the end of a successful expansion. */
  lemma GrownForAdopt(s: System, pages: nat, h: Heap, e: Expansion)
    requires SystemOk(s) && 0 < pages <= |s.supply| && e == Expand(s, pages)
    requires h == AppendPages(s.heap, s.supply, pages)
    ensures var i := |s.heap.blocks|;
            && HeapOk(h) && i < |h.blocks| && h.blocks[i] == Block(s.supply[0], PAGE_PAYLOAD, true)
            && Unlinked(h.links, s.supply[0])
            && e.sys == System(Adopt(h, i), s.supply[pages..])
            && FirstAddr(e.sys.heap.blocks) == FirstAddr(h.blocks)
            && (forall b :: b in s.heap.blocks ==> b in h.blocks)
  {
    FirstPageUnlinked(s, pages);
    AppendedBlocks(s.heap, s.supply, pages);
  }

  /** A frame that lies behind the heap. */
  predicate Continues(bs: seq<Block>, f: int) {
    FrameOk(f) && Behind(bs, f)
  }

  /** Zeroing a frame beyond the heap disturbs no header and no payload. */
  lemma FrameBeyond(m: Memory, m': Memory, w: map<int, Header>, bs: seq<Block>, f: int)
    requires Shown(m, w) && Spaced(bs) && PhysRep(w, bs) && Continues(bs, f)
    requires m'.Keys == m.Keys && forall x :: x in m' ==> m'[x] == if f <= x < f + PAGE_SIZE then 0 else m[x]
    ensures Shown(m', w) && forall b :: b in bs ==> PayloadKept(m, m', b)
  {
    AllOrdered(bs);
    assert forall i :: 0 <= i < |bs| ==> End(bs[i]) <= f;
    forall a | a in w ensures InRam(a) && HeaderAt(m', a) == w[a] {
      assert InRam(a) && HeaderAt(m, a) == w[a];
      assert BlockOk(bs[IndexOf(bs, a)]);
    }
  }

  lemma PayloadsTrans(m: Memory, m1: Memory, m2: Memory, bs: seq<Block>, cs: seq<Block>)
    requires forall b :: b in bs ==> PayloadKept(m, m1, b)
    requires forall b :: b in cs ==> PayloadKept(m1, m2, b)
    requires forall b :: b in bs ==> b in cs
    ensures forall b :: b in bs ==> PayloadKept(m, m2, b)
  {
    forall b | b in bs ensures PayloadKept(m, m2, b) {
      assert PayloadKept(m, m1, b) && PayloadKept(m1, m2, b);
    }
  }

  lemma LastIsHeader(w: map<int, Header>, h: Heap)
    requires HeapOk(h) && Rep(w, h)
    ensures LastAddr(h.blocks) != 0 ==> LastAddr(h.blocks) in w
    ensures h.blocks != [] ==> LastAddr(h.blocks) != 0
  {
    if h.blocks != [] {
      assert PhysAt(w, h.blocks, |h.blocks| - 1) && BlockOk(h.blocks[|h.blocks| - 1]);
    }
  }

  lemma FreedFirst(bs: seq<Block>, i: nat)
    requires i < |bs|
    ensures FirstAddr(FreedBlocks(bs, i)) == FirstAddr(bs)
  {
    var m := SetFree(bs, i, true);
    assert FirstAddr(MergeNext(m, i)) == FirstAddr(bs);
  }

  /** A zeroed frame after the last block can hold a header. */
  lemma NewSlot(m: Memory, w: map<int, Header>, bs: seq<Block>, f: int)
    requires Shown(m, w) && Spaced(bs) && PhysRep(w, bs) && FrameOk(f) && Behind(bs, f)
    requires forall x :: f <= x < f + PAGE_SIZE ==> x in m && m[x] == 0
    ensures Shown(m, w[f := Header(0, false, 0, 0, 0, 0)]) && f !in w
  {
    var w' := w[f := Header(0, false, 0, 0, 0, 0)];
    AllOrdered(bs);
    forall a | a in w ensures a + HEADER_SIZE <= f {
      assert BlockOk(bs[IndexOf(bs, a)]);
    }
    assert w'.Keys == w.Keys + {f};
    forall a | a in w' ensures InRam(a) && HeaderAt(m, a) == w'[a] {
      if a != f {
        assert InRam(a) && HeaderAt(m, a) == w[a];
      }
    }
  }

  function AppendedHeaders(w: map<int, Header>, end: int, f: int): map<int, Header>
    requires end != 0 ==> end in w
  {
    var w1 := w[f := Header(PAGE_PAYLOAD, true, 0, end, 0, 0)];
    if end != 0 then w1[end := w1[end].(next := f)] else w1
  }

  lemma AppendedAt(w: map<int, Header>, bs: seq<Block>, f: int, k: nat)
    requires Spaced(bs) && PhysRep(w, bs) && FlagRep(w, bs) && f !in w && f != 0 && k <= |bs|
    requires LastAddr(bs) != 0 ==> LastAddr(bs) in w
    ensures var w', cs := AppendedHeaders(w, LastAddr(bs), f), bs + [Block(f, PAGE_PAYLOAD, true)];
            PhysAt(w', cs, k) && w'[cs[k].addr].free == cs[k].free
  {
    var n, cs := |bs|, bs + [Block(f, PAGE_PAYLOAD, true)];
    if k < n {
      assert PhysAt(w, bs, k) && cs[k] == bs[k];
      if k < n - 1 {
        Ordered(bs, k, n - 1);
        assert cs[k + 1] == bs[k + 1];
      }
    }
    assert 0 < n ==> BlockOk(bs[n - 1]);
  }

  lemma AppendedRep(w: map<int, Header>, h: Heap, f: int)
    requires HeapOk(h) && Rep(w, h) && f !in w && f != 0
    ensures LastAddr(h.blocks) != 0 ==> LastAddr(h.blocks) in w
    ensures Rep(AppendedHeaders(w, LastAddr(h.blocks), f), AppendPage(h, f))
  {
    var bs, cs, l := h.blocks, AppendPage(h, f).blocks, AppendPage(h, f).links;
    LastIsHeader(w, h);
    var w' := AppendedHeaders(w, LastAddr(bs), f);
    assert w'.Keys == w.Keys + {f};
    forall a | a in w' ensures IsBlock(cs, a) {
      assert cs[if a == f then |bs| else IndexOf(bs, a)].addr == a;
    }
    forall k | 0 <= k < |cs| ensures PhysAt(w', cs, k) && w'[cs[k].addr].free == cs[k].free {
      AppendedAt(w, bs, f, k);
    }
    AppendedLinks(w, h.links, LastAddr(bs), f);
  }

  lemma AppendedLinks(w: map<int, Header>, l: Links, end: int, f: int)
    requires LinkRep(w, l) && f !in w && (end != 0 ==> end in w)
    ensures LinkRep(AppendedHeaders(w, end, f), Enroll(l, f))
  {
  }

  lemma MarkedRep(w: map<int, Header>, h: Heap, i: nat)
    requires HeapOk(h) && Rep(w, h) && i < |h.blocks| && h.blocks[i].addr in w
    ensures var w' := w[h.blocks[i].addr := Put(w[h.blocks[i].addr], IsFree, 1)];
            var bs := SetFree(h.blocks, i, true);
            PhysRep(w', bs) && FlagRepBut(w', bs, i) && LinkRep(w', h.links) && LastAddr(bs) == LastAddr(h.blocks)
  {
    var a, bs := h.blocks[i].addr, SetFree(h.blocks, i, true);
    var w' := w[a := Put(w[a], IsFree, 1)];
    assert w'.Keys == w.Keys;
    forall b | b in w' ensures IsBlock(bs, b) {
      assert bs[IndexOf(h.blocks, b)].addr == b;
    }
    forall k | 0 <= k < |bs| ensures PhysAt(w', bs, k) {
      assert PhysAt(w, h.blocks, k);
    }
    forall k | 0 <= k < |bs| && k != i ensures bs[k].addr in w' && w'[bs[k].addr].free == bs[k].free {
      if k < i { Ordered(h.blocks, k, i); } else { Ordered(h.blocks, i, k); }
      assert bs[k] == h.blocks[k];
    }
  }

  lemma PendingIsUnlinked(w: map<int, Header>, p: Pending)
    requires PendingOk(p) && PhysRep(w, p.heap.blocks) && LinkRep(w, p.heap.links)
    ensures var a := p.heap.blocks[p.at].addr;
            a in w && LinkRepBut(w, p.heap.links, a) && Unlinked(p.heap.links, a)
  {
    assert PhysAt(w, p.heap.blocks, p.at);
    assert BlockOk(p.heap.blocks[p.at]);
  }

  lemma FinishedRep(w: map<int, Header>, w': map<int, Header>, p: Pending)
    requires PendingOk(p) && PhysRep(w, p.heap.blocks) && FlagRepBut(w, p.heap.blocks, p.at)
    requires var a := p.heap.blocks[p.at].addr;
             SamePhys(w, w', a) && a in w' && w'[a].free && LinkRep(w', Add(p.heap.links, a))
    ensures Rep(w', Finish(p))
  {
    var bs := p.heap.blocks;
    SamePhysRep(w, w', bs[p.at].addr, bs);
    AllOrdered(bs);
    forall k | 0 <= k < |bs| ensures bs[k].addr in w' && w'[bs[k].addr].free == bs[k].free {
      assert k != p.at ==> bs[k].addr != bs[p.at].addr && w[bs[k].addr].free == bs[k].free;
    }
  }

  lemma LastHasNoNext(bs: seq<Block>, i: nat)
    requires Spaced(bs) && i < |bs|
    ensures NextAddr(bs, i) == 0 <==> i + 1 == |bs|
  {
    assert i + 1 < |bs| ==> BlockOk(bs[i + 1]);
  }
}
