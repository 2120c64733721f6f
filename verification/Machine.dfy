/** The machine under the kernel: page size, the managed RAM, and its contents. */
module Machine {
  const PAGE_SIZE := 4096
  const RAM_BASE := 0x4000_0000
  const RAM_TOP := 0x8000_0000

  /** What memory holds, cell by cell. The cell at a multiple of 8 is the 64-bit word there, the
      unit of every load and store; the cells between mean nothing of their own. */
  type Memory = map<int, int>

  ghost predicate Mapped(m: Memory) {
    forall x :: RAM_BASE <= x < RAM_TOP ==> x in m
  }

  /** Physical memory. */
  class Ram {
    var mem: Memory

    /** memset with 0, over [p, p + n). */
    method Zero(p: int, n: nat)
      modifies this
      ensures mem.Keys == old(mem.Keys)
      ensures forall x :: x in mem ==> mem[x] == if p <= x < p + n then 0 else old(mem)[x]
    {
      mem := map x | x in mem :: if p <= x < p + n then 0 else mem[x];
    }
  }
}
