/** What the words of live blocks hold through a run of calls and client stores. */
module HeapWords {
  import opened HeapModel
  import opened Blocks
  import opened HeapOps
  import opened HeapGrowth
  import opened LiveBlocks
  import opened HeapRuns

  /** x lies in the payload that kmalloc returned. */
  ghost predicate InAnswer(r: Served, x: int) {
    && r.ptr != 0 && IsBlock(r.sys.heap.blocks, r.ptr - HEADER_SIZE)
    && r.ptr <= x < r.ptr + SizeAt(r.sys.heap, r.ptr - HEADER_SIZE)
  }

  /** The word at x after an operation, when it was d before: kmalloc clears what it returns, a
      store sets its word, and nothing else changes. */
  ghost function WordAfter(s: System, op: Op, x: int, d: int): int
    requires SystemOk(s) && Legal(s, op)
  {
    match op
    case Malloc(n) => if InAnswer(Kmalloc(s, n), x) then 0 else d
    case Free(_) => d
    case Write(addr, v) => if addr == x then v else d
  }

  ghost function Word(s: System, ops: seq<Op>, x: int, d: int): int
    requires SystemOk(s) && LegalRun(s, ops)
    decreases |ops|
  {
    if ops == [] then d else Word(Step(s, ops[0]), ops[1..], x, WordAfter(s, ops[0], x, d))
  }

  // ---------------------------------------------------------------- owners

  /** A live block that a request added is the one at its answer. */
  lemma GrantedIsAnswer(before: seq<Block>, r: Served, size: int, b: Block, x: int)
    requires SystemOk(r.sys) && Granted(before, r.sys.heap.blocks, r.ptr, size)
    requires b in Live(r.sys.heap.blocks) && b !in Live(before)
    ensures InPayload(b, x) <==> InAnswer(r, x)
  {
    var bs := r.sys.heap.blocks;
    var i :| 0 <= i < |bs| && bs[i] == b;
    IndexOfBlock(bs, i);
    assert BlockOk(bs[i]);
  }

  lemma NewBlock(s: System, n: nat, b: Block, x: int)
    requires SystemOk(s) && b in Live(Kmalloc(s, n).sys.heap.blocks) && b !in Live(s.heap.blocks)
    ensures InPayload(b, x) <==> InAnswer(Kmalloc(s, n), x)
  {
    KmallocLive(s, n);
    GrantedIsAnswer(s.heap.blocks, Kmalloc(s, n), RoundUp(n), b, x);
  }

  lemma GrantedIsNew(before: seq<Block>, r: Served, size: int, b: Block, x: int)
    requires SystemOk(r.sys) && Granted(before, r.sys.heap.blocks, r.ptr, size)
    requires b in Live(before) && InPayload(b, x)
    ensures !InAnswer(r, x)
  {
    var bs := r.sys.heap.blocks;
    var c :| Live(bs) == Live(before) + {c} && c !in Live(before) && Fits(c, r.ptr, size);
    assert b in Live(bs) && c in Live(bs);
    var i :| 0 <= i < |bs| && bs[i] == b;
    var j :| 0 <= j < |bs| && bs[j] == c;
    IndexOfBlock(bs, j);
    assert i != j && BlockOk(bs[i]);
    Disjoint(bs, i, j, x);
  }

  /** What kmalloc returns was no one's. */
  lemma AnswerIsNew(s: System, n: nat, b: Block, x: int)
    requires SystemOk(s) && b in Live(s.heap.blocks) && InPayload(b, x)
    ensures !InAnswer(Kmalloc(s, n), x)
  {
    KmallocLive(s, n);
    if Kmalloc(s, n).ptr != 0 {
      GrantedIsNew(s.heap.blocks, Kmalloc(s, n), RoundUp(n), b, x);
    }
  }

  /** A word gets an owner only from kmalloc. */
  lemma OwnerStep(s: System, op: Op, x: int)
    requires SystemOk(s) && Legal(s, op) && Owned(Step(s, op).heap.blocks, x)
    ensures Owned(s.heap.blocks, x) || (op.Malloc? && InAnswer(Kmalloc(s, op.n), x))
  {
    var b :| b in Live(Step(s, op).heap.blocks) && InPayload(b, x);
    match op
    case Malloc(n) =>
      if b !in Live(s.heap.blocks) {
        NewBlock(s, n, b, x);
      }
    case Free(ptr) =>
      KfreeLive(s.heap, ptr);
      assert b in Live(s.heap.blocks);
    case Write(_, _) =>
  }

  /** What a word held before it had an owner does not matter once it has one. */
  lemma {:induction false} WordForgets(s: System, ops: seq<Op>, x: int, d: int, e: int)
    requires SystemOk(s) && LegalRun(s, ops) && !Owned(s.heap.blocks, x) && Owned(Run(s, ops).heap.blocks, x)
    ensures Word(s, ops, x, d) == Word(s, ops, x, e)
    decreases |ops|
  {
    if ops != [] {
      var op, t := ops[0], Step(s, ops[0]);
      if Owned(t.heap.blocks, x) {
        OwnerStep(s, op, x);
        assert WordAfter(s, op, x, d) == WordAfter(s, op, x, e);
      } else {
        WordForgets(t, ops[1..], x, WordAfter(s, op, x, d), WordAfter(s, op, x, e));
      }
    }
  }

  // ---------------------------------------------------------------- the last word written

  predicate NoWrite(ops: seq<Op>, x: int) {
    forall k :: 0 <= k < |ops| && ops[k].Write? ==> ops[k].addr != x
  }

  /** A word of a live block that is neither freed nor written keeps its value. */
  lemma {:induction false} WordStays(s: System, ops: seq<Op>, b: Block, x: int, d: int)
    requires SystemOk(s) && LegalRun(s, ops) && b in Live(s.heap.blocks) && InPayload(b, x)
    requires Spares(ops, b) && NoWrite(ops, x)
    ensures Word(s, ops, x, d) == d
    decreases |ops|
  {
    if ops != [] {
      if ops[0].Malloc? {
        AnswerIsNew(s, ops[0].n, b, x);
      }
      StepKeepsLive(s, ops[0], b);
      WordStays(Step(s, ops[0]), ops[1..], b, x, d);
    }
  }

  lemma FirstOf(s: System, ops: seq<Op>, x: int, d: int)
    requires SystemOk(s) && ops != [] && Legal(s, ops[0]) && LegalRun(Step(s, ops[0]), ops[1..])
    ensures LegalRun(s, ops) && Run(s, ops) == Run(Step(s, ops[0]), ops[1..])
    ensures Word(s, ops, x, d) == Word(Step(s, ops[0]), ops[1..], x, WordAfter(s, ops[0], x, d))
  {
  }

  /** ab is what a run a followed by a run b comes to. */
  ghost predicate Follows(s: System, a: seq<Op>, b: seq<Op>, ab: seq<Op>) {
    && SystemOk(s) && LegalRun(s, a) && LegalRun(Run(s, a), b)
    && LegalRun(s, ab) && Run(s, ab) == Run(Run(s, a), b)
  }

  lemma Tail(a: seq<Op>, b: seq<Op>, ab: seq<Op>)
    requires a != [] && ab == a + b
    ensures ab != [] && ab[0] == a[0] && ab[1..] == a[1..] + b
  {
  }

  lemma {:induction false} RunFollows(s: System, a: seq<Op>, b: seq<Op>, ab: seq<Op>)
    requires SystemOk(s) && LegalRun(s, a) && LegalRun(Run(s, a), b) && ab == a + b
    ensures Follows(s, a, b, ab)
    decreases |a|
  {
    if a == [] {
      assert ab == b;
    } else {
      Tail(a, b, ab);
      RunFollows(Step(s, a[0]), a[1..], b, ab[1..]);
    }
  }

  lemma {:induction false} RunAppend(s: System, a: seq<Op>, b: seq<Op>, ab: seq<Op>, x: int, d: int)
    requires SystemOk(s) && LegalRun(s, a) && LegalRun(Run(s, a), b) && ab == a + b
    ensures LegalRun(s, ab) && Run(s, ab) == Run(Run(s, a), b)
    ensures Word(s, ab, x, d) == Word(Run(s, a), b, x, Word(s, a, x, d))
    decreases |a|
  {
    RunFollows(s, a, b, ab);
    if a == [] {
      assert ab == b;
    } else {
      Tail(a, b, ab);
      RunAppend(Step(s, a[0]), a[1..], b, ab[1..], x, WordAfter(s, a[0], x, d));
    }
  }

  /** A live word reads back the last value written to it, whatever calls came before and come
      afterwards, for as long as its block is not freed. */
  lemma LastWrite(s: System, before: seq<Op>, addr: int, v: int, after: seq<Op>, b: Block, d: int)
    requires SystemOk(s) && LegalRun(s, before) && LegalRun(Run(s, before), after)
    requires b in Live(Run(s, before).heap.blocks) && InPayload(b, addr) && addr % 8 == 0
    requires Spares(after, b) && NoWrite(after, addr)
    ensures LegalRun(s, before + ([Write(addr, v)] + after))
    ensures Word(s, before + ([Write(addr, v)] + after), addr, d) == v
  {
    var rest := [Write(addr, v)] + after;
    assert rest[0] == Write(addr, v) && rest[1..] == after;
    FirstOf(Run(s, before), rest, addr, Word(s, before, addr, d));
    RunAppend(s, before, rest, before + rest, addr, d);
    WordStays(Run(s, before), after, b, addr, v);
  }

  /** And zero if nothing was written since kmalloc returned it. */
  lemma FreshWord(s: System, before: seq<Op>, n: nat, after: seq<Op>, b: Block, x: int, d: int)
    requires SystemOk(s) && LegalRun(s, before) && LegalRun(Step(Run(s, before), Malloc(n)), after)
    requires b in Live(Step(Run(s, before), Malloc(n)).heap.blocks) && b !in Live(Run(s, before).heap.blocks)
    requires InPayload(b, x) && Spares(after, b) && NoWrite(after, x)
    ensures LegalRun(s, before + ([Malloc(n)] + after))
    ensures Word(s, before + ([Malloc(n)] + after), x, d) == 0
  {
    var rest := [Malloc(n)] + after;
    assert rest[0] == Malloc(n) && rest[1..] == after;
    FirstOf(Run(s, before), rest, x, Word(s, before, x, d));
    RunAppend(s, before, rest, before + rest, x, d);
    NewBlock(Run(s, before), n, b, x);
    WordStays(Step(Run(s, before), Malloc(n)), after, b, x, 0);
  }
}
