/** Whole runs of the allocator and its clients: any sequence of allocations, of
    releases of live payloads and of stores into them, from the heap
    `initialize_heap` leaves. */
module HeapRuns {
  import opened Words
  import opened Mcb
  import opened HeapBlocks
  import opened HeapTheory

  /** The heap together with the request each live payload was made for. */
  datatype State = State(blocks: seq<Block>, ledger: map<nat, Word>)

  /** `Store` is a client's own write: `w` becomes word `k` of its payload at `addr`. */
  datatype Op = Alloc(request: Word) | Free(addr: nat) | Store(addr: nat, k: nat, w: Word)

  function WordsFor(request: Word): nat {
    Roundup(request) / 4
  }

  function Initial(sz: Word): State {
    State([Block(WordsFor(sz), true)], map[])
  }

  predicate Enabled(s: State, op: Op) {
    match op
    case Alloc(_) => true
    case Free(addr) => addr in Live(s.blocks, 0)
    case Store(addr, k, _) => addr in Live(s.blocks, 0) && k < Live(s.blocks, 0)[addr]
  }

  function Step(s: State, op: Op): State
    requires Enabled(s, op)
  {
    match op
    case Alloc(request) =>
      var i := FirstFit(s.blocks, WordsFor(request));
      if i == |s.blocks| then s
      else State(Allocate(s.blocks, WordsFor(request)), s.ledger[Off(s.blocks, i) + 1 := request])
    case Free(addr) =>
      State(ReleaseAt(s.blocks, addr), s.ledger - {addr})
    case Store(_, _, _) => s
  }

  predicate Legal(s: State, ops: seq<Op>)
    decreases |ops|
  {
    ops == [] || (Enabled(s, ops[0]) && Legal(Step(s, ops[0]), ops[1..]))
  }

  function Exec(s: State, ops: seq<Op>): State
    requires Legal(s, ops)
    decreases |ops|
  {
    if ops == [] then s else Exec(Step(s, ops[0]), ops[1..])
  }

  /** `words` payload words serve a request of `request` bytes. */
  predicate Serves(words: nat, request: Word) {
    words == WordsFor(request) || words == WordsFor(request) + 1
  }

  ghost predicate LedgerMatches(live: map<nat, nat>, ledger: map<nat, Word>) {
    live.Keys == ledger.Keys && forall a :: a in ledger ==> Serves(live[a], ledger[a])
  }

  ghost predicate Inv(s: State, total: nat) {
    && s.blocks != []
    && Coalesced(s.blocks)
    && Span(s.blocks) == total
    && LedgerMatches(Live(s.blocks, 0), s.ledger)
  }

  lemma StepKeepsInv(s: State, op: Op, total: nat)
    requires Inv(s, total) && Enabled(s, op)
    ensures Inv(Step(s, op), total)
  {
    match op
    case Alloc(request) =>
      if FirstFit(s.blocks, WordsFor(request)) < |s.blocks| {
        AllocateEffect(s.blocks, WordsFor(request));
      }
    case Free(addr) =>
      ReleaseAtEffect(s.blocks, addr);
      assert Span(s.blocks) > 0;
    case Store(_, _, _) =>
  }

  /** Every run keeps the tiling total, the coalescing and the ledger. */
  lemma {:induction false} RunKeepsInv(s: State, ops: seq<Op>, total: nat)
    requires Inv(s, total) && Legal(s, ops)
    ensures Inv(Exec(s, ops), total)
    decreases |ops|
  {
    if ops != [] {
      StepKeepsInv(s, ops[0], total);
      RunKeepsInv(Step(s, ops[0]), ops[1..], total);
    }
  }

  /** The same, from `initialize_heap(sz)`. */
  lemma ReachableInv(sz: Word, ops: seq<Op>)
    requires Legal(Initial(sz), ops)
    ensures Inv(Exec(Initial(sz), ops), WordsFor(sz) + 1)
  {
    RunKeepsInv(Initial(sz), ops, WordsFor(sz) + 1);
  }

  lemma StepKeepsLive(s: State, op: Op, total: nat, a: nat)
    requires Inv(s, total) && Enabled(s, op)
    requires a in s.ledger && op != Free(a)
    ensures var t := Step(s, op);
            && a in t.ledger && a in Live(t.blocks, 0)
            && t.ledger[a] == s.ledger[a] && Live(t.blocks, 0)[a] == Live(s.blocks, 0)[a]
  {
    match op
    case Alloc(request) =>
      if FirstFit(s.blocks, WordsFor(request)) < |s.blocks| {
        AllocateEffect(s.blocks, WordsFor(request));
      }
    case Free(addr) =>
      ReleaseAtEffect(s.blocks, addr);
    case Store(_, _, _) =>
  }

  /** A payload that no step of a run frees stays live where it is, with the
      size it had: no other operation moves or resizes it. */
  lemma {:induction false} RunKeepsLive(s: State, ops: seq<Op>, total: nat, a: nat)
    requires Inv(s, total) && Legal(s, ops)
    requires a in s.ledger && Free(a) !in ops
    ensures var t := Exec(s, ops);
            && a in t.ledger && a in Live(t.blocks, 0)
            && t.ledger[a] == s.ledger[a] && Live(t.blocks, 0)[a] == Live(s.blocks, 0)[a]
    decreases |ops|
  {
    if ops != [] {
      StepKeepsInv(s, ops[0], total);
      StepKeepsLive(s, ops[0], total, a);
      assert ops == [ops[0]] + ops[1..];
      RunKeepsLive(Step(s, ops[0]), ops[1..], total, a);
    }
  }

  /** When every live payload has been freed, in whatever order, the heap is the
      one free block it started as. */
  lemma AllFreedIsInitial(sz: Word, ops: seq<Op>)
    requires Legal(Initial(sz), ops)
    requires Exec(Initial(sz), ops).ledger == map[]
    ensures Exec(Initial(sz), ops) == Initial(sz)
  {
    ReachableInv(sz, ops);
    var s := Exec(Initial(sz), ops);
    assert Live(s.blocks, 0).Keys == {};
    assert Live(s.blocks, 0) == map[];
    Canonical(s.blocks, Initial(sz).blocks, 0);
  }

  /** An allocation followed by the release of what it returned leaves the heap
      and the ledger as they were, from every state that satisfies `Inv`. */
  lemma AllocFreeIdentity(s: State, request: Word, total: nat)
    requires Inv(s, total) && FirstFit(s.blocks, WordsFor(request)) < |s.blocks|
    ensures var a := Off(s.blocks, FirstFit(s.blocks, WordsFor(request))) + 1;
            Legal(s, [Alloc(request), Free(a)]) && Exec(s, [Alloc(request), Free(a)]) == s
  {
    var a := Off(s.blocks, FirstFit(s.blocks, WordsFor(request))) + 1;
    StepBack(s, request, total, a);
    ExecTwo(s, Alloc(request), Free(a));
  }

  lemma StepBack(s: State, request: Word, total: nat, a: nat)
    requires Inv(s, total) && FirstFit(s.blocks, WordsFor(request)) < |s.blocks|
    requires a == Off(s.blocks, FirstFit(s.blocks, WordsFor(request))) + 1
    ensures var t := Step(s, Alloc(request));
            Enabled(t, Free(a)) && Step(t, Free(a)) == s
  {
    assert a !in s.ledger by { AllocateEffect(s.blocks, WordsFor(request)); }
    ReleaseUndoesAllocate(s.blocks, WordsFor(request));
    assert s.ledger[a := request] - {a} == s.ledger;
  }

  lemma ExecTwo(s: State, first: Op, second: Op)
    requires Enabled(s, first) && Enabled(Step(s, first), second)
    ensures Legal(s, [first, second]) && Exec(s, [first, second]) == Step(Step(s, first), second)
  {
    var t := Step(s, first);
    var ops := [first, second];
    assert ops[1..] == [second] && ops[1..][1..] == [];
    assert Legal(t, ops[1..]);
    assert Exec(t, ops[1..]) == Step(t, second);
  }

  /** In every reachable heap, a failed request of at least one byte bounds the
      free payload by the number of live blocks. */
  lemma ReachableFragmentation(sz: Word, ops: seq<Op>, request: Word)
    requires Legal(Initial(sz), ops) && 1 <= request <= TWO_32 - 4
    ensures var bs := Exec(Initial(sz), ops).blocks;
            FirstFit(bs, WordsFor(request)) == |bs| ==>
              && (forall b :: b in bs && b.free ==> 4 * b.words <= Roundup(request) - 4)
              && 4 * FreeWords(bs) <= (LiveCount(bs) + 1) * (Roundup(request) - 4)
  {
    ReachableInv(sz, ops);
    var bs := Exec(Initial(sz), ops).blocks;
    if FirstFit(bs, WordsFor(request)) == |bs| {
      FragmentationInBytes(bs, request);
    }
  }

  lemma FragmentationInBytes(bs: seq<Block>, request: Word)
    requires Coalesced(bs) && 1 <= request <= TWO_32 - 4
    requires FirstFit(bs, WordsFor(request)) == |bs|
    ensures forall b :: b in bs && b.free ==> 4 * b.words <= Roundup(request) - 4
    ensures 4 * FreeWords(bs) <= (LiveCount(bs) + 1) * (Roundup(request) - 4)
  {
    RoundupCovers(request);
    var n := WordsFor(request);
    assert Roundup(request) == 4 * n;
    FragmentationBound(bs, n);
    Scale(LiveCount(bs) + 1, n);
  }

  lemma Scale(l: nat, n: nat)
    ensures 4 * (l * (n - 1)) == l * (4 * n - 4)
  {
  }
}
