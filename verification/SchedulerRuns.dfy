/** Runs of the cooperative scheduler: create, yield (`sys_req(IDLE)`) and delete
    of a ready user process, as steps on the running process and ready queue. */
module SchedulerRuns {
  import opened ReadyQueue

  datatype Sched = Sched(running: Pcb?, ready: seq<Pcb>)

  datatype Op = Create(pcb: Pcb) | Yield | Delete(victim: Pcb)

  ghost predicate Inv(s: Sched) {
    Sorted(s.ready) && Distinct(s.ready) && s.running !in s.ready
  }

  predicate Enabled(s: Sched, op: Op) {
    match op
    case Create(p) => p !in s.ready && s.running != p
    case Yield => true
    case Delete(p) => p in s.ready && !p.isSystem
  }

  /** A yield dispatches the head as it was before the yielder joins the queue. */
  function YieldStep(s: Sched): Sched {
    if s.ready == [] then s
    else if s.running == null then Sched(s.ready[0], s.ready[1..])
    else Sched(s.ready[0], StableInsert(s.ready[1..], s.running))
  }

  /** What `sys_call` does, in its order: the yielder joins the queue first, and
      then the head from before leaves it. That is the same step, even when the
      yielder joins ahead of that head. */
  lemma YieldIsInsertThenRemove(s: Sched)
    requires Inv(s) && s.ready != []
    ensures var q := if s.running == null then s.ready else StableInsert(s.ready, s.running);
            s.ready[0] in q && YieldStep(s) == Sched(s.ready[0], Remove(q, s.ready[0]))
  {
    if s.running != null {
      InsertThenRemoveHead(s.ready, s.running);
      InsertMembers(s.ready, s.running);
    }
  }

  /** Who waits after a yield: the queue without its head, and the yielder. */
  lemma YieldMembers(s: Sched)
    requires Inv(s) && s.ready != []
    ensures forall x: Pcb :: x in YieldStep(s).ready <==> (x in s.ready && x != s.ready[0]) || x == s.running
  {
    var tail := s.ready[1..];
    assert s.ready == [s.ready[0]] + tail;
    if s.running != null { InsertMembers(tail, s.running); }
  }

  function Step(s: Sched, op: Op): Sched {
    match op
    case Create(p) => s.(ready := StableInsert(s.ready, p))
    case Yield => YieldStep(s)
    case Delete(p) => s.(ready := Remove(s.ready, p))
  }

  predicate Legal(s: Sched, ops: seq<Op>)
    decreases |ops|
  {
    ops == [] || (Enabled(s, ops[0]) && Legal(Step(s, ops[0]), ops[1..]))
  }

  function Exec(s: Sched, ops: seq<Op>): Sched
    decreases |ops|
  {
    if ops == [] then s else Exec(Step(s, ops[0]), ops[1..])
  }

  function Yields(ops: seq<Op>): nat {
    if ops == [] then 0 else (if ops[0].Yield? then 1 else 0) + Yields(ops[1..])
  }

  // ------------------------------------------------------------------ invariant

  lemma StepKeepsInv(s: Sched, op: Op)
    requires Inv(s) && Enabled(s, op)
    ensures Inv(Step(s, op))
  {
    match op
    case Create(p) =>
      InsertSorted(s.ready, p);
      InsertDistinct(s.ready, p);
      InsertMembers(s.ready, p);
    case Yield => YieldKeepsInv(s);
    case Delete(p) =>
      RemoveSorted(s.ready, p);
      RemoveDistinct(s.ready, p);
      RemoveMembers(s.ready, p);
  }

  lemma YieldKeepsInv(s: Sched)
    requires Inv(s)
    ensures Inv(YieldStep(s))
  {
    if s.ready != [] {
      var tail := s.ready[1..];
      assert s.ready == [s.ready[0]] + tail;
      assert Sorted(tail) && Distinct(tail) && s.ready[0] !in tail;
      if s.running != null {
        InsertSorted(tail, s.running);
        InsertDistinct(tail, s.running);
        InsertMembers(tail, s.running);
      }
    }
  }

  /** Every run keeps the queue sorted, without duplicates and disjoint from the
      running process. */
  lemma {:induction false} RunKeepsInv(s: Sched, ops: seq<Op>)
    requires Inv(s) && Legal(s, ops)
    ensures Inv(Exec(s, ops))
    decreases |ops|
  {
    if ops != [] {
      StepKeepsInv(s, ops[0]);
      RunKeepsInv(Step(s, ops[0]), ops[1..]);
    }
  }

  // ------------------------------------------------------------ bounded waiting

  /** Nobody in the system has a smaller priority number than `p`. */
  ghost predicate Favoured(s: Sched, p: Pcb) {
    && (forall x :: x in s.ready ==> p.priority <= x.priority)
    && (s.running != null ==> p.priority <= s.running.priority)
  }

  /** A newcomer that is not smaller joins behind `p`. */
  lemma InsertStaysBehind(q: seq<Pcb>, k: nat, x: Pcb)
    requires Sorted(q) && k < |q| && q[k].priority <= x.priority
    ensures k < InsertAt(q, x.priority) && StableInsert(q, x)[k] == q[k]
  {
  }

  /** A step either dispatches `p` or leaves it queued no further back, and one
      place nearer after a yield. */
  lemma StepAdvances(s: Sched, op: Op, k: nat) returns (k': nat)
    requires Inv(s) && Enabled(s, op) && k < |s.ready| && Favoured(s, s.ready[k])
    requires op.Create? ==> s.ready[k].priority <= op.pcb.priority
    requires op != Delete(s.ready[k])
    ensures var p, t := s.ready[k], Step(s, op);
            || (op.Yield? && k == 0 && t.running == p)
            || (Favoured(t, p) && k' < |t.ready| && t.ready[k'] == p && k' <= k && (op.Yield? ==> k' == k - 1))
  {
    match op
    case Create(x) =>
      k' := k;
      InsertStaysBehind(s.ready, k, x);
      InsertMembers(s.ready, x);
    case Yield =>
      k' := if k == 0 then 0 else k - 1;
      YieldAdvances(s, k);
    case Delete(x) =>
      k' := DeleteAdvances(s, x, k);
  }

  lemma YieldAdvances(s: Sched, k: nat)
    requires Inv(s) && k < |s.ready| && Favoured(s, s.ready[k])
    ensures var p, t := s.ready[k], YieldStep(s);
            if k == 0 then t.running == p
            else Favoured(t, p) && k - 1 < |t.ready| && t.ready[k - 1] == p
  {
  }

  lemma DeleteAdvances(s: Sched, x: Pcb, k: nat) returns (k': nat)
    requires Inv(s) && k < |s.ready| && Favoured(s, s.ready[k]) && x in s.ready && x != s.ready[k]
    ensures var p, t := s.ready[k], Step(s, Delete(x));
            Favoured(t, p) && k' < |t.ready| && t.ready[k'] == p && k' <= k
  {
    var i :| 0 <= i < |s.ready| && s.ready[i] == x;
    RemoveAt(s.ready, i);
    RemoveMembers(s.ready, x);
    k' := if i < k then k - 1 else k;
  }

  /** A process that nobody outranks, now or on arrival, is dispatched by the
      time of the (k+1)-th yield, where k is its place in the queue. */
  lemma {:induction false} BoundedWaiting(s: Sched, ops: seq<Op>, k: nat) returns (j: nat)
    requires Inv(s) && Legal(s, ops) && k < |s.ready| && Favoured(s, s.ready[k])
    requires forall x :: Create(x) in ops ==> s.ready[k].priority <= x.priority
    requires Delete(s.ready[k]) !in ops
    requires Yields(ops) >= k + 1
    ensures 0 < j <= |ops| && Yields(ops[..j]) <= k + 1
    ensures Exec(s, ops[..j]).running == s.ready[k]
    decreases |ops|
  {
    var p, op, t := s.ready[k], ops[0], Step(s, ops[0]);
    assert ops == [op] + ops[1..];
    var k' := StepAdvances(s, op, k);
    if op.Yield? && k == 0 && t.running == p {
      j := 1;
      assert ops[..1] == [op];
      assert Exec(s, [op]) == t;
    } else {
      StepKeepsInv(s, op);
      var i := BoundedWaiting(t, ops[1..], k');
      j := i + 1;
      assert ops[..j][0] == op && ops[..j][1..] == ops[1..][..i];
    }
  }

  // ------------------------------------------------------------------- rotation

  function YieldN(s: Sched, n: nat): Sched {
    if n == 0 then s else YieldStep(YieldN(s, n - 1))
  }

  /** The state whose running process and queue, in order, are `ring`. */
  function FromRing(ring: seq<Pcb>): Sched
    requires ring != []
  {
    Sched(ring[0], ring[1..])
  }

  lemma {:induction false} RingTurns(ring: seq<Pcb>, priority: int, n: nat)
    requires ring != [] && n <= |ring|
    requires forall x :: x in ring ==> x.priority == priority
    ensures YieldN(FromRing(ring), n) == FromRing(ring[n..] + ring[..n])
  {
    if n == 0 {
      assert ring[0..] + ring[..0] == ring;
    } else {
      RingTurns(ring, priority, n - 1);
      var r := ring[n - 1..] + ring[..n - 1];
      Rotate(ring, n);
      RingTurn(r);
      assert YieldN(FromRing(ring), n) == YieldStep(FromRing(r));
    }
  }

  lemma Rotate(ring: seq<Pcb>, n: nat)
    requires 0 < n <= |ring|
    ensures var r := ring[n - 1..] + ring[..n - 1];
            ring[n..] + ring[..n] == r[1..] + [r[0]] && forall x :: x in r ==> x in ring
  {
  }

  lemma RingTurn(ring: seq<Pcb>)
    requires ring != [] && forall x :: x in ring ==> x.priority == ring[0].priority
    ensures YieldStep(FromRing(ring)) == FromRing(ring[1..] + [ring[0]])
  {
  }

  /** Processes of one priority take turns: after as many yields as there are
      processes the state is the same again. */
  lemma RoundRobin(s: Sched)
    requires s.running != null
    requires forall x :: x in s.ready ==> x.priority == s.running.priority
    ensures YieldN(s, |s.ready| + 1) == s
  {
    var ring := [s.running] + s.ready;
    RingTurns(ring, s.running.priority, |ring|);
    assert ring[|ring|..] + ring[..|ring|] == ring;
  }

  // ------------------------------------------------------------------ inversion

  /** What a yield dispatches is never outranked by a process of the queue, so at
      most one process, the yielder, can have a strictly smaller number; and the
      choice is best among all exactly when the yielder is not strictly smaller. */
  lemma DispatchOutrankedOnce(s: Sched)
    requires Inv(s) && s.ready != []
    ensures var h := YieldStep(s).running;
            && h != null
            && (forall x :: x in s.ready ==> h.priority <= x.priority)
            && (forall x :: (x in s.ready || x == s.running) && x.priority < h.priority ==> x == s.running)
            && (Favoured(s, h) <==> s.running == null || h.priority <= s.running.priority)
  {
  }

  /** So "the smallest priority number always runs" fails: when `a` yields to a
      larger number `b`, `b` runs while `a` waits. */
  lemma PriorityInversion(a: Pcb, b: Pcb)
    requires a.priority < b.priority
    ensures Inv(Sched(a, [b])) && YieldStep(Sched(a, [b])) == Sched(b, [a]) && !Favoured(Sched(a, [b]), b)
  {
  }

  // ------------------------------------------------------------------- creation

  lemma {:induction false} ExecConcat(s: Sched, a: seq<Op>, b: seq<Op>)
    ensures Exec(s, a + b) == Exec(Exec(s, a), b)
    decreases |a|
  {
    if a == [] {
      assert a + b == b;
    } else {
      var op, rest := a[0], a[1..];
      ExecConcat(Step(s, op), rest, b);
      ExecCons(s, op, rest);
      ExecCons(s, op, rest + b);
      assert a == [op] + rest;
      assert a + b == [op] + (rest + b);
    }
  }

  lemma ExecCons(s: Sched, op: Op, rest: seq<Op>)
    ensures Exec(s, [op] + rest) == Exec(Step(s, op), rest)
  {
    assert ([op] + rest)[1..] == rest;
  }

  function Creates(ps: seq<Pcb>): seq<Op> {
    seq(|ps|, i requires 0 <= i < |ps| => Create(ps[i]))
  }

  /** Creating processes on an empty queue leaves them stably sorted. */
  lemma {:induction false} CreatesSort(running: Pcb?, ps: seq<Pcb>)
    ensures Exec(Sched(running, []), Creates(ps)) == Sched(running, InsertAll(ps))
    ensures StableSortOf(InsertAll(ps), ps)
  {
    InsertAllSorts(ps);
    if ps != [] {
      var init, p := ps[..|ps| - 1], ps[|ps| - 1];
      CreatesSort(running, init);
      assert Creates(ps) == Creates(init) + [Create(p)];
      ExecConcat(Sched(running, []), Creates(init), [Create(p)]);
      ExecOne(Exec(Sched(running, []), Creates(init)), Create(p));
    }
  }

  lemma ExecOne(s: Sched, op: Op)
    ensures Exec(s, [op]) == Step(s, op) && (Enabled(s, op) ==> Legal(s, [op]))
    ensures Yields([op]) == if op.Yield? then 1 else 0
  {
    assert Exec(Step(s, op), [op][1..]) == Step(s, op);
  }

  lemma {:induction false} LegalConcat(s: Sched, a: seq<Op>, b: seq<Op>)
    requires Legal(s, a) && Legal(Exec(s, a), b)
    ensures Legal(s, a + b)
    decreases |a|
  {
    if a == [] {
      assert a + b == b;
    } else {
      var op, rest := a[0], a[1..];
      LegalConcat(Step(s, op), rest, b);
      LegalCons(s, op, rest + b);
      assert a + b == [op] + (rest + b);
    }
  }

  lemma LegalCons(s: Sched, op: Op, rest: seq<Op>)
    ensures Legal(s, [op] + rest) <==> Enabled(s, op) && Legal(Step(s, op), rest)
  {
    assert ([op] + rest)[1..] == rest;
  }

  lemma {:induction false} YieldsConcat(a: seq<Op>, b: seq<Op>)
    ensures Yields(a + b) == Yields(a) + Yields(b)
  {
    if a == [] {
      assert a + b == b;
    } else {
      YieldsConcat(a[1..], b);
      assert (a + b)[1..] == a[1..] + b;
    }
  }
}
