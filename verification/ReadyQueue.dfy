/** The priority queue discipline of kernel/pcb.c on sequences: stable insertion
    by priority number (smaller runs first), and its characterisation as a stable
    sort. */
module ReadyQueue {

  const READY_STATE: int := 1
  const BLOCKED_STATE: int := 0
  const SUSPENDED_STATE: int := -1
  const RESUME_STATE: int := 3

  /** The text of a C string: no NUL inside. */
  type CText = s: string | '\0' !in s

  /** A process control block (include/mpx/pcb.h). The fields `pcb_setup` fixes
      are constants; the others change. */
  class Pcb {
    const name: CText
    const isSystem: bool
    const priority: int
    var state: int
    /** Position of the saved context. */
    var stackTop: nat
    var next: Pcb?

    constructor (name: CText, isSystem: bool, priority: int, stackTop: nat)
      ensures this.name == name && this.isSystem == isSystem && this.priority == priority
      ensures state == READY_STATE && this.stackTop == stackTop && next == null
    {
      this.name := name;
      this.isSystem := isSystem;
      this.priority := priority;
      this.state := READY_STATE;
      this.stackTop := stackTop;
      this.next := null;
    }
  }

  ghost predicate Sorted(q: seq<Pcb>) {
    forall i, j :: 0 <= i < j < |q| ==> q[i].priority <= q[j].priority
  }

  ghost predicate Distinct(q: seq<Pcb>) {
    forall i, j :: 0 <= i < j < |q| ==> q[i] != q[j]
  }

  /** Index of the first element that must come after a new `priority`. */
  function InsertAt(q: seq<Pcb>, priority: int): (k: nat)
    ensures k <= |q|
    ensures forall i :: 0 <= i < k ==> q[i].priority <= priority
    ensures k < |q| ==> priority < q[k].priority
  {
    if q == [] || priority < q[0].priority then 0 else 1 + InsertAt(q[1..], priority)
  }

  /** The queue after `p` joins behind its equals. */
  function StableInsert(q: seq<Pcb>, p: Pcb): seq<Pcb> {
    var k := InsertAt(q, p.priority);
    q[..k] + [p] + q[k..]
  }

  /** The queue without the first occurrence of `p`. */
  function Remove(q: seq<Pcb>, p: Pcb): seq<Pcb> {
    if q == [] then [] else if q[0] == p then q[1..] else [q[0]] + Remove(q[1..], p)
  }

  lemma InsertAtUnique(q: seq<Pcb>, priority: int, k: nat)
    requires k <= |q| && (forall i :: 0 <= i < k ==> q[i].priority <= priority)
    requires k < |q| ==> priority < q[k].priority
    ensures InsertAt(q, priority) == k
  {
  }

  lemma InsertSorted(q: seq<Pcb>, p: Pcb)
    requires Sorted(q)
    ensures Sorted(StableInsert(q, p))
  {
  }

  lemma InsertDistinct(q: seq<Pcb>, p: Pcb)
    requires Distinct(q) && p !in q
    ensures Distinct(StableInsert(q, p))
  {
  }

  lemma InsertMembers(q: seq<Pcb>, p: Pcb)
    ensures forall x :: x in StableInsert(q, p) <==> x == p || x in q
  {
  }

  lemma {:induction false} RemoveAt(q: seq<Pcb>, k: nat)
    requires k < |q| && Distinct(q)
    ensures Remove(q, q[k]) == q[..k] + q[k + 1..]
  {
    if k > 0 {
      RemoveAt(q[1..], k - 1);
      assert q[..k] == [q[0]] + q[1..][..k - 1];
    }
  }

  lemma {:induction false} RemoveMembers(q: seq<Pcb>, p: Pcb)
    requires Distinct(q)
    ensures forall x :: x in Remove(q, p) <==> x != p && x in q
  {
    if q != [] {
      assert q == [q[0]] + q[1..];
      RemoveMembers(q[1..], p);
    }
  }

  lemma {:induction false} RemoveDistinct(q: seq<Pcb>, p: Pcb)
    requires Distinct(q)
    ensures Distinct(Remove(q, p))
  {
    if q != [] && q[0] != p {
      RemoveDistinct(q[1..], p);
      RemoveMembers(q[1..], p);
      var rest := Remove(q[1..], p);
      assert q[0] !in q[1..];
      forall i, j | 0 <= i < j < |rest| + 1
        ensures ([q[0]] + rest)[i] != ([q[0]] + rest)[j]
      {
        assert rest[j - 1] in rest;
      }
    }
  }

  lemma {:induction false} RemoveSorted(q: seq<Pcb>, p: Pcb)
    requires Sorted(q)
    ensures Sorted(Remove(q, p))
    ensures forall x :: x in Remove(q, p) ==> x in q
  {
    if q != [] && q[0] != p {
      RemoveSorted(q[1..], p);
      var rest := Remove(q[1..], p);
      forall i, j | 0 <= i < j < |rest| + 1
        ensures ([q[0]] + rest)[i].priority <= ([q[0]] + rest)[j].priority
      {
        assert rest[j - 1] in rest;
      }
    }
  }

  /** Re-inserting `r` and then removing the old head is inserting into the tail,
      even when `r` lands ahead of that head. */
  lemma InsertThenRemoveHead(q: seq<Pcb>, r: Pcb)
    requires q != [] && Sorted(q) && Distinct(q) && r !in q
    ensures Remove(StableInsert(q, r), q[0]) == StableInsert(q[1..], r)
  {
  }

  lemma InsertAhead(q: seq<Pcb>, r: Pcb)
    requires q == [] || r.priority < q[0].priority
    ensures StableInsert(q, r) == [r] + q
  {
  }

  // ------------------------------------------------------------- stable sorting

  /** The subsequence of one priority. */
  function WithPriority(q: seq<Pcb>, priority: int): seq<Pcb> {
    if q == [] then []
    else if q[0].priority == priority then [q[0]] + WithPriority(q[1..], priority)
    else WithPriority(q[1..], priority)
  }

  /** `out` is `input` sorted by priority, equals kept in input order. */
  ghost predicate StableSortOf(out: seq<Pcb>, input: seq<Pcb>) {
    Sorted(out) && forall priority :: WithPriority(out, priority) == WithPriority(input, priority)
  }

  /** Insert all of `input`, first to last, into an empty queue. */
  function InsertAll(input: seq<Pcb>): seq<Pcb> {
    if input == [] then [] else StableInsert(InsertAll(input[..|input| - 1]), input[|input| - 1])
  }

  lemma {:induction false} WithPriorityConcat(a: seq<Pcb>, b: seq<Pcb>, priority: int)
    ensures WithPriority(a + b, priority) == WithPriority(a, priority) + WithPriority(b, priority)
  {
    if a == [] {
      assert a + b == b;
    } else {
      WithPriorityConcat(a[1..], b, priority);
      assert (a + b)[1..] == a[1..] + b;
    }
  }

  lemma {:induction false} NoneWithPriority(q: seq<Pcb>, priority: int)
    requires forall x :: x in q ==> x.priority != priority
    ensures WithPriority(q, priority) == []
  {
    if q != [] {
      assert q == [q[0]] + q[1..];
      NoneWithPriority(q[1..], priority);
    }
  }

  lemma InsertWithPriority(q: seq<Pcb>, p: Pcb, priority: int)
    requires Sorted(q)
    ensures WithPriority(StableInsert(q, p), priority) == WithPriority(q + [p], priority)
  {
    var k := InsertAt(q, p.priority);
    var lo, hi := q[..k], q[k..];
    assert WithPriority(hi, priority) == [] || WithPriority([p], priority) == [] by {
      TailAbove(q, p.priority);
      if priority == p.priority { NoneWithPriority(hi, priority); }
    }
    SwapTail(lo, hi, p, priority);
    assert q == lo + hi;
  }

  lemma TailAbove(q: seq<Pcb>, priority: int)
    requires Sorted(q)
    ensures forall x :: x in q[InsertAt(q, priority)..] ==> priority < x.priority
  {
  }

  /** Equals are not reordered when `p` passes a run without its priority. */
  lemma SwapTail(lo: seq<Pcb>, hi: seq<Pcb>, p: Pcb, priority: int)
    requires WithPriority(hi, priority) == [] || WithPriority([p], priority) == []
    ensures WithPriority(lo + [p] + hi, priority) == WithPriority(lo + hi + [p], priority)
  {
    WithPriorityConcat(lo + [p], hi, priority);
    WithPriorityConcat(lo, [p], priority);
    WithPriorityConcat(lo + hi, [p], priority);
    WithPriorityConcat(lo, hi, priority);
  }

  /** Inserting any sequence into an empty queue gives its stable sort. */
  lemma {:induction false} InsertAllSorts(input: seq<Pcb>)
    ensures StableSortOf(InsertAll(input), input)
  {
    if input != [] {
      var init, p := input[..|input| - 1], input[|input| - 1];
      InsertAllSorts(init);
      InsertSorted(InsertAll(init), p);
      assert input == init + [p];
      forall priority
        ensures WithPriority(InsertAll(input), priority) == WithPriority(input, priority)
      {
        InsertWithPriority(InsertAll(init), p, priority);
        WithPriorityConcat(InsertAll(init), [p], priority);
        WithPriorityConcat(init, [p], priority);
      }
    }
  }

  lemma {:induction false} HasPriority(q: seq<Pcb>, priority: int)
    ensures WithPriority(q, priority) != [] ==> exists i :: 0 <= i < |q| && q[i].priority == priority
  {
    if q != [] {
      HasPriority(q[1..], priority);
      if WithPriority(q[1..], priority) != [] {
        var i :| 0 <= i < |q| - 1 && q[1..][i].priority == priority;
        assert q[i + 1].priority == priority;
      }
    }
  }

  lemma HeadFirst(q: seq<Pcb>)
    ensures q != [] ==> WithPriority(q, q[0].priority) != [] && WithPriority(q, q[0].priority)[0] == q[0]
  {
  }

  /** There is only one stable sort. */
  lemma {:induction false} StableSortUnique(a: seq<Pcb>, b: seq<Pcb>)
    requires Sorted(a) && Sorted(b)
    requires forall priority :: WithPriority(a, priority) == WithPriority(b, priority)
    ensures a == b
    decreases |a|
  {
    HeadFirst(a);
    HeadFirst(b);
    if a != [] {
      HasPriority(b, a[0].priority);
      HasPriority(a, b[0].priority);
      var priority := a[0].priority;
      assert b[0].priority == priority;
      forall other
        ensures WithPriority(a[1..], other) == WithPriority(b[1..], other)
      {
        if other == priority {
          assert WithPriority(a[1..], other) == WithPriority(a, other)[1..];
          assert WithPriority(b[1..], other) == WithPriority(b, other)[1..];
        } else {
          assert WithPriority(a, other) == WithPriority(b, other);
        }
      }
      StableSortUnique(a[1..], b[1..]);
      assert a == [a[0]] + a[1..] && b == [b[0]] + b[1..];
    }
  }

  lemma {:induction false} RemoveWithPriority(q: seq<Pcb>, p: Pcb, priority: int)
    ensures WithPriority(Remove(q, p), priority) == Remove(WithPriority(q, priority), p)
  {
    if q != [] {
      RemoveWithPriority(q[1..], p, priority);
      if q[0] == p {
        if p.priority != priority {
          RemoveAbsent(WithPriority(q[1..], priority), p);
          AllHavePriority(q[1..], priority);
        }
      } else {
        var rest := [q[0]] + Remove(q[1..], p);
        assert rest[1..] == Remove(q[1..], p);
        var same := [q[0]] + WithPriority(q[1..], priority);
        assert same[1..] == WithPriority(q[1..], priority);
      }
    }
  }

  lemma {:induction false} AllHavePriority(q: seq<Pcb>, priority: int)
    ensures forall x :: x in WithPriority(q, priority) ==> x.priority == priority
  {
    if q != [] { AllHavePriority(q[1..], priority); }
  }

  lemma {:induction false} RemoveAbsent(q: seq<Pcb>, p: Pcb)
    ensures p !in q ==> Remove(q, p) == q
  {
    if q != [] && p !in q {
      RemoveAbsent(q[1..], p);
      assert q == [q[0]] + q[1..];
    }
  }

  /** Removing a process from the queue of `input` leaves the stable sort of the
      rest of `input`. */
  lemma RemoveIsStableSort(input: seq<Pcb>, p: Pcb)
    requires Distinct(input) && p in input
    ensures StableSortOf(Remove(InsertAll(input), p), Remove(input, p))
    ensures Remove(InsertAll(input), p) == InsertAll(Remove(input, p))
  {
    InsertAllSorts(input);
    InsertAllSorts(Remove(input, p));
    RemoveSorted(InsertAll(input), p);
    forall priority
      ensures WithPriority(Remove(InsertAll(input), p), priority) == WithPriority(Remove(input, p), priority)
    {
      RemoveWithPriority(InsertAll(input), p, priority);
      RemoveWithPriority(input, p, priority);
    }
    StableSortUnique(Remove(InsertAll(input), p), InsertAll(Remove(input, p)));
  }
}
