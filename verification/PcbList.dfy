/** The singly linked PCB queues of kernel/pcb.c, changed in place. */
module PcbList {
  import opened CString
  import opened ReadyQueue

  /** Node `i` of the list `q` points at node `i + 1`, the last one at null. */
  ghost predicate LinkAt(q: seq<Pcb>, i: nat)
    requires i < |q|
    reads q
  {
    q[i].next == if i + 1 < |q| then q[i + 1] else null
  }

  /** Following `next` from `head` visits exactly `q` and ends. */
  ghost predicate Chain(head: Pcb?, q: seq<Pcb>)
    reads q
  {
    && head == (if q == [] then null else q[0])
    && forall i :: 0 <= i < |q| ==> LinkAt(q, i)
  }

  ghost function Nodes(q: seq<Pcb>): set<Pcb> {
    set x | x in q
  }

  /** Lines 132-137 of kernel/pcb.c: the last node not to be passed. */
  method LastNotAfter(head: Pcb, priority: int, ghost q: seq<Pcb>) returns (prev: Pcb)
    requires Chain(head, q) && head.priority <= priority
    ensures var k := InsertAt(q, priority); 0 < k && prev == q[k - 1]
  {
    prev := head;
    ghost var j := 0;
    while prev.next != null && priority >= prev.next.priority
      invariant j < |q| && prev == q[j]
      invariant forall i :: 0 <= i <= j ==> q[i].priority <= priority
      decreases |q| - j
    {
      assert LinkAt(q, j);
      prev := prev.next;
      j := j + 1;
    }
    assert LinkAt(q, j);
    InsertAtUnique(q, priority, j + 1);
  }

  /** Lines 140-141: link `p` in behind node `k - 1`. */
  method LinkBehind(prev: Pcb, p: Pcb, ghost head: Pcb, ghost q: seq<Pcb>, ghost k: nat)
    requires Chain(head, q) && Distinct(q) && 0 < k <= |q| && prev == q[k - 1]
    modifies p`next, prev`next
    ensures p !in q ==> Chain(head, q[..k] + [p] + q[k..])
    ensures prev == p ==> p.next == p
    ensures var i := PlaceOf(q, p); i < k - 1 && q[i] == p ==> Chain(head, q[..i + 1] + q[k..])
  {
    forall i | 0 <= i < |q|
      ensures old(LinkAt(q, i))
    {
    }
    p.next := prev.next;
    prev.next := p;
    ghost var w := q[..k] + [p] + q[k..];
    if p !in q {
      forall i | 0 <= i < |w|
        ensures LinkAt(w, i)
      {
        if i < k {
          assert old(LinkAt(q, i));
        } else if i > k {
          assert old(LinkAt(q, i - 1));
        } else {
          assert old(LinkAt(q, k - 1));
        }
      }
    }
    ghost var i := PlaceOf(q, p);
    if i < k - 1 && q[i] == p {
      ghost var v := q[..i + 1] + q[k..];
      forall j | 0 <= j < |v|
        ensures LinkAt(v, j)
      {
        if j < i {
          assert old(LinkAt(q, j));
        } else if j > i {
          assert old(LinkAt(q, j - i - 1 + k));
        } else {
          assert old(LinkAt(q, k - 1));
        }
      }
    }
  }

  /** The first place of `p` in `q`, or |q|. */
  ghost function PlaceOf(q: seq<Pcb>, p: Pcb): (i: nat)
    ensures i <= |q| && (p in q ==> i < |q| && q[i] == p)
  {
    if q == [] || q[0] == p then 0 else 1 + PlaceOf(q[1..], p)
  }

  /** What inserting a PCB that is already on its queue does: when it is the last of
      its priority it becomes its own successor; otherwise the list stays a list
      but loses the equals behind it. */
  ghost predicate InsertedTwice(head: Pcb?, q: seq<Pcb>, p: Pcb)
    reads p, q
  {
    var i, k := PlaceOf(q, p), InsertAt(q, p.priority);
    i < k && if i + 1 == k then p.next == p else Chain(head, q[..i + 1] + q[k..])
  }

  /** Lines 128-142 of kernel/pcb.c. */
  method InsertInto(head: Pcb?, p: Pcb, ghost q: seq<Pcb>) returns (newHead: Pcb)
    requires Chain(head, q) && Distinct(q) && Sorted(q)
    modifies p`next, Nodes(q)`next
    ensures p !in q ==> Chain(newHead, StableInsert(q, p))
    ensures p in q ==> newHead == head && InsertedTwice(head, q, p)
  {
    if head == null || p.priority < head.priority {
      p.next := head;
      newHead := p;
      InsertAhead(q, p);
      ghost var w := StableInsert(q, p);
      forall i | 0 <= i < |w|
        ensures LinkAt(w, i)
      {
        if i > 0 { assert old(LinkAt(q, i - 1)); }
      }
      return;
    }
    newHead := head;
    var prev := LastNotAfter(head, p.priority, q);
    LinkBehind(prev, p, head, q, InsertAt(q, p.priority));
    if p in q {
      PlaceBefore(q, p);
    }
  }

  /** A queued process stands before the place a new one of its priority gets. */
  lemma PlaceBefore(q: seq<Pcb>, p: Pcb)
    requires Sorted(q) && p in q
    ensures PlaceOf(q, p) < InsertAt(q, p.priority)
  {
  }

  /** Lines 151-172 (and 175-196) of kernel/pcb.c: unlink `p` when it is on the list. */
  method RemoveFrom(head: Pcb?, p: Pcb, ghost q: seq<Pcb>) returns (newHead: Pcb?, found: bool)
    requires Chain(head, q) && Distinct(q)
    modifies Nodes(q)`next
    ensures found <==> p in q
    ensures Chain(newHead, Remove(q, p))
    ensures p.next == old(p.next)
  {
    newHead := head;
    var current := head;
    if current == p {
      newHead := current.next;
      assert LinkAt(q, 0);
      forall i | 0 <= i < |q[1..]|
        ensures LinkAt(q[1..], i)
      {
        assert LinkAt(q, i + 1);
      }
      return newHead, true;
    }
    ghost var j := 0;
    while current != null && current.next != p
      invariant j <= |q| && current == (if j < |q| then q[j] else null)
      invariant p !in q[..j] && (j < |q| ==> q[j] != p)
      decreases |q| - j
    {
      assert LinkAt(q, j);
      current := current.next;
      j := j + 1;
    }
    if current == null {
      assert q[..j] == q;
      RemoveAbsent(q, p);
      return newHead, false;
    }
    assert LinkAt(q, j) && LinkAt(q, j + 1);
    RemoveAt(q, j + 1);
    current.next := p.next;
    ghost var w := Remove(q, p);
    forall i | 0 <= i < |w|
      ensures LinkAt(w, i)
    {
      if i <= j { assert old(LinkAt(q, i)); } else { assert old(LinkAt(q, i + 1)); }
    }
    return newHead, true;
  }

  /** A queue: a list sorted by priority whose PCBs are in state `a` or `b`. */
  ghost predicate Queue(head: Pcb?, q: seq<Pcb>, a: int, b: int)
    reads q
  {
    Chain(head, q) && Sorted(q) && Distinct(q) && forall x :: x in q ==> x.state == a || x.state == b
  }

  /** What `pcb_insert` makes of a queue: it gains `p` in its place, or is spoilt
      when it holds `p` already. */
  ghost predicate Joined(p: Pcb, head: Pcb?, newHead: Pcb?, q: seq<Pcb>, a: int, b: int)
    reads p, q
  {
    if p in q then newHead == head && InsertedTwice(head, q, p)
    else Queue(newHead, StableInsert(q, p), a, b)
  }

  method Join(head: Pcb?, p: Pcb, ghost q: seq<Pcb>, ghost a: int, ghost b: int) returns (newHead: Pcb)
    requires Queue(head, q, a, b) && (p.state == a || p.state == b)
    modifies p`next, Nodes(q)`next
    ensures Joined(p, head, newHead, q, a, b)
  {
    if p !in q {
      InsertSorted(q, p);
      InsertDistinct(q, p);
      InsertMembers(q, p);
    }
    newHead := InsertInto(head, p, q);
  }

  lemma InsertNodes(q: seq<Pcb>, p: Pcb)
    ensures Nodes(StableInsert(q, p)) == Nodes(q) + {p}
  {
    InsertMembers(q, p);
  }

  /** The three queues, by state, on disjoint nodes. */
  ghost predicate Three(head: Pcb?, q: seq<Pcb>, a: int, b: int, h1: Pcb?, q1: seq<Pcb>, a1: int, b1: int,
                        h2: Pcb?, q2: seq<Pcb>, a2: int, b2: int)
    reads q, q1, q2
  {
    && Queue(head, q, a, b) && Queue(h1, q1, a1, b1) && Queue(h2, q2, a2, b2)
    && Nodes(q) !! Nodes(q1) && Nodes(q) !! Nodes(q2)
  }

  /** Joining one queue leaves two others alone that hold other states. */
  method JoinBeside(head: Pcb?, p: Pcb, ghost q: seq<Pcb>, ghost a: int, ghost b: int,
                    ghost h1: Pcb?, ghost q1: seq<Pcb>, ghost a1: int, ghost b1: int,
                    ghost h2: Pcb?, ghost q2: seq<Pcb>, ghost a2: int, ghost b2: int) returns (newHead: Pcb)
    requires Three(head, q, a, b, h1, q1, a1, b1, h2, q2, a2, b2)
    requires (p.state == a || p.state == b) && p.state !in {a1, b1, a2, b2}
    modifies p`next, Nodes(q)`next
    ensures Joined(p, head, newHead, q, a, b) && Queue(h1, q1, a1, b1) && Queue(h2, q2, a2, b2)
  {
    newHead := Join(head, p, q, a, b);
  }

  method Leave(head: Pcb?, p: Pcb, ghost q: seq<Pcb>, ghost a: int, ghost b: int) returns (newHead: Pcb?, found: bool)
    requires Queue(head, q, a, b)
    modifies Nodes(q)`next
    ensures Queue(newHead, Remove(q, p), a, b)
    ensures found <==> p in q
    ensures p !in q ==> Remove(q, p) == q
    ensures Nodes(Remove(q, p)) == Nodes(q) - {p}
    ensures p.next == old(p.next)
  {
    RemoveSorted(q, p);
    RemoveDistinct(q, p);
    RemoveMembers(q, p);
    RemoveAbsent(q, p);
    newHead, found := RemoveFrom(head, p, q);
  }

  /** The first node of the list whose name is `name`. */
  method FindIn(head: Pcb?, name: string, ghost q: seq<Pcb>) returns (r: Pcb?)
    requires Chain(head, q) && NUL !in name
    ensures r == FirstNamed(q, name)
  {
    r := head;
    ghost var j := 0;
    while r != null
      invariant j <= |q| && r == (if j < |q| then q[j] else null)
      invariant FirstNamed(q, name) == FirstNamed(q[j..], name)
      decreases |q| - j
    {
      assert LinkAt(q, j);
      var difference := Strcmp(name, r.name);
      if difference == 0 {
        return;
      }
      assert q[j..][1..] == q[j + 1..];
      r := r.next;
      j := j + 1;
    }
  }

  /** The first process of that name, or null. */
  function FirstNamed(q: seq<Pcb>, name: string): (r: Pcb?)
    ensures r != null ==> r in q && r.name == name
    ensures r == null <==> forall x :: x in q ==> x.name != name
  {
    if q == [] then null else if q[0].name == name then q[0] else FirstNamed(q[1..], name)
  }

  /** Searching two lists in turn is searching their concatenation. */
  lemma {:induction false} FirstNamedConcat(a: seq<Pcb>, b: seq<Pcb>, name: string)
    ensures FirstNamed(a + b, name) ==
            if FirstNamed(a, name) != null then FirstNamed(a, name) else FirstNamed(b, name)
  {
    if a == [] {
      assert a + b == b;
    } else {
      FirstNamedConcat(a[1..], b, name);
      assert (a + b)[1..] == a[1..] + b;
    }
  }
}
