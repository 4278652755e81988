/** kernel/pcb.c and the IDLE path of kernel/sys_call.c: the kernel's globals and
    the calls that change them, proved to refine the pure scheduler. */
module Scheduler {
  import opened CString
  import opened ReadyQueue
  import opened PcbList
  import opened SchedulerRuns

  const MAX_NAME_LEN: nat := 50
  const MIN_NAME_LEN: nat := 2
  /** A null `struct context *`. */
  const NO_CONTEXT: nat := 0

  predicate ValidArguments(name: string, class_: int, priority: int) {
    0 <= priority <= 9 && (class_ == 0 || class_ == 1) && MIN_NAME_LEN <= |name| <= MAX_NAME_LEN
  }

  /** With the processes `q` in the queues it searches, `pcb_setup` succeeds. */
  ghost predicate Creatable(q: seq<Pcb>, name: string, class_: int, priority: int) {
    ValidArguments(name, class_, priority) && forall x :: x in q ==> x.name != name
  }

  lemma CreatableIs(q: seq<Pcb>, name: string, class_: int, priority: int)
    ensures Creatable(q, name, class_, priority) <==>
            && 0 <= priority <= 9 && (class_ == 0 || class_ == 1) && 2 <= |name| <= 50
            && forall x :: x in q ==> x.name != name
  {
  }

  class Kernel {
    var readyHead: Pcb?
    var suspendedHead: Pcb?
    var blockedHead: Pcb?
    /** `global_pcb`. */
    var running: Pcb?
    var initialContext: nat
    ghost var ready: seq<Pcb>
    ghost var suspended: seq<Pcb>
    ghost var blocked: seq<Pcb>

    ghost function Queued(): set<Pcb>
      reads this
    {
      Nodes(ready) + Nodes(suspended) + Nodes(blocked)
    }

    /** The three queues are acyclic, disjoint lists, sorted by priority, and a
        PCB is in the queue its state names. */
    ghost predicate Queues()
      reads this, Queued()
    {
      && Queue(readyHead, ready, READY_STATE, RESUME_STATE)
      && Queue(suspendedHead, suspended, SUSPENDED_STATE, SUSPENDED_STATE)
      && Queue(blockedHead, blocked, BLOCKED_STATE, BLOCKED_STATE)
      && Nodes(ready) !! Nodes(suspended) !! Nodes(blocked)
    }

    ghost predicate Valid()
      reads this, Queued()
    {
      Queues() && running !in Queued()
    }

    ghost function AsSched(): Sched
      reads this
    {
      Sched(running, ready)
    }

    constructor ()
      ensures Valid() && AsSched() == Sched(null, []) && suspended == [] && blocked == []
      ensures initialContext == NO_CONTEXT
    {
      readyHead, suspendedHead, blockedHead, running := null, null, null, null;
      initialContext := NO_CONTEXT;
      ready, suspended, blocked := [], [], [];
    }

    method ReadyJoin(p: Pcb)
      requires Queues() && (p.state == READY_STATE || p.state == RESUME_STATE)
      modifies this`readyHead, p`next, Nodes(ready)`next
      ensures Joined(p, old(readyHead), readyHead, ready, READY_STATE, RESUME_STATE)
      ensures Queue(suspendedHead, suspended, SUSPENDED_STATE, SUSPENDED_STATE)
      ensures Queue(blockedHead, blocked, BLOCKED_STATE, BLOCKED_STATE)
    {
      readyHead := JoinBeside(readyHead, p, ready, READY_STATE, RESUME_STATE,
                              suspendedHead, suspended, SUSPENDED_STATE, SUSPENDED_STATE,
                              blockedHead, blocked, BLOCKED_STATE, BLOCKED_STATE);
    }

    method SuspendedJoin(p: Pcb)
      requires Queues() && p.state == SUSPENDED_STATE
      modifies this`suspendedHead, p`next, Nodes(suspended)`next
      ensures Joined(p, old(suspendedHead), suspendedHead, suspended, SUSPENDED_STATE, SUSPENDED_STATE)
      ensures Queue(readyHead, ready, READY_STATE, RESUME_STATE)
      ensures Queue(blockedHead, blocked, BLOCKED_STATE, BLOCKED_STATE)
    {
      suspendedHead := JoinBeside(suspendedHead, p, suspended, SUSPENDED_STATE, SUSPENDED_STATE,
                              readyHead, ready, READY_STATE, RESUME_STATE,
                              blockedHead, blocked, BLOCKED_STATE, BLOCKED_STATE);
    }

    method BlockedJoin(p: Pcb)
      requires Queues() && p.state == BLOCKED_STATE
      modifies this`blockedHead, p`next, Nodes(blocked)`next
      ensures Joined(p, old(blockedHead), blockedHead, blocked, BLOCKED_STATE, BLOCKED_STATE)
      ensures Queue(readyHead, ready, READY_STATE, RESUME_STATE)
      ensures Queue(suspendedHead, suspended, SUSPENDED_STATE, SUSPENDED_STATE)
    {
      blockedHead := JoinBeside(blockedHead, p, blocked, BLOCKED_STATE, BLOCKED_STATE,
                              readyHead, ready, READY_STATE, RESUME_STATE,
                              suspendedHead, suspended, SUSPENDED_STATE, SUSPENDED_STATE);
    }

    /** `pcb_insert`: by state into one of the queues, or nowhere. That queue gains
        the PCB in its place, or is spoilt when it holds the PCB already; the other
        queues stay what they are. */
    method PcbInsert(p: Pcb)
      requires Queues()
      modifies this`readyHead, this`suspendedHead, this`blockedHead, p`next, Queued()`next
      ensures if p.state == 1 || p.state == 3
              then Joined(p, old(readyHead), readyHead, ready, READY_STATE, RESUME_STATE)
              else Queue(readyHead, ready, READY_STATE, RESUME_STATE)
      ensures if p.state == -1
              then Joined(p, old(suspendedHead), suspendedHead, suspended, SUSPENDED_STATE, SUSPENDED_STATE)
              else Queue(suspendedHead, suspended, SUSPENDED_STATE, SUSPENDED_STATE)
      ensures if p.state == 0
              then Joined(p, old(blockedHead), blockedHead, blocked, BLOCKED_STATE, BLOCKED_STATE)
              else Queue(blockedHead, blocked, BLOCKED_STATE, BLOCKED_STATE)
    {
      if p.state == READY_STATE || p.state == RESUME_STATE {
        ReadyJoin(p);
      } else if p.state == SUSPENDED_STATE {
        SuspendedJoin(p);
      } else if p.state == BLOCKED_STATE {
        BlockedJoin(p);
      }
    }

    /** `pcb_insert` of a ready PCB that is on no queue keeps all three queues. */
    method Admit(p: Pcb)
      requires Queues() && p !in Queued() && p.state == READY_STATE
      modifies this`readyHead, this`suspendedHead, this`blockedHead, this`ready, p`next, Queued()`next
      ensures Queues() && ready == StableInsert(old(ready), p) && Queued() == old(Queued()) + {p}
    {
      InsertNodes(ready, p);
      PcbInsert(p);
      ready := StableInsert(ready, p);
    }

    /** `pcb_remove`: by state from the ready or the suspended queue; PCB_SUCCESS
        is `ok`. A blocked PCB is never removed. */
    method PcbRemove(p: Pcb?) returns (ok: bool)
      requires Queues()
      modifies this`readyHead, this`suspendedHead, this`ready, this`suspended, Queued()`next
      ensures Queues()
      ensures ok <==> p in old(ready) || p in old(suspended)
      ensures ready == if p != null && p in old(ready) then Remove(old(ready), p) else old(ready)
      ensures suspended == if p != null && p in old(suspended) then Remove(old(suspended), p) else old(suspended)
    {
      if p == null {
        return false;
      }
      if p.state == READY_STATE || p.state == RESUME_STATE {
        readyHead, ok := Leave(readyHead, p, ready, READY_STATE, RESUME_STATE);
        ready := Remove(ready, p);
      } else if p.state == SUSPENDED_STATE {
        suspendedHead, ok := Leave(suspendedHead, p, suspended, SUSPENDED_STATE, SUSPENDED_STATE);
        suspended := Remove(suspended, p);
      } else {
        ok := false;
      }
    }
  
    /** Lines 62-69 of kernel/sys_call.c: the yielder's context is saved and it
        joins the ready queue. */
    method Requeue(ctx: nat)
      requires Valid() && running != null
      modifies this`readyHead, this`suspendedHead, this`blockedHead, this`ready, this`suspended, this`blocked
      modifies running, Queued()`next
      ensures Queues() && ready == StableInsert(old(ready), running) && Queued() <= old(Queued()) + {running}
      ensures suspended == old(suspended) && blocked == old(blocked)
      ensures running.stackTop == ctx && running.state == READY_STATE
    {
      running.stackTop := ctx;
      running.state := READY_STATE;
      Admit(running);
    }

    /** Lines 104-108: take `h` off the ready queue and run it. */
    method Dispatch(h: Pcb) returns (ctx: nat)
      requires Queues() && h in ready
      modifies this`readyHead, this`suspendedHead, this`ready, this`suspended, this`running
      modifies h`state, Queued()`next
      ensures Valid() && ready == Remove(old(ready), h) && running == h
      ensures suspended == old(suspended) && blocked == old(blocked)
      ensures h.next == null && h.state == READY_STATE && ctx == h.stackTop
      ensures forall x :: x in old(ready) ==> x.stackTop == old(x.stackTop)
    {
      running := h;
      var ok := PcbRemove(h);
      RemoveMembers(old(ready), h);
      h.next := null;
      running.state := READY_STATE;
      ctx := running.stackTop;
    }

    /** The yielder joins the queue, then the old head `h` leaves it. */
    method SwitchTo(h: Pcb, ctx: nat) returns (r: nat)
      requires Valid() && running != null && h in ready
      modifies this`readyHead, this`suspendedHead, this`blockedHead, this`ready, this`suspended, this`blocked
      modifies this`running, running, h`state, Queued()`next
      ensures Valid() && ready == Remove(StableInsert(old(ready), old(running)), h) && running == h
      ensures suspended == old(suspended) && blocked == old(blocked)
      ensures old(running).stackTop == ctx && r == old(h.stackTop)
      ensures forall x :: x in old(ready) ==> x.stackTop == old(x.stackTop)
    {
      assert h in Queued();
      InsertMembers(ready, running);
      Requeue(ctx);
      r := Dispatch(h);
    }

    /** Lines 62-75 and 97-109, with `h` the head on entry. */
    method YieldTo(h: Pcb, ctx: nat) returns (r: nat)
      requires Valid() && ready != [] && h == ready[0]
      modifies this`readyHead, this`suspendedHead, this`blockedHead, this`ready, this`suspended, this`blocked
      modifies this`running, running, h`state, Queued()`next
      ensures Valid() && AsSched() == YieldStep(old(AsSched()))
      ensures suspended == old(suspended) && blocked == old(blocked)
      ensures old(running) != null ==> old(running).stackTop == ctx
      ensures r == old(h.stackTop) && forall x :: x in old(ready) ==> x.stackTop == old(x.stackTop)
    {
      YieldIsInsertThenRemove(AsSched());
      if running != null {
        r := SwitchTo(h, ctx);
      } else {
        r := Dispatch(h);
      }
    }

    /** Lines 52-55: the first caller's context is remembered. */
    method NoteInitial(ctx: nat)
      requires Valid()
      modifies `initialContext
      ensures Valid()
      ensures initialContext == if old(initialContext) == NO_CONTEXT then ctx else old(initialContext)
    {
      if initialContext == NO_CONTEXT {
        initialContext := ctx;
      }
    }

    /** `sys_call` with `eax == IDLE`: equals the pure yield step, saves the
        yielder's context and returns the context the dispatched process saved. */
    method SysCallIdle(ctx: nat) returns (r: nat)
      requires Valid()
      modifies this, running, Queued()
      ensures Valid() && AsSched() == YieldStep(old(AsSched()))
      ensures suspended == old(suspended) && blocked == old(blocked)
      ensures initialContext == if old(initialContext) == NO_CONTEXT then ctx else old(initialContext)
      ensures old(ready) == [] ==> r == ctx
      ensures old(ready) != [] ==> r == old(ready[0].stackTop)
      ensures old(ready) != [] && old(running) != null ==> old(running).stackTop == ctx
      ensures forall x :: x in old(ready) ==> x.stackTop == old(x.stackTop)
    {
      var h := readyHead;
      NoteInitial(ctx);
      if h == null {
        return ctx;
      }
      r := YieldTo(h, ctx);
    }

    /** `pcb_find`: the first name match of the ready queue followed by the
        suspended queue. `reported` says that the system call WRITE is made, which
        happens when a nonempty suspended queue has been searched in vain. */
    method PcbFind(name: string) returns (r: Pcb?, reported: bool)
      requires Queues() && NUL !in name
      ensures r == FirstNamed(ready + suspended, name)
      ensures reported <==> r == null && suspended != []
    {
      FirstNamedConcat(ready, suspended, name);
      r := FindIn(readyHead, name, ready);
      reported := false;
      if r == null {
        r := FindIn(suspendedHead, name, suspended);
        reported := r == null && suspendedHead != null;
      }
    }

    /** `pcb_setup`: a new PCB exactly when there is memory for one, the arguments
        are valid and the name is not on the ready or suspended queue; `stackTop` is
        where its initial context goes. `reported` is as for `PcbFind`. */
    method PcbSetup(memory: bool, name: string, class_: int, priority: int, stackTop: nat)
      returns (p: Pcb?, reported: bool)
      requires Queues() && NUL !in name
      ensures p != null <==>
              && memory && 0 <= priority <= 9 && (class_ == 0 || class_ == 1) && 2 <= |name| <= 50
              && forall x :: x in ready + suspended ==> x.name != name
      ensures p != null <==> memory && Creatable(ready + suspended, name, class_, priority)
      ensures reported <==>
              || !memory
              || (0 <= priority <= 9 && (class_ == 0 || class_ == 1) && 2 <= |name| <= 50
                  && (p == null || suspended != []))
      ensures p != null ==> fresh(p) && p.name == name && p.priority == priority && p.isSystem == (class_ == 0)
      ensures p != null ==> p.state == 1 && p.stackTop == stackTop && p.next == null
    {
      if !memory {
        return null, true;
      }
      if priority < 0 || priority > 9 {
        return null, false;
      }
      if class_ != 1 && class_ != 0 {
        return null, false;
      }
      if |name| < MIN_NAME_LEN || |name| > MAX_NAME_LEN {
        return null, false;
      }
      var found;
      found, reported := PcbFind(name);
      if found != null {
        return null, true;
      }
      p := new Pcb(name, class_ == 0, priority, stackTop);
    }

    /** Creating a process: `pcb_setup` then `pcb_insert` is a `Create` step. */
    method CreateProcess(memory: bool, name: string, class_: int, priority: int, stackTop: nat) returns (p: Pcb?)
      requires Valid() && NUL !in name
      modifies this`readyHead, this`suspendedHead, this`blockedHead, this`ready, this`suspended, this`blocked
      modifies Queued()`next
      ensures Valid()
      ensures p != null <==> memory && Creatable(old(ready + suspended), name, class_, priority)
      ensures p == null ==> AsSched() == old(AsSched())
      ensures p != null ==> p.name == name && p.priority == priority && p.isSystem == (class_ == 0)
      ensures p != null ==> p.stackTop == stackTop && p.state == READY_STATE
      ensures suspended == old(suspended) && blocked == old(blocked)
      ensures p != null ==> fresh(p) && Enabled(old(AsSched()), Create(p))
      ensures p != null ==> AsSched() == Step(old(AsSched()), Create(p))
      ensures forall x :: x in old(ready) ==> x.stackTop == old(x.stackTop)
    {
      var reported;
      p, reported := PcbSetup(memory, name, class_, priority, stackTop);
      if p != null {
        Admit(p);
        InsertMembers(old(ready), p);
      }
    }

    /** The part of the delete command after the name is read
        (user/commhand.c:276-295): a ready user process leaves the queue. */
    method DeletePcb(name: string) returns (ok: bool)
      requires Valid() && NUL !in name
      modifies this`readyHead, this`suspendedHead, this`ready, this`suspended, Queued()`next
      ensures Valid()
      ensures var victim := old(FirstNamed(ready + suspended, name));
              && (ok <==> victim != null && !victim.isSystem)
              && (!ok || victim !in old(ready) ==> AsSched() == old(AsSched()))
              && suspended == (if ok && victim in old(suspended) then Remove(old(suspended), victim)
                               else old(suspended))
              && (ok && victim in old(ready) ==>
                    Enabled(old(AsSched()), Delete(victim)) && AsSched() == Step(old(AsSched()), Delete(victim)))
    {
      var found, reported := PcbFind(name);
      if found == null || found.isSystem {
        return false;
      }
      ok := PcbRemove(found);
      RemoveMembers(old(ready), found);
      RemoveMembers(old(suspended), found);
    }
  }

  /** Every PCB the kernel's globals reach. */
  ghost function Reached(k: Kernel): set<Pcb>
    reads k
  {
    k.Queued() + if k.running == null then {} else {k.running}
  }
}
