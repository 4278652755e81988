/** Yields from the interrupt to the `iret`: `sys_call_isr` pushes the frame,
    `sys_call` makes the scheduler's step, and the frame it returns is popped. Then
    whole runs of processes that compute and yield, on the processor, the memory
    and the linked queues. */
module SystemCall {
  import opened Words
  import opened ReadyQueue
  import opened PcbList
  import SchedulerRuns
  import opened Scheduler
  import opened Context
  import opened ContextRuns

  /** The world that a processor and the kernel's queues make up: a process waits
      when it is on the ready queue, and its frame is at its `stackTop`. */
  ghost function WorldOf(cpu: Cpu, k: Kernel): World
    reads cpu, cpu.mem, k, k.ready
  {
    World(cpu.mem[..], cpu.r, k.running, TopsOf(k.ready))
  }

  ghost function TopsOf(q: seq<Pcb>): map<Pcb, nat>
    reads q
  {
    map p | p in q :: p.stackTop
  }

  /** Words written downwards from position `base`: what `sys_call` leaves on the
      stack, or what a process computes. */
  method WriteBelow(cpu: Cpu, base: nat, ws: seq<int>)
    requires |ws| <= base <= cpu.mem.Length
    modifies cpu.mem
    ensures SameOutside(old(cpu.mem[..]), cpu.mem[..], base - |ws|, base)
  {
    var i := 0;
    while i < |ws|
      invariant 0 <= i <= |ws|
      invariant SameOutside(old(cpu.mem[..]), cpu.mem[..], base - |ws|, base)
    {
      cpu.mem[base - 1 - i] := ws[i];
      i := i + 1;
    }
  }

  /** The frame is on the stack and `sys_call` is about to be entered. */
  method EnterKernel(cpu: Cpu, ghost lo: nat, scratch: seq<int>)
    requires lo + |scratch| + FRAME <= cpu.r.esp <= cpu.mem.Length
    modifies cpu, cpu.mem
    ensures cpu.r == InHandler(old(cpu.r), cpu.isr, old(cpu.r).esp - FRAME)
    ensures SameOutside(Saved(old(cpu.mem[..]), old(cpu.r)), cpu.mem[..], lo, cpu.r.esp)
  {
    cpu.Enter();
    WriteBelow(cpu, cpu.r.esp, scratch);
  }

  /** `sys_call(ctx)` with `eax == IDLE`, seen from the saved stack tops: the head's
      is returned and leaves, the yielder's joins, the others stay. */
  method KernelStep(k: Kernel, ctx: nat) returns (r: nat)
    requires k.Valid()
    modifies k, k.running, k.Queued()
    ensures k.Valid() && k.AsSched() == SchedulerRuns.YieldStep(old(k.AsSched()))
    ensures Reached(k) <= old(Reached(k))
    ensures old(k.ready) == [] ==> r == ctx && TopsOf(k.ready) == old(TopsOf(k.ready))
    ensures old(k.ready) != [] ==>
      var h, tops := old(k.ready)[0], old(TopsOf(k.ready));
      && r == tops[h] && k.running == h
      && TopsOf(k.ready) == if old(k.running) == null then tops - {h} else (tops - {h})[old(k.running) := ctx]
  {
    ghost var q, s, tops := k.ready, k.AsSched(), TopsOf(k.ready);
    r := k.SysCallIdle(ctx);
    if q != [] {
      SchedulerRuns.YieldMembers(s);
      TopsSwitch(k.ready, q[0], s.running, ctx, tops);
    }
  }

  lemma TopsSwitch(q: seq<Pcb>, h: Pcb, r: Pcb?, ctx: nat, tops: map<Pcb, nat>)
    requires h in tops && r !in tops
    requires forall x: Pcb :: x in q <==> (x in tops && x != h) || x == r
    requires forall x :: x in tops ==> x.stackTop == tops[x]
    requires r != null ==> r.stackTop == ctx
    ensures TopsOf(q) == if r == null then tops - {h} else (tops - {h})[r := ctx]
  {
    var t := TopsOf(q);
    assert forall x: Pcb :: x in t <==> (x in tops && x != h) || x == r;
  }

  /** `int 0x60` with `eax == IDLE`, all the way. The processor, the memory and the
      queues together make exactly one yield step of `ContextRuns`: the head of
      the ready queue is dispatched from the frame at its `stackTop`, and every
      other waiting process keeps its own. */
  method YieldCall(cpu: Cpu, k: Kernel, ghost own: Owners, scratch: seq<int>)
    requires k.Valid() && Inv(own, WorldOf(cpu, k))
    requires own[k.running].lo + |scratch| + FRAME <= cpu.r.esp <= own[k.running].hi
    modifies cpu, cpu.mem, k, k.running, k.Queued()
    ensures Reached(k) <= old(Reached(k))
    ensures k.Valid() && k.AsSched() == SchedulerRuns.YieldStep(old(k.AsSched()))
    ensures var w, q := old(WorldOf(cpu, k)), old(k.ready);
            var act := if q == [] then YieldAlone(cpu.mem[..]) else Yield(q[0], cpu.mem[..]);
            Allowed(own, w, act) && WorldOf(cpu, k) == Next(own, w, act)
  {
    ghost var w, q := WorldOf(cpu, k), k.ready;
    assert q != [] ==> q[0] in w.tops && FrameInside(own, w, q[0]);
    var next := EnterAndSchedule(cpu, k, own, scratch);
    LeaveKernel(cpu, k, next);
  }

  /** The pops and `iret` touch only the processor. */
  method LeaveKernel(cpu: Cpu, k: Kernel, next: nat)
    requires next + FRAME <= cpu.mem.Length && k.Valid()
    modifies cpu`r
    ensures cpu.r == Loaded(cpu.mem[..], next) && k.Valid() && TopsOf(k.ready) == old(TopsOf(k.ready))
    ensures Reached(k) == old(Reached(k)) && k.AsSched() == old(k.AsSched())
  {
    ghost var tops := TopsOf(k.ready);
    cpu.Leave(next);
    assert TopsOf(k.ready) == tops;
  }

  /** Up to the return of `sys_call`: the frame is in memory and the queues have
      switched. */
  method EnterAndSchedule(cpu: Cpu, k: Kernel, ghost own: Owners, scratch: seq<int>) returns (next: nat)
    requires k.Valid() && Inv(own, WorldOf(cpu, k))
    requires own[k.running].lo + |scratch| + FRAME <= cpu.r.esp <= own[k.running].hi
    modifies cpu, cpu.mem, k, k.running, k.Queued()
    ensures Reached(k) <= old(Reached(k))
    ensures k.Valid() && k.AsSched() == SchedulerRuns.YieldStep(old(k.AsSched()))
    ensures Yielded(own, old(WorldOf(cpu, k)), cpu.mem[..])
    ensures var w, q := old(WorldOf(cpu, k)), old(k.ready);
            if q == [] then next == w.cpu.esp - FRAME && TopsOf(k.ready) == w.tops
            else next == w.tops[q[0]] && k.running == q[0] && TopsOf(k.ready) == TopsAfter(w, q[0])
  {
    ghost var w := WorldOf(cpu, k);
    EnterKernel(cpu, own[k.running].lo, scratch);
    assert Yielded(own, w, cpu.mem[..]);
    assert TopsOf(k.ready) == w.tops;
    next := KernelStep(k, cpu.r.esp);
  }

  // ---------------------------------------------------------------- whole runs

  /** What the running process does next: reach the registers `regs`, having
      written `ws` below `base`; or yield, `sys_call` using the stack for `scratch`. */
  datatype Action = Work(base: nat, ws: seq<int>, regs: Regs) | Idle(scratch: seq<int>)

  /** The action stays in the memory that belongs to the running process. */
  predicate Room(region: Region, r: Regs, a: Action) {
    match a
    case Work(base, ws, _) => region.lo + |ws| <= base <= region.hi
    case Idle(scratch) => region.lo + |scratch| + FRAME <= r.esp <= region.hi
  }

  function Idles(actions: seq<Action>): nat {
    if actions == [] then 0 else (if actions[0].Idle? then 1 else 0) + Idles(actions[1..])
  }

  /** There is room exactly when the words written and the frame pushed stay in the
      region. */
  lemma RoomIs(region: Region, r: Regs, base: nat, ws: seq<int>, regs: Regs)
    ensures Room(region, r, Work(base, ws, regs)) <==> region.lo <= base - |ws| && base <= region.hi
    ensures Room(region, r, Idle(ws)) <==> region.lo <= r.esp - 16 - |ws| && r.esp <= region.hi
  {
  }

  lemma IdlesIs(a: Action, rest: seq<Action>)
    ensures Idles([]) == 0 && Idles([a] + rest) == (if a.Idle? then 1 else 0) + Idles(rest)
  {
    assert ([a] + rest)[1..] == rest;
  }

  method Compute(cpu: Cpu, k: Kernel, a: Action, ghost region: Region)
    requires a.Work? && k.Valid() && Room(region, cpu.r, a) && region.hi <= cpu.mem.Length
    modifies cpu, cpu.mem
    ensures cpu.r == a.regs && SameOutside(old(cpu.mem[..]), cpu.mem[..], region.lo, region.hi)
    ensures k.Valid() && TopsOf(k.ready) == old(TopsOf(k.ready))
  {
    ghost var tops := TopsOf(k.ready);
    WriteBelow(cpu, a.base, a.ws);
    cpu.r := a.regs;
    assert TopsOf(k.ready) == tops;
  }

  /** One action is one step of `ContextRuns`. */
  method PerformAction(cpu: Cpu, k: Kernel, own: Owners, a: Action) returns (ghost act: Act)
    requires k.Valid() && Inv(own, WorldOf(cpu, k)) && Room(own[k.running], cpu.r, a)
    modifies cpu, cpu.mem, k, k.running, k.Queued()
    ensures k.Valid() && Reached(k) <= old(Reached(k))
    ensures var s := old(k.AsSched()); k.AsSched() == if a.Idle? then SchedulerRuns.YieldStep(s) else s
    ensures (act.Compute? <==> a.Work?) && (act.Yield? <==> a.Idle? && old(k.ready) != [])
    ensures act.Yield? ==> act.next == old(k.ready)[0]
    ensures var w := old(WorldOf(cpu, k)); Allowed(own, w, act) && WorldOf(cpu, k) == Next(own, w, act)
  {
    match a
    case Work(base, ws, regs) =>
      Compute(cpu, k, a, own[k.running]);
      act := Act.Compute(cpu.mem[..], regs);
    case Idle(scratch) =>
      ghost var q := k.ready;
      YieldCall(cpu, k, own, scratch);
      act := if q == [] then YieldAlone(cpu.mem[..]) else Yield(q[0], cpu.mem[..]);
  }

  /** The registers with which `p` will be dispatched. */
  ghost function FrameRegs(own: Owners, w: World, p: Pcb): Regs
    requires Inv(own, w) && p in w.tops
  {
    assert FrameInside(own, w, p);
    Loaded(w.mem, w.tops[p])
  }

  /** A process that waits before a step runs after it with the registers of its
      frame, or waits on with the same ones. */
  lemma RunsOrWaits(own: Owners, w: World, act: Act, p: Pcb)
    requires Inv(own, w) && Allowed(own, w, act) && p in w.tops
    ensures var w' := Next(own, w, act);
            && Inv(own, w')
            && if w'.running == p then w'.cpu == FrameRegs(own, w, p)
               else p in w'.tops && FrameRegs(own, w', p) == FrameRegs(own, w, p)
  {
    NextKeepsInv(own, w, act);
    if Dispatches(act, p) {
      DispatchLoads(own, w, act);
    } else {
      FrameStays(own, w, act, p);
    }
  }

  /** A favoured process moves up with every yield, or runs. */
  lemma MovesUp(s: SchedulerRuns.Sched, p: Pcb, i: nat, idle: bool)
    requires SchedulerRuns.Inv(s) && i < |s.ready| && s.ready[i] == p && SchedulerRuns.Favoured(s, p)
    ensures var t, i' := if idle then SchedulerRuns.YieldStep(s) else s, if idle then i - 1 else i;
            t.running == p || (0 <= i' < |t.ready| && t.ready[i'] == p && SchedulerRuns.Favoured(t, p))
  {
    if idle {
      SchedulerRuns.YieldAdvances(s, i);
    }
  }

  /** One action, seen by a process that waits at index `i`. */
  method ActionPast(cpu: Cpu, k: Kernel, own: Owners, a: Action, ghost p: Pcb, ghost i: nat)
    returns (ghost act: Act, ghost i': nat)
    requires k.Valid() && Inv(own, WorldOf(cpu, k)) && Room(own[k.running], cpu.r, a)
    requires i < |k.ready| && k.ready[i] == p
    modifies cpu, cpu.mem, k, k.running, k.Queued()
    ensures k.Valid() && Reached(k) <= old(Reached(k)) && Inv(own, WorldOf(cpu, k))
    ensures var w := old(WorldOf(cpu, k)); Allowed(own, w, act) && WorldOf(cpu, k) == Next(own, w, act)
    ensures k.running == p ==> cpu.r == FrameRegs(own, old(WorldOf(cpu, k)), p)
    ensures k.running != p ==>
              && i' < |k.ready| && k.ready[i'] == p
              && FrameRegs(own, WorldOf(cpu, k), p) == FrameRegs(own, old(WorldOf(cpu, k)), p)
    ensures k.running != p && SchedulerRuns.Favoured(old(k.AsSched()), p) ==>
              SchedulerRuns.Favoured(k.AsSched(), p) && i' + (if a.Idle? then 1 else 0) == i
  {
    ghost var w, s := WorldOf(cpu, k), k.AsSched();
    act := PerformAction(cpu, k, own, a);
    RunsOrWaits(own, w, act, p);
    i' := 0;
    if k.running != p {
      if SchedulerRuns.Favoured(s, p) {
        MovesUp(s, p, i, a.Idle?);
        i' := if a.Idle? then i - 1 else i;
      } else {
        assert p in TopsOf(k.ready);
        i' :| 0 <= i' < |k.ready| && k.ready[i'] == p;
      }
    }
  }

  /** The machine runs `actions` until `p` is dispatched, the actions are used up, or
      a process has no room. `p` starts with exactly the registers its frame held
      at the beginning, whatever the others have done since. It is dispatched at the
      latest by yield i + 1 when it is at index `i` and nobody outranks it. */
  method RunUntil(cpu: Cpu, k: Kernel, own: Owners, p: Pcb, actions: seq<Action>, ghost i: nat)
    returns (done: nat, ghost acts: seq<Act>)
    requires k.Valid() && Inv(own, WorldOf(cpu, k)) && i < |k.ready| && k.ready[i] == p
    modifies cpu, cpu.mem, k, Reached(k)
    ensures k.Valid() && Inv(own, WorldOf(cpu, k)) && done <= |actions|
    ensures var w := old(WorldOf(cpu, k)); Legal(own, w, acts) && WorldOf(cpu, k) == Exec(own, w, acts)
    ensures k.running == p ==> cpu.r == FrameRegs(own, old(WorldOf(cpu, k)), p)
    ensures k.running != p ==> done == |actions| || !Room(own[k.running], cpu.r, actions[done])
    ensures k.running != p && SchedulerRuns.Favoured(old(k.AsSched()), p) ==> Idles(actions[..done]) <= i
    decreases |actions|
  {
    if |actions| == 0 || !Room(own[k.running], cpu.r, actions[0]) {
      return 0, [];
    }
    ghost var w := WorldOf(cpu, k);
    ghost var act, i' := ActionPast(cpu, k, own, actions[0], p, i);
    done, acts := 0, [];
    if k.running != p {
      done, acts := RunUntil(cpu, k, own, p, actions[1..], i');
    }
    StepThenRun(own, w, act, acts);
    IdlesFirst(actions, done);
    done, acts := done + 1, [act] + acts;
  }

  lemma StepThenRun(own: Owners, w: World, act: Act, acts: seq<Act>)
    requires Allowed(own, w, act) && Legal(own, Next(own, w, act), acts)
    ensures Legal(own, w, [act] + acts) && Exec(own, w, [act] + acts) == Exec(own, Next(own, w, act), acts)
  {
    assert ([act] + acts)[1..] == acts;
  }

  lemma IdlesFirst(actions: seq<Action>, done: nat)
    requires done < |actions|
    ensures Idles(actions[..done + 1]) == (if actions[0].Idle? then 1 else 0) + Idles(actions[1..][..done])
  {
    IdlesIs(actions[0], actions[1..][..done]);
    assert actions[..done + 1] == [actions[0]] + actions[1..][..done];
  }

  /** The frame of a process that has just yielded holds its registers. */
  lemma YielderWaits(own: Owners, w: World, act: Act)
    requires Inv(own, w) && Allowed(own, w, act) && act.Yield? && w.running != null
    ensures var w' := Next(own, w, act);
            Inv(own, w') && w.running in w'.tops && FrameRegs(own, w', w.running) == w.cpu
  {
    NextKeepsInv(own, w, act);
    YieldSaves(own, w, act.mem);
  }

  /** A yield does not bring anybody in before the yielder. */
  lemma StaysFavoured(s: SchedulerRuns.Sched)
    requires SchedulerRuns.Inv(s) && s.running != null && s.ready != []
    ensures var t := SchedulerRuns.YieldStep(s);
            && |t.ready| == |s.ready| && s.running in t.ready && t.running == s.ready[0] != s.running
            && (SchedulerRuns.Favoured(s, s.running) ==> SchedulerRuns.Favoured(t, s.running))
  {
    SchedulerRuns.YieldMembers(s);
  }

  /** The running process yields and the machine runs on until it is back. It then
      has exactly the registers, selectors, return frame and stack position it
      yielded with; with n processes ready and none that outranks it, it is back
      within n more yields. */
  method YieldAndReturn(cpu: Cpu, k: Kernel, own: Owners, scratch: seq<int>, actions: seq<Action>) returns (done: nat)
    requires k.Valid() && Inv(own, WorldOf(cpu, k)) && k.running != null
    requires Room(own[k.running], cpu.r, Idle(scratch))
    modifies cpu, cpu.mem, k, Reached(k)
    ensures k.Valid() && Inv(own, WorldOf(cpu, k)) && done <= |actions|
    ensures k.running == old(k.running) ==> cpu.r == old(cpu.r)
    ensures k.running != old(k.running) ==> done == |actions| || !Room(own[k.running], cpu.r, actions[done])
    ensures k.running != old(k.running) && SchedulerRuns.Favoured(old(k.AsSched()), old(k.running)) ==>
              Idles(actions[..done]) < |old(k.ready)|
  {
    var p := k.running;
    ghost var i := YieldAway(cpu, k, own, scratch);
    done := 0;
    if k.running != p {
      ghost var acts;
      done, acts := RunUntil(cpu, k, own, p, actions, i);
    }
  }

  /** The yield alone: back at once when nobody is ready, otherwise at index `i` of
      a queue as long as before. */
  method YieldAway(cpu: Cpu, k: Kernel, own: Owners, scratch: seq<int>) returns (ghost i: nat)
    requires k.Valid() && Inv(own, WorldOf(cpu, k)) && k.running != null
    requires Room(own[k.running], cpu.r, Idle(scratch))
    modifies cpu, cpu.mem, k, k.running, k.Queued()
    ensures k.Valid() && Inv(own, WorldOf(cpu, k)) && Reached(k) <= old(Reached(k))
    ensures k.running == old(k.running) ==> cpu.r == old(cpu.r)
    ensures k.running != old(k.running) ==>
              && |k.ready| == |old(k.ready)| && i < |k.ready| && k.ready[i] == old(k.running)
              && FrameRegs(own, WorldOf(cpu, k), old(k.running)) == old(cpu.r)
              && var s := old(k.AsSched());
                 SchedulerRuns.Favoured(s, s.running) ==> SchedulerRuns.Favoured(k.AsSched(), s.running)
  {
    ghost var w, s := WorldOf(cpu, k), k.AsSched();
    ghost var act := PerformAction(cpu, k, own, Idle(scratch));
    i := 0;
    if s.ready == [] {
      NextKeepsInv(own, w, act);
      AloneResumesExactly(own, w, act);
    } else {
      YielderWaits(own, w, act);
      StaysFavoured(s);
      i :| 0 <= i < |k.ready| && k.ready[i] == s.running;
    }
  }

  // ------------------------------------------------------------- new processes

  ghost predicate Separate(own: Owners, region: Region) {
    forall q :: q in own ==> own[q].hi <= region.lo || region.hi <= own[q].lo
  }

  /** A new process with its frame in a region of its own joins the world. */
  lemma JoinWorld(own: Owners, w: World, p: Pcb, region: Region, top: nat, m': seq<int>)
    requires Inv(own, w) && p !in own && Separate(own, region) && region.hi <= |w.mem|
    requires region.lo <= top && top + FRAME <= region.hi
    requires SameOutside(w.mem, m', top, top + FRAME)
    ensures var own', w' := own[p := region], w.(mem := m', tops := w.tops[p := top]);
            && Inv(own', w') && FrameRegs(own', w', p) == Loaded(m', top)
            && forall q :: q in w.tops ==> FrameRegs(own', w', q) == FrameRegs(own, w, q)
  {
    var own', w' := own[p := region], w.(mem := m', tops := w.tops[p := top]);
    assert Inv(own', w') by {
      forall q | q in w'.tops
        ensures q in own' && FrameInside(own', w', q)
      {
        if q != p { assert FrameInside(own, w, q); }
      }
    }
    forall q | q in w.tops
      ensures FrameRegs(own', w', q) == FrameRegs(own, w, q)
    {
      assert FrameInside(own, w, q);
      LoadedSame(w.mem, m', top, top + FRAME, w.tops[q]);
    }
  }

  lemma TopsJoin(q': seq<Pcb>, p: Pcb, tops: map<Pcb, nat>)
    requires (forall x :: x in q' <==> x == p || x in tops) && (forall x :: x in tops ==> x.stackTop == tops[x])
    ensures TopsOf(q') == tops[p := p.stackTop]
  {
  }

  method Enlist(k: Kernel, memory: bool, name: CText, class_: int, priority: int, top: nat)
    returns (p: Pcb?)
    requires k.Valid()
    modifies k, Reached(k)
    ensures k.Valid() && k.running == old(k.running) && fresh(Reached(k) - old(Reached(k)))
    ensures p != null <==> memory && Creatable(old(k.ready + k.suspended), name, class_, priority)
    ensures p == null ==> k.AsSched() == old(k.AsSched()) && TopsOf(k.ready) == old(TopsOf(k.ready))
    ensures p != null ==>
              && fresh(p) && k.AsSched() == SchedulerRuns.Step(old(k.AsSched()), SchedulerRuns.Create(p))
              && p in k.ready && TopsOf(k.ready) == old(TopsOf(k.ready))[p := top]
  {
    ghost var q, tops := k.ready, TopsOf(k.ready);
    p := k.CreateProcess(memory, name, class_, priority, top);
    if p == null {
      assert TopsOf(k.ready) == tops;
    } else {
      InsertMembers(q, p);
      TopsJoin(k.ready, p, tops);
    }
  }

  method WriteContext(cpu: Cpu, k: Kernel, top: nat, stack: int, entry: int)
    requires k.Valid() && top + FRAME <= cpu.mem.Length
    modifies cpu.mem
    ensures k.Valid() && TopsOf(k.ready) == old(TopsOf(k.ready)) && Reached(k) == old(Reached(k))
    ensures SameOutside(old(cpu.mem[..]), cpu.mem[..], top, top + FRAME)
    ensures Loaded(cpu.mem[..], top) == FirstRegs(top, stack, entry)
    ensures cpu.mem[top + 13] == entry && cpu.mem[top + 10] == stack
  {
    ghost var tops := TopsOf(k.ready);
    cpu.Prepare(top, stack, entry);
    assert TopsOf(k.ready) == tops;
  }

  /** kernel/kmain.c:88-101 for any name, class and priority: a PCB, its first
      context at `top` in a region of its own, and its place in the ready queue.
      All other frames stay. */
  method StartProcess(cpu: Cpu, k: Kernel, own: Owners, region: Region,
                      memory: bool, name: CText, class_: int, priority: int, top: nat, stack: int, entry: int)
    returns (p: Pcb?, own': Owners)
    requires k.Valid() && Inv(own, WorldOf(cpu, k)) && Separate(own, region)
    requires region.lo <= top && top + FRAME <= region.hi <= cpu.mem.Length
    modifies cpu.mem, k, Reached(k)
    ensures k.Valid() && cpu.r == old(cpu.r) && fresh(Reached(k) - old(Reached(k)))
    ensures p != null <==> memory && Creatable(old(k.ready + k.suspended), name, class_, priority)
    ensures p == null ==> own' == own && WorldOf(cpu, k) == old(WorldOf(cpu, k))
    ensures p != null ==>
              && fresh(p) && own' == own[p := region] && Inv(own', WorldOf(cpu, k))
              && k.AsSched() == SchedulerRuns.Step(old(k.AsSched()), SchedulerRuns.Create(p)) && p in k.ready
              && FrameRegs(own', WorldOf(cpu, k), p) == FirstRegs(top, stack, entry)
              && cpu.mem[top + 13] == entry && cpu.mem[top + 10] == stack
              && forall q :: q in old(k.ready) ==>
                   FrameRegs(own', WorldOf(cpu, k), q) == FrameRegs(own, old(WorldOf(cpu, k)), q)
  {
    ghost var w := WorldOf(cpu, k);
    own' := own;
    p := Enlist(k, memory, name, class_, priority, top);
    if p != null {
      WriteContext(cpu, k, top, stack, entry);
      own' := own[p := region];
      JoinWorld(own, w, p, region, top, cpu.mem[..]);
    }
  }

  /** The place of a new process, which leaves a process that nobody outranks so. */
  lemma JoinsAt(s: SchedulerRuns.Sched, p: Pcb) returns (i: nat)
    ensures var t := SchedulerRuns.Step(s, SchedulerRuns.Create(p));
            && i <= |s.ready| && i < |t.ready| && t.ready[i] == p
            && (SchedulerRuns.Favoured(s, p) ==> SchedulerRuns.Favoured(t, p))
  {
    i := InsertAt(s.ready, p.priority);
    InsertMembers(s.ready, p);
  }

  /** A process is created and the machine runs on until its first dispatch: it
      starts with exactly the registers that were prepared for it. When nobody
      outranks it, it starts by the time of as many further yields as there were
      ready processes, and one. */
  method StartAndRun(cpu: Cpu, k: Kernel, own: Owners, region: Region, memory: bool, name: CText, class_: int,
                     priority: int, top: nat, stack: int, entry: int, actions: seq<Action>)
    returns (p: Pcb?, done: nat)
    requires k.Valid() && Inv(own, WorldOf(cpu, k)) && Separate(own, region)
    requires region.lo <= top && top + FRAME <= region.hi <= cpu.mem.Length
    modifies cpu, cpu.mem, k, Reached(k)
    ensures k.Valid() && done <= |actions|
    ensures p != null <==> memory && Creatable(old(k.ready + k.suspended), name, class_, priority)
    ensures p != null && k.running == p ==>
              var r := cpu.r;
              && r.eip == entry && r.ebp == stack && r.esp == top + 16 && r.cs == 0x08
              && r.ds == 0x10 && r.es == 0x10 && r.fs == 0x10 && r.gs == 0x10 && r.ss == 0x10
              && r.eax == 0 && r.ebx == 0 && r.ecx == 0 && r.edx == 0 && r.esi == 0 && r.edi == 0
              && r.eflags == 0x0202
    ensures p != null && k.running != p ==>
              && k.running in own[p := region]
              && (done == |actions| || !Room(own[p := region][k.running], cpu.r, actions[done]))
    ensures p != null && k.running != p && SchedulerRuns.Favoured(old(k.AsSched()), p) ==>
              Idles(actions[..done]) <= |old(k.ready)|
  {
    ghost var s := k.AsSched();
    var own';
    p, own' := StartProcess(cpu, k, own, region, memory, name, class_, priority, top, stack, entry);
    done := 0;
    if p != null {
      ghost var i := JoinsAt(s, p);
      ghost var acts;
      done, acts := RunUntil(cpu, k, own', p, actions, i);
    }
  }
}
