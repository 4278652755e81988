/** Runs of many processes over one memory: each computes in its own region, and
    yields through `sys_call_isr`. */
module ContextRuns {
  import opened Words
  import opened ReadyQueue
  import opened Context

  datatype Region = Region(lo: nat, hi: nat)

  /** Memory, the processor, who runs (null before the first dispatch), and the
      saved stack tops of the processes that wait. */
  datatype World = World(mem: seq<int>, cpu: Regs, running: Pcb?, tops: map<Pcb, nat>)

  /** The running process computes, reaching any registers and changing memory; it
      yields and `next` is dispatched; or it yields with nobody ready, and
      `sys_call` returns its own context. In a yield `mem` is memory when the pops
      start, after `sys_call` has used the stack below the frame. */
  datatype Act = Compute(mem: seq<int>, cpu: Regs) | Yield(next: Pcb, mem: seq<int>) | YieldAlone(mem: seq<int>)

  type Owners = map<Pcb?, Region>

  ghost predicate Apart(own: Owners) {
    forall p, q :: p in own && q in own && p != q ==> own[p].hi <= own[q].lo || own[q].hi <= own[p].lo
  }

  /** The saved frame of `p` lies in its own region. */
  ghost predicate FrameInside(own: Owners, w: World, p: Pcb)
    requires p in own && p in w.tops
  {
    own[p].lo <= w.tops[p] && w.tops[p] + FRAME <= own[p].hi
  }

  ghost predicate Inv(own: Owners, w: World) {
    && Apart(own) && w.running in own && w.running !in w.tops
    && (forall p :: p in own ==> own[p].hi <= |w.mem|)
    && (forall p :: p in w.tops ==> p in own && FrameInside(own, w, p))
  }

  /** The stack of the running process has room for a frame, and `m'` is what
      memory may be once the frame is pushed and `sys_call` has run. */
  ghost predicate Yielded(own: Owners, w: World, m': seq<int>)
    requires w.running in own
  {
    && own[w.running].lo + FRAME <= w.cpu.esp <= own[w.running].hi <= |w.mem|
    && SameOutside(Saved(w.mem, w.cpu), m', own[w.running].lo, w.cpu.esp - FRAME)
  }

  ghost predicate Allowed(own: Owners, w: World, act: Act) {
    && w.running in own
    && match act
       case Compute(m', _) => SameOutside(w.mem, m', own[w.running].lo, own[w.running].hi)
       case Yield(next, m') => next in w.tops && Yielded(own, w, m') && w.tops[next] + FRAME <= |m'|
       case YieldAlone(m') => Yielded(own, w, m')
  }

  /** The next process no longer waits; the yielder does, if it is a process. */
  ghost function TopsAfter(w: World, next: Pcb): map<Pcb, nat>
    requires w.cpu.esp >= FRAME
  {
    var rest := w.tops - {next};
    if w.running == null then rest else rest[w.running := w.cpu.esp - FRAME]
  }

  ghost function Next(own: Owners, w: World, act: Act): World
    requires Allowed(own, w, act)
  {
    match act
    case Compute(m', cpu') => w.(mem := m', cpu := cpu')
    case Yield(next, m') =>
      World(m', Loaded(m', w.tops[next]), next, TopsAfter(w, next))
    case YieldAlone(m') => w.(mem := m', cpu := Loaded(m', w.cpu.esp - FRAME))
  }

  ghost predicate Legal(own: Owners, w: World, acts: seq<Act>)
    decreases |acts|
  {
    acts == [] || (Allowed(own, w, acts[0]) && Legal(own, Next(own, w, acts[0]), acts[1..]))
  }

  ghost function Exec(own: Owners, w: World, acts: seq<Act>): World
    requires Legal(own, w, acts)
    decreases |acts|
  {
    if acts == [] then w else Exec(own, Next(own, w, acts[0]), acts[1..])
  }

  predicate Dispatches(act: Act, p: Pcb) {
    act.Yield? && act.next == p
  }

  /** A frame that no word of changes loads the same registers. */
  lemma LoadedSame(m: seq<int>, m': seq<int>, lo: nat, hi: nat, top: nat)
    requires SameOutside(m, m', lo, hi) && top + FRAME <= |m|
    requires hi <= top || top + FRAME <= lo
    ensures Loaded(m', top) == Loaded(m, top)
  {
  }

  lemma SavedSame(m: seq<int>, r: Regs)
    requires FRAME <= r.esp <= |m|
    ensures SameOutside(m, Saved(m, r), r.esp - FRAME, r.esp)
  {
  }

  lemma NextKeepsInv(own: Owners, w: World, act: Act)
    requires Inv(own, w) && Allowed(own, w, act)
    ensures Inv(own, Next(own, w, act))
  {
  }

  /** Pushing the yielder's frame leaves the frames of the others alone. */
  lemma OthersSame(own: Owners, w: World, m': seq<int>, p: Pcb)
    requires Inv(own, w) && Yielded(own, w, m') && p in w.tops
    ensures w.tops[p] + FRAME <= |w.mem| == |m'|
    ensures Loaded(m', w.tops[p]) == Loaded(w.mem, w.tops[p])
  {
    assert FrameInside(own, w, p);
    SavedSame(w.mem, w.cpu);
    LoadedSame(w.mem, Saved(w.mem, w.cpu), w.cpu.esp - FRAME, w.cpu.esp, w.tops[p]);
    LoadedSame(Saved(w.mem, w.cpu), m', own[w.running].lo, w.cpu.esp - FRAME, w.tops[p]);
  }

  /** The frame of a waiting process survives every step that does not dispatch
      it. */
  lemma FrameStays(own: Owners, w: World, act: Act, p: Pcb)
    requires Inv(own, w) && Allowed(own, w, act) && p in w.tops && !Dispatches(act, p)
    ensures var w' := Next(own, w, act);
            && p in w'.tops && w'.tops[p] == w.tops[p]
            && w.tops[p] + FRAME <= |w.mem| && w.tops[p] + FRAME <= |w'.mem|
            && Loaded(w'.mem, w.tops[p]) == Loaded(w.mem, w.tops[p])
  {
    if act.Compute? {
      assert FrameInside(own, w, p);
      LoadedSame(w.mem, act.mem, own[w.running].lo, own[w.running].hi, w.tops[p]);
    } else {
      OthersSame(own, w, act.mem, p);
    }
  }

  lemma {:induction false} FrameStaysRun(own: Owners, w: World, acts: seq<Act>, p: Pcb)
    requires Inv(own, w) && Legal(own, w, acts) && p in w.tops
    requires forall a :: a in acts ==> !Dispatches(a, p)
    ensures var w' := Exec(own, w, acts);
            && Inv(own, w') && p in w'.tops && w'.tops[p] == w.tops[p]
            && w.tops[p] + FRAME <= |w.mem| && w.tops[p] + FRAME <= |w'.mem|
            && Loaded(w'.mem, w.tops[p]) == Loaded(w.mem, w.tops[p])
    decreases |acts|
  {
    assert FrameInside(own, w, p);
    if acts != [] {
      assert acts == [acts[0]] + acts[1..];
      NextKeepsInv(own, w, acts[0]);
      FrameStays(own, w, acts[0], p);
      FrameStaysRun(own, Next(own, w, acts[0]), acts[1..], p);
    }
  }

  /** The frame pushed by a yield holds the yielder's registers. */
  lemma YieldSaves(own: Owners, w: World, m': seq<int>)
    requires Inv(own, w) && Yielded(own, w, m')
    ensures w.cpu.esp <= |m'| && Loaded(m', w.cpu.esp - FRAME) == w.cpu
  {
    LoadSaved(w.mem, w.cpu);
    LoadedSame(Saved(w.mem, w.cpu), m', own[w.running].lo, w.cpu.esp - FRAME, w.cpu.esp - FRAME);
  }

  /** A dispatch loads the frame as it was before the yielder's own was pushed. */
  lemma DispatchLoads(own: Owners, w: World, act: Act)
    requires Inv(own, w) && Allowed(own, w, act) && act.Yield?
    ensures w.tops[act.next] + FRAME <= |w.mem|
    ensures Next(own, w, act).cpu == Loaded(w.mem, w.tops[act.next])
  {
    OthersSame(own, w, act.mem, act.next);
  }

  /** A process that yields and is dispatched again, after any run of the others,
      resumes with exactly the registers, selectors, return frame and stack
      position it had. */
  lemma ResumesExactly(own: Owners, w: World, away: Act, others: seq<Act>, back: Act)
    requires Inv(own, w) && away.Yield? && w.running != null
    requires forall a :: a in others ==> !Dispatches(a, w.running)
    requires Allowed(own, w, away) && Legal(own, Next(own, w, away), others)
    requires var w' := Exec(own, Next(own, w, away), others);
             Allowed(own, w', back) && Dispatches(back, w.running)
    ensures var w' := Exec(own, Next(own, w, away), others);
            Next(own, w', back).cpu == w.cpu && Next(own, w', back).running == w.running
  {
    var w1 := Next(own, w, away);
    NextKeepsInv(own, w, away);
    YieldSaves(own, w, away.mem);
    FrameStaysRun(own, w1, others, w.running);
    DispatchLoads(own, Exec(own, w1, others), back);
  }

  /** With nobody ready, a yield returns to the yielder with its registers. */
  lemma AloneResumesExactly(own: Owners, w: World, act: Act)
    requires Inv(own, w) && Allowed(own, w, act) && act.YieldAlone?
    ensures Next(own, w, act).cpu == w.cpu
  {
    YieldSaves(own, w, act.mem);
  }
}
