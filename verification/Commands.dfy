/** Whole runs on the linked queues: any sequence of process creations, yields and
    deletions by name, carried out by the kernel's own calls. */
module Commands {
  import opened CString
  import opened ReadyQueue
  import opened PcbList
  import opened SchedulerRuns
  import opened Scheduler

  datatype Command =
    | Spawn(memory: bool, name: CText, class_: int, priority: int, stackTop: nat)
    | Idle(ctx: nat)
    | Kill(victim: CText)

  function IdleCount(commands: seq<Command>): nat {
    if commands == [] then 0 else (if commands[0].Idle? then 1 else 0) + IdleCount(commands[1..])
  }

  /** What the commands act on: the scheduler and the suspended queue. */
  datatype Board = Board(sched: Sched, suspended: seq<Pcb>)

  ghost function BoardOf(k: Kernel): Board
    reads k
  {
    Board(k.AsSched(), k.suspended)
  }

  ghost function Listed(b: Board): seq<Pcb> {
    b.sched.ready + b.suspended
  }

  /** The process a deletion removes, if it finds one that it may remove. */
  ghost function Victim(b: Board, name: CText): Pcb? {
    var v := FirstNamed(Listed(b), name);
    if v == null || v.isSystem then null else v
  }

  /** The new PCB has what the creation asked for. */
  ghost predicate Made(p: Pcb, c: Command) {
    c.Spawn? && p.name == c.name && p.priority == c.priority && p.isSystem == (c.class_ == 0)
  }

  /** The scheduler steps that command `c` makes from `b`: none or one, and which. */
  ghost predicate Does(b: Board, c: Command, ops: seq<Op>) {
    match c
    case Idle(_) => ops == [Yield]
    case Spawn(memory, name, class_, priority, _) =>
      if memory && Creatable(Listed(b), name, class_, priority) then
        |ops| == 1 && ops[0].Create? && Made(ops[0].pcb, c)
      else
        ops == []
    case Kill(name) =>
      var v := Victim(b, name);
      ops == if v != null && v in b.sched.ready then [Delete(v)] else []
  }

  ghost function After(b: Board, c: Command, ops: seq<Op>): Board {
    var v := if c.Kill? then Victim(b, c.victim) else null;
    Board(Exec(b.sched, ops), if v != null && v in b.suspended then Remove(b.suspended, v) else b.suspended)
  }

  /** Command by command, the run makes the steps `groups`. */
  ghost predicate Follows(b: Board, commands: seq<Command>, groups: seq<seq<Op>>)
    decreases |commands|
  {
    if commands == [] then groups == []
    else
      && groups != [] && Does(b, commands[0], groups[0])
      && Follows(After(b, commands[0], groups[0]), commands[1..], groups[1..])
  }

  /** The board at the end of such a run. */
  ghost function Final(b: Board, commands: seq<Command>, groups: seq<seq<Op>>): Board
    decreases |commands|
  {
    if commands == [] || groups == [] then b
    else Final(After(b, commands[0], groups[0]), commands[1..], groups[1..])
  }

  ghost function Flat(groups: seq<seq<Op>>): seq<Op> {
    if groups == [] then [] else groups[0] + Flat(groups[1..])
  }

  /** One command makes exactly the legal scheduler steps stated by `Does`. */
  method Perform(k: Kernel, c: Command) returns (ops: seq<Op>)
    requires k.Valid()
    modifies k, Reached(k)
    ensures k.Valid() && fresh(Reached(k) - old(Reached(k)))
    ensures Does(old(BoardOf(k)), c, ops) && BoardOf(k) == After(old(BoardOf(k)), c, ops)
    ensures Legal(old(k.AsSched()), ops) && Yields(ops) == if c.Idle? then 1 else 0
  {
    match c
    case Spawn(_, _, _, _, _) =>
      ops := PerformSpawn(k, c);
    case Idle(ctx) =>
      ops := PerformIdle(k, ctx);
    case Kill(name) =>
      ops := PerformKill(k, name);
  }

  method PerformIdle(k: Kernel, ctx: nat) returns (ops: seq<Op>)
    requires k.Valid()
    modifies k, Reached(k)
    ensures k.Valid() && Reached(k) <= old(Reached(k)) && ops == [Yield]
    ensures BoardOf(k) == After(old(BoardOf(k)), Idle(ctx), ops)
    ensures Legal(old(k.AsSched()), ops) && Yields(ops) == 1
  {
    ghost var s := k.AsSched();
    var r := k.SysCallIdle(ctx);
    ops := [Yield];
    if s.ready != [] { YieldMembers(s); }
    ExecOne(s, Yield);
  }

  method PerformSpawn(k: Kernel, c: Command) returns (ops: seq<Op>)
    requires k.Valid() && c.Spawn?
    modifies k, Reached(k)
    ensures k.Valid() && fresh(Reached(k) - old(Reached(k)))
    ensures Does(old(BoardOf(k)), c, ops) && BoardOf(k) == After(old(BoardOf(k)), c, ops)
    ensures Legal(old(k.AsSched()), ops) && Yields(ops) == 0
  {
    ghost var s := k.AsSched();
    var p := k.CreateProcess(c.memory, c.name, c.class_, c.priority, c.stackTop);
    ops := [];
    if p != null {
      ops := [Create(p)];
      InsertMembers(s.ready, p);
      ExecOne(s, Create(p));
    }
  }

  method PerformKill(k: Kernel, name: CText) returns (ops: seq<Op>)
    requires k.Valid()
    modifies k, Reached(k)
    ensures k.Valid() && Reached(k) <= old(Reached(k))
    ensures Does(old(BoardOf(k)), Kill(name), ops) && BoardOf(k) == After(old(BoardOf(k)), Kill(name), ops)
    ensures Legal(old(k.AsSched()), ops) && Yields(ops) == 0
  {
    ghost var b := BoardOf(k);
    var victim, reported := k.PcbFind(name);
    var wasReady := victim != null && (victim.state == READY_STATE || victim.state == RESUME_STATE);
    var ok := k.DeletePcb(name);
    ops := if ok && wasReady then [Delete(victim)] else [];
    KillStep(b, BoardOf(k), name, ops);
  }

  lemma KillStep(b: Board, b': Board, name: CText, ops: seq<Op>)
    requires Distinct(b.sched.ready) && Distinct(b.suspended) && Does(b, Kill(name), ops)
    requires ops == [] ==> b'.sched == b.sched
    requires ops != [] ==> Enabled(b.sched, ops[0]) && b'.sched == Step(b.sched, ops[0])
    requires var v := Victim(b, name);
             b'.suspended == if v != null && v in b.suspended then Remove(b.suspended, v) else b.suspended
    ensures b' == After(b, Kill(name), ops) && Legal(b.sched, ops) && Yields(ops) == 0
    ensures b'.sched.running == b.sched.running
    ensures Nodes(b'.sched.ready) <= Nodes(b.sched.ready) && Nodes(b'.suspended) <= Nodes(b.suspended)
  {
    var v := Victim(b, name);
    if ops != [] {
      ExecOne(b.sched, ops[0]);
      RemoveMembers(b.sched.ready, v);
    }
    if v != null {
      RemoveMembers(b.suspended, v);
    }
  }

  /** The run of `commands` from `b` to `b'` makes the steps `groups`, each those of
      its command; together they are the legal run `ops` of the pure scheduler. */
  ghost predicate Ran(b: Board, b': Board, commands: seq<Command>, ops: seq<Op>, groups: seq<seq<Op>>) {
    && Follows(b, commands, groups) && b' == Final(b, commands, groups)
    && ops == Flat(groups) && Legal(b.sched, ops) && b'.sched == Exec(b.sched, ops)
    && Yields(ops) == IdleCount(commands)
  }

  /** After any run of commands the linked queues and the running process are those
      of the pure scheduler after the steps `groups`, which are determined command
      by command: what is proved of `SchedulerRuns` holds of the lists. */
  method RunCommands(k: Kernel, commands: seq<Command>) returns (ops: seq<Op>, ghost groups: seq<seq<Op>>)
    requires k.Valid()
    modifies k, Reached(k)
    ensures k.Valid() && fresh(Reached(k) - old(Reached(k)))
    ensures Ran(old(BoardOf(k)), BoardOf(k), commands, ops, groups)
    decreases |commands|
  {
    ghost var b := BoardOf(k);
    if |commands| == 0 {
      ops, groups := [], [];
    } else {
      var first := Perform(k, commands[0]);
      ghost var b1, was := BoardOf(k), Reached(k);
      ops, groups := RunCommands(k, commands[1..]);
      assert fresh(Reached(k) - was + (was - old(Reached(k))));
      OneThenRest(b, b1, BoardOf(k), commands, first, ops, groups);
      ops, groups := first + ops, [first] + groups;
    }
  }

  lemma OneThenRest(b: Board, b1: Board, b': Board, commands: seq<Command>,
                    first: seq<Op>, rest: seq<Op>, others: seq<seq<Op>>)
    requires commands != [] && Does(b, commands[0], first) && Legal(b.sched, first)
    requires Yields(first) == if commands[0].Idle? then 1 else 0
    requires b1 == After(b, commands[0], first) && Ran(b1, b', commands[1..], rest, others)
    ensures Ran(b, b', commands, first + rest, [first] + others)
  {
    assert ([first] + others)[1..] == others;
    LegalConcat(b.sched, first, rest);
    ExecConcat(b.sched, first, rest);
    YieldsConcat(first, rest);
  }

  /** A creation that succeeds when exactly the creations `made` have succeeded:
      memory, valid arguments, and a name that none of them has taken. */
  predicate Accepts(made: seq<Command>, c: Command)
    requires forall x :: x in made ==> x.Spawn?
  {
    && c.Spawn? && c.memory && ValidArguments(c.name, c.class_, c.priority)
    && forall x :: x in made ==> x.name != c.name
  }

  /** The creations among `commands` that succeed on empty queues. */
  function Accepted(commands: seq<Command>): (r: seq<Command>)
    ensures forall c :: c in r ==> c.Spawn?
  {
    if commands == [] then []
    else
      var made, c := Accepted(commands[..|commands| - 1]), commands[|commands| - 1];
      if Accepts(made, c) then made + [c] else made
  }

  lemma AcceptedNext(commands: seq<Command>, i: nat)
    requires i < |commands|
    ensures var made := Accepted(commands[..i]);
            Accepted(commands[..i + 1]) == if Accepts(made, commands[i]) then made + [commands[i]] else made
  {
    assert commands[..i + 1][..i] == commands[..i];
  }

  /** The PCBs were made for the commands, one each and in order. */
  ghost predicate MadeFor(ps: seq<Pcb>, commands: seq<Command>) {
    |ps| == |commands| && forall i :: 0 <= i < |ps| ==> Made(ps[i], commands[i])
  }

  /** The queue is what insertion makes of `ps`, the PCBs made for `made`. */
  ghost predicate Spawned(b: Board, running: Pcb?, made: seq<Command>, ps: seq<Pcb>) {
    && b == Board(Sched(running, InsertAll(ps)), [])
    && MadeFor(ps, made) && SameMembers(b.sched.ready, ps)
  }

  ghost predicate SameMembers(q: seq<Pcb>, ps: seq<Pcb>) {
    (forall x :: x in q ==> x in ps) && (forall x :: x in ps ==> x in q)
  }

  /** Creations on empty queues leave on the linked list the stable sort of the
      accepted ones. */
  method SpawnAll(k: Kernel, commands: seq<Command>) returns (ps: seq<Pcb>)
    requires k.Valid() && k.ready == k.suspended == [] && forall c :: c in commands ==> c.Spawn?
    modifies k, Reached(k)
    ensures k.Valid() && k.running == old(k.running) && k.suspended == []
    ensures MadeFor(ps, Accepted(commands)) && StableSortOf(k.ready, ps)
  {
    ps := SpawnFrom(k, commands, 0, [], []);
    InsertAllSorts(ps);
  }

  /** The creations from index `i` on, when those before have made `ps`. */
  method SpawnFrom(k: Kernel, commands: seq<Command>, i: nat, ghost made: seq<Command>, ps: seq<Pcb>)
    returns (ps': seq<Pcb>)
    requires k.Valid() && i <= |commands| && forall c :: c in commands ==> c.Spawn?
    requires made == Accepted(commands[..i]) && Spawned(BoardOf(k), k.running, made, ps)
    modifies k, Reached(k)
    ensures k.Valid() && Spawned(BoardOf(k), old(k.running), Accepted(commands), ps')
    decreases |commands| - i
  {
    if i == |commands| {
      assert commands[..i] == commands;
      return ps;
    }
    AcceptedNext(commands, i);
    ghost var made';
    ps', made' := SpawnNext(k, commands[i], made, ps);
    ps' := SpawnFrom(k, commands, i + 1, made', ps');
  }

  method SpawnNext(k: Kernel, c: Command, ghost made: seq<Command>, ps: seq<Pcb>)
    returns (ps': seq<Pcb>, ghost made': seq<Command>)
    requires k.Valid() && c.Spawn? && forall x :: x in made ==> x.Spawn?
    requires Spawned(BoardOf(k), k.running, made, ps)
    modifies k, Reached(k)
    ensures k.Valid() && fresh(Reached(k) - old(Reached(k)))
    ensures made' == if Accepts(made, c) then made + [c] else made
    ensures Spawned(BoardOf(k), old(k.running), made', ps')
  {
    ghost var b := BoardOf(k);
    var ops := PerformSpawn(k, c);
    SpawnStep(b, ps, made, c, ops);
    ps' := if |ops| > 0 then ps + [ops[0].pcb] else ps;
    made' := if Accepts(made, c) then made + [c] else made;
  }

  /** One more creation: it succeeds exactly when it is accepted, and the queue is
      again what insertion makes of the PCBs so far. */
  lemma SpawnStep(b: Board, ps: seq<Pcb>, made: seq<Command>, c: Command, ops: seq<Op>)
    requires c.Spawn? && Does(b, c, ops) && forall x :: x in made ==> x.Spawn?
    requires Spawned(b, b.sched.running, made, ps)
    ensures var ps' := if |ops| > 0 then ps + [ops[0].pcb] else ps;
            var made' := if Accepts(made, c) then made + [c] else made;
            Spawned(After(b, c, ops), b.sched.running, made', ps')
  {
    NamesTaken(ps, made, c);
    assert Listed(b) == b.sched.ready;
    assert Accepts(made, c) <==> c.memory && Creatable(Listed(b), c.name, c.class_, c.priority);
    if ops != [] {
      assert ops == [Create(ops[0].pcb)];
      SpawnOne(b, ps, ops[0].pcb);
    }
  }

  lemma SpawnOne(b: Board, ps: seq<Pcb>, p: Pcb)
    requires b.sched.ready == InsertAll(ps) && SameMembers(b.sched.ready, ps)
    ensures Exec(b.sched, [Create(p)]) == Sched(b.sched.running, InsertAll(ps + [p]))
    ensures SameMembers(InsertAll(ps + [p]), ps + [p])
  {
    assert (ps + [p])[..|ps|] == ps;
    ExecOne(b.sched, Create(p));
    InsertMembers(InsertAll(ps), p);
  }

  lemma NamesTaken(ps: seq<Pcb>, made: seq<Command>, c: Command)
    requires MadeFor(ps, made) && c.Spawn?
    requires forall x :: x in made ==> x.Spawn?
    ensures (forall x :: x in ps ==> x.name != c.name) <==> (forall x :: x in made ==> x.name != c.name)
  {
    if x :| x in ps && x.name == c.name {
      var i :| 0 <= i < |ps| && ps[i] == x;
      assert made[i] in made;
    }
    if x :| x in made && x.name == c.name {
      var i :| 0 <= i < |made| && made[i] == x;
      assert ps[i] in ps;
    }
  }

  /** A command that is not the end of `p` and brings in nobody before it. */
  predicate Harmless(c: Command, p: Pcb) {
    (c.Spawn? ==> p.priority <= c.priority) && c != Kill(p.name)
  }

  lemma CommandAdvances(b: Board, c: Command, ops: seq<Op>, i: nat) returns (i': nat)
    requires Inv(b.sched) && Legal(b.sched, ops) && Does(b, c, ops)
    requires var s := b.sched; i < |s.ready| && Favoured(s, s.ready[i]) && Harmless(c, s.ready[i])
    ensures var p, t := b.sched.ready[i], Exec(b.sched, ops);
            if c.Idle? && i == 0 then t.running == p
            else Favoured(t, p) && i' < |t.ready| && t.ready[i'] == p && i' <= (if c.Idle? then i - 1 else i)
  {
    if ops == [] {
      i' := i;
    } else {
      assert ops == [ops[0]];
      ExecOne(b.sched, ops[0]);
      i' := StepAdvances(b.sched, ops[0], i);
    }
  }

  /** Bounded waiting on the linked queues: a ready process at index `i` that nobody
      outranks, arrivals included, is running after a number of commands with at
      most i + 1 yields among them. */
  method AwaitDispatch(k: Kernel, commands: seq<Command>, p: Pcb, ghost i: nat) returns (done: nat)
    requires k.Valid() && i < |k.ready| && k.ready[i] == p && Favoured(k.AsSched(), p)
    requires forall c :: c in commands ==> Harmless(c, p)
    requires IdleCount(commands) >= i + 1
    modifies k, Reached(k)
    ensures k.Valid() && k.running == p
    ensures 0 < done <= |commands| && IdleCount(commands[..done]) <= i + 1
    decreases |commands|
  {
    ghost var b := BoardOf(k);
    var c := commands[0];
    var ops := Perform(k, c);
    ghost var i' := CommandAdvances(b, c, ops, i);
    if k.running == p {
      done := 1;
    } else {
      var more := AwaitDispatch(k, commands[1..], p, i');
      done := more + 1;
      assert commands[..done][1..] == commands[1..][..more];
    }
  }
}
