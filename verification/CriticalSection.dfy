/** The API calls that defer the tick signal of their own thread (src/robflex_api.c), and the signal
    handler they share in_critical and n_signal_pendings with (src/dym_hook.c). A signal may arrive
    between any two steps of a call. */
module CriticalSection {
  import opened Context

  /** What a tick works on: the thread's context and everything else it touches. */
  datatype ThreadState<E> = ThreadState(ctx: LocalContext, env: E)

  type Tick<!E, !I> = (ThreadState<E>, I) -> ThreadState<E>

  /** Ticks run one after the other, each with its own input (clock readings, event bits, ...). */
  function Run<E, I>(tick: Tick<E, I>, st: ThreadState<E>, inputs: seq<I>): ThreadState<E> {
    if inputs == [] then st else tick(Run(tick, st, inputs[..|inputs| - 1]), inputs[|inputs| - 1])
  }

  lemma {:induction false} RunConcat<E, I>(tick: Tick<E, I>, st: ThreadState<E>, a: seq<I>, b: seq<I>)
    ensures Run(tick, st, a + b) == Run(tick, Run(tick, st, a), b)
  {
    if b == [] {
      assert a + b == a;
    } else {
      var n := |b| - 1;
      assert (a + b)[..|a| + n] == a + b[..n];
      RunConcat(tick, st, a, b[..n]);
    }
  }

  /** The signals that arrive during one call: before the section, at each point inside it, after it is
      left, and in each round of the drain loop between the exchange and the tick and after the tick.
      drain(k) is the input of the tick that round k itself runs. */
  datatype Arrivals<!I> = Arrivals(
    before: seq<I>, during: nat -> seq<I>, cleared: seq<I>,
    exchanged: nat -> seq<I>, drain: nat -> I, ticked: nat -> seq<I>, finished: seq<I>)

  /** How many signals arrive at the first n points inside the section. */
  function Deferred<I>(during: nat -> seq<I>, n: nat): nat {
    if n == 0 then 0 else Deferred(during, n - 1) + |during(n - 1)|
  }

  /** The ticks that run after the section: those that arrive then and, when the count of deferred
      signals is not 0, a single one for all of them. */
  function AfterSection<I>(a: Arrivals<I>, deferred: nat): seq<I> {
    a.cleared
    + (if Counter32(deferred) != 0 then a.exchanged(0) + [a.drain(0)] + a.ticked(0) else [])
    + a.finished
  }

  /** Deferred signals are forgotten exactly when the 32-bit count has wrapped around to 0. */
  lemma OnlyFullLapsAreForgotten<I>(a: Arrivals<I>, deferred: nat)
    ensures |AfterSection(a, deferred)| == |a.cleared| + |a.finished| <==> deferred % TWO_TO_THE_32 == 0
    ensures 0 < deferred < TWO_TO_THE_32 ==> a.drain(0) in AfterSection(a, deferred)
  {
    if Counter32(deferred) != 0 {
      assert AfterSection(a, deferred)[|a.cleared| + |a.exchanged(0)|] == a.drain(0);
    }
  }

  /** The chain context a shot hands to the next stage. */
  datatype ChainContext = ChainContext(
    totalLatency: U64, usedLatency: U64, localTargetLatency: U64, localUsedLatency: U64)

  // The bodies of the sections, each as one update of the context.

  predicate Throttled(c: LocalContext) {
    c.policy == Yielding || c.policy == Predetermined
  }

  function BudgetCleared(c: LocalContext): LocalContext {
    c.(norm := c.norm.(timeBudgets := 0))
  }

  function SliceSet(c: LocalContext, timeNs: U64): LocalContext {
    c.(norm := YieldDemand(timeNs, 0))
  }

  function Flicked(c: LocalContext, latNs: U64, baseNs: U64, now: U64): LocalContext {
    c.(policy := LatencyOriented,
       lat := c.lat.(targetLat := latNs, startTime := now, histNcycle := baseNs, totalLatency := 0, usedLatency := 0))
  }

  function CyclesAdded(c: LocalContext, runcycle: U64): LocalContext {
    c.(lat := c.lat.(usedNcycle := Wrap64(c.lat.usedNcycle + runcycle)))
  }

  /** hist * 0.5 + used * 0.5, truncated. */
  function Mean(hist: U64, used: U64): U64 {
    (hist + used) / 2
  }

  function RoundClosed(c: LocalContext): LocalContext {
    c.(lat := c.lat.(histNcycle := Mean(c.lat.histNcycle, c.lat.usedNcycle), usedNcycle := 0))
  }

  function Measured(c: LocalContext, now: U64): ChainContext {
    var passTime := Wrap64(now - c.lat.startTime);
    ChainContext(Wrap64(c.lat.totalLatency + c.lat.targetLat), Wrap64(c.lat.usedLatency + passTime),
                 c.lat.targetLat, passTime)
  }

  /** (target - used) * percent / 100; signed overflow is taken to wrap. */
  function Feedback(chain: ChainContext, percent: I32): I64 {
    var slack := Signed64(chain.localTargetLatency) - Signed64(chain.localUsedLatency);
    CDiv(ToSigned(slack * percent), 100)
  }

  function Chained(c: LocalContext, chain: ChainContext, percent: I32, now: U64): LocalContext {
    c.(lat := c.lat.(startTime := now, totalLatency := chain.totalLatency, usedLatency := chain.usedLatency,
                     latBias := Feedback(chain, percent)))
  }

  /** The nine calls. now is the clock reading inside the section; a shot reads the clock once more, and
      signals may arrive between the stores that follow its section, at the points tail. A switch loads
      cell `to` of the contexts in memory and saves to another, or the same, or not at all. */
  datatype Request<!I> =
    | ClearBudget
    | SetCycles(cycles: U64)
    | SetTime(timeNs: U64)
    | SetImmediate
    | Flick(latNs: U64, baseNs: U64, now: U64)
    | AddCycles(runcycle: U64)
    | Shot(now: U64, restart: U64, tail: nat -> seq<I>)
    | Chain(chain: ChainContext, percent: I32, now: U64)
    | Switch(to: nat, save: Option<nat>)

  /** The cells a request names are among n. */
  predicate InPool<I>(r: Request<I>, n: nat) {
    r.Switch? ==> r.to < n && (r.save.Some? ==> r.save.value < n)
  }

  /** A thread and the contexts in memory that it switches with. */
  datatype World<E> = World(thread: ThreadState<E>, cells: seq<LocalContext>)

  datatype Reply = Code(code: int) | Handed(chain: ChainContext)

  /** What the section of a request does to the thread's context, as one step. */
  function Effect<I>(r: Request<I>, c: LocalContext): LocalContext
    requires !r.Switch?
  {
    match r
    case ClearBudget => BudgetCleared(c)
    case SetCycles(_) => if Throttled(c) then BudgetCleared(c) else c
    case SetTime(timeNs) => if Throttled(c) then SliceSet(c, timeNs) else c
    case SetImmediate => c.(policy := Immediate)
    case Flick(latNs, baseNs, now) => Flicked(c, latNs, baseNs, now)
    case AddCycles(runcycle) => CyclesAdded(c, runcycle)
    case Shot(_, _, _) => if c.policy == LatencyOriented then RoundClosed(c) else c
    case Chain(chain, percent, now) => Chained(c, chain, percent, now)
  }

  /** And to the contexts in memory: a switch exchanges whole contexts. */
  function Body<E, I>(r: Request<I>, w: World<E>): World<E>
    requires InPool(r, |w.cells|)
  {
    if r.Switch? then
      World(w.thread.(ctx := w.cells[r.to]),
            if r.save.Some? then w.cells[r.save.value := w.thread.ctx] else w.cells)
    else w.(thread := w.thread.(ctx := Effect(r, w.thread.ctx)))
  }

  /** The points inside that section where signals are deferred. */
  function Points<I>(r: Request<I>, c: LocalContext): nat {
    match r
    case ClearBudget => 2
    case SetCycles(_) => if Throttled(c) then 3 else 2
    case SetTime(_) => if Throttled(c) then 4 else 2
    case SetImmediate => 0
    case Flick(_, _, _) => 7
    case AddCycles(_) => 2
    case Shot(_, _, _) => if c.policy == LatencyOriented then 6 else 2
    case Chain(_, _, _) => 5
    case Switch(_, _) => 3
  }

  /** What the call returns, from the context at the entry of its section. */
  function ReplyTo<I>(r: Request<I>, c: LocalContext): Reply {
    match r
    case SetCycles(_) => Code(if Throttled(c) then 0 else -1)
    case SetTime(_) => Code(if Throttled(c) then 0 else -1)
    case Shot(now, _, _) =>
      Handed(if c.policy == LatencyOriented then Measured(c, now) else ChainContext(0, 0, 0, 0))
    case _ => Code(0)
  }

  /** The stores of a shot after its section, with the ticks that follow each of them. */
  function Restarted<E, I>(tick: Tick<E, I>, st: ThreadState<E>, restart: U64, tail: nat -> seq<I>): ThreadState<E> {
    var st1 := Run(tick, st.(ctx := StartMoved(st.ctx, restart)), tail(0));
    var st2 := Run(tick, st1.(ctx := TotalCleared(st1.ctx)), tail(1));
    Run(tick, st2.(ctx := UsedCleared(st2.ctx)), tail(2))
  }

  function StartMoved(c: LocalContext, restart: U64): LocalContext {
    c.(lat := c.lat.(startTime := restart))
  }

  function TotalCleared(c: LocalContext): LocalContext {
    c.(lat := c.lat.(totalLatency := 0))
  }

  function UsedCleared(c: LocalContext): LocalContext {
    c.(lat := c.lat.(usedLatency := 0))
  }

  /** The state when the section of a call opens. */
  function Entry<E, I>(tick: Tick<E, I>, w: World<E>, a: Arrivals<I>): World<E> {
    w.(thread := Run(tick, w.thread, a.before))
  }

  /** A call in which the section is one atomic step, followed by a single tick for the signals deferred
      in it. */
  function SerialCall<E, I>(tick: Tick<E, I>, w: World<E>, r: Request<I>, a: Arrivals<I>): (after: World<E>)
    requires InPool(r, |w.cells|)
    ensures |after.cells| == |w.cells|
  {
    var entry := Entry(tick, w, a);
    var body := Body(r, entry);
    var done := Run(tick, body.thread, AfterSection(a, Deferred(a.during, Points(r, entry.thread.ctx))));
    if r.Shot? && entry.thread.ctx.policy == LatencyOriented then
      body.(thread := Restarted(tick, done, r.restart, r.tail))
    else body.(thread := done)
  }

  type Script<!I> = seq<(Request<I>, Arrivals<I>)>

  predicate ScriptInPool<I>(script: Script<I>, n: nat) {
    forall k :: 0 <= k < |script| ==> InPool(script[k].0, n)
  }

  /** The serial run of a script and what its calls return. */
  function SerialRun<E, I>(tick: Tick<E, I>, w: World<E>, script: Script<I>): (out: (World<E>, seq<Reply>))
    requires ScriptInPool(script, |w.cells|)
    ensures |out.0.cells| == |w.cells|
  {
    if script == [] then (w, []) else
      var (before, replies) := SerialRun(tick, w, script[..|script| - 1]);
      var (r, a) := script[|script| - 1];
      (SerialCall(tick, before, r, a), replies + [ReplyTo(r, Entry(tick, before, a).thread.ctx)])
  }

  /** A LocalContext in memory of its own. */
  class Cell {
    var ctx: LocalContext

    constructor (ctx: LocalContext)
      ensures this.ctx == ctx
    {
      this.ctx := ctx;
    }
  }

  /** The values of the cells. */
  ghost function Values(pool: seq<Cell>): seq<LocalContext>
    reads pool
  {
    seq(|pool|, i requires 0 <= i < |pool| reads pool => pool[i].ctx)
  }

  predicate Distinct(pool: seq<Cell>) {
    forall i, j :: 0 <= i < j < |pool| ==> pool[i] != pool[j]
  }

  /** n more atomic increments. */
  function Counted(x: I32, n: nat): I32 {
    if n == 0 then x else Increment(Counted(x, n - 1))
  }

  lemma {:induction false} CountedAdds(d: nat, n: nat)
    ensures Counted(Counter32(d), n) == Counter32(d + n)
  {
    if n == 0 {
    } else {
      CountedAdds(d, n - 1);
      IncrementCounts(d + n - 1);
    }
  }

  class Thread<!E, !I> {
    const handleTick: Tick<E, I>
    var locCtx: LocalContext
    var env: E
    var inCritical: int
    var nSignalPendings: I32

    constructor (handleTick: Tick<E, I>, ctx: LocalContext, env: E)
      ensures Idle() && State() == ThreadState(ctx, env) && this.handleTick == handleTick
    {
      this.handleTick := handleTick;
      locCtx, this.env, inCritical, nSignalPendings := ctx, env, 0, 0;
    }

    function State(): ThreadState<E>
      reads this
    {
      ThreadState(locCtx, env)
    }

    /** No section is open and no signal is waiting. */
    predicate Idle()
      reads this
    {
      inCritical == 0 && nSignalPendings == 0
    }

    method HandleTick(input: I)
      modifies this`locCtx, this`env
      ensures State() == handleTick(old(State()), input)
    {
      var next := handleTick(State(), input);
      locCtx, env := next.ctx, next.env;
    }

    /** instruction_interrupt_handler */
    method OnSignal(input: I)
      modifies this`locCtx, this`env, this`nSignalPendings
      ensures inCritical == 0 ==>
                State() == handleTick(old(State()), input) && nSignalPendings == old(nSignalPendings)
      ensures inCritical != 0 ==> State() == old(State()) && nSignalPendings == Increment(old(nSignalPendings))
    {
      if inCritical != 0 {
        nSignalPendings := Increment(nSignalPendings);
        return;
      }
      HandleTick(input);
    }

    /** The signals that arrive at one point of the program. No tick runs inside a section. */
    method Deliver(inputs: seq<I>)
      modifies this`locCtx, this`env, this`nSignalPendings
      ensures inCritical == 0 ==>
                State() == Run(handleTick, old(State()), inputs) && nSignalPendings == old(nSignalPendings)
      ensures inCritical != 0 ==> State() == old(State()) && nSignalPendings == Counted(old(nSignalPendings), |inputs|)
    {
      for k := 0 to |inputs|
        invariant inCritical == 0 ==>
                    State() == Run(handleTick, old(State()), inputs[..k]) && nSignalPendings == old(nSignalPendings)
        invariant inCritical != 0 ==> State() == old(State()) && nSignalPendings == Counted(old(nSignalPendings), k)
      {
        OnSignal(inputs[k]);
        assert inputs[..k + 1][..k] == inputs[..k];
      }
      assert inputs[..|inputs|] == inputs;
    }

    /** atomic_store(&in_critical, 1) */
    method Enter(a: Arrivals<I>)
      requires Idle()
      modifies this
      ensures inCritical == 1 && nSignalPendings == 0
      ensures State() == Run(handleTick, old(State()), a.before)
    {
      Deliver(a.before);
      inCritical := 1;
    }

    /** atomic_exchange(&n_signal_pendings, 0) */
    method Exchange() returns (pendings: I32)
      modifies this`nSignalPendings
      ensures pendings == old(nSignalPendings) && nSignalPendings == 0
    {
      pendings := nSignalPendings;
      nSignalPendings := 0;
    }

    /** atomic_store(&in_critical, 0) and the drain loop, whose body runs at most once. */
    method Leave(a: Arrivals<I>, ghost deferred: nat)
      requires nSignalPendings == Counter32(deferred)
      modifies this
      ensures Idle()
      ensures State() == Run(handleTick, old(State()), AfterSection(a, deferred))
    {
      inCritical := 0;
      Deliver(a.cleared);
      var pendings := Exchange();
      var round: nat := 0;
      ghost var done := a.cleared;
      while pendings != 0
        invariant Idle() && State() == Run(handleTick, old(State()), done)
        invariant round <= 1 && (round == 1 ==> pendings == 0)
        invariant round == 0 ==> pendings == Counter32(deferred) && done == a.cleared
        invariant round == 1 ==>
                    Counter32(deferred) != 0 && done == a.cleared + (a.exchanged(0) + [a.drain(0)] + a.ticked(0))
        decreases 1 - round
      {
        ghost var inputs := a.exchanged(round) + [a.drain(round)] + a.ticked(round);
        DrainRound(a.exchanged(round), a.drain(round), a.ticked(round));
        RunConcat(handleTick, old(State()), done, inputs);
        done := done + inputs;
        pendings := Exchange();
        round := round + 1;
      }
      Deliver(a.finished);
      RunConcat(handleTick, old(State()), done, a.finished);
      assert done == a.cleared + if Counter32(deferred) != 0 then a.exchanged(0) + [a.drain(0)] + a.ticked(0) else [];
    }

    method DrainRound(exchanged: seq<I>, drain: I, ticked: seq<I>)
      requires inCritical == 0
      modifies this`locCtx, this`env, this`nSignalPendings
      ensures State() == Run(handleTick, old(State()), exchanged + [drain] + ticked)
      ensures nSignalPendings == old(nSignalPendings)
    {
      Deliver(exchanged);
      HandleTick(drain);
      assert (exchanged + [drain])[..|exchanged|] == exchanged;
      Deliver(ticked);
      RunConcat(handleTick, old(State()), exchanged + [drain], ticked);
    }

    /** The signals that arrive at point k inside a section: they are only counted. */
    method Interrupt(a: Arrivals<I>, k: nat)
      requires inCritical != 0 && nSignalPendings == Counter32(Deferred(a.during, k))
      modifies this`locCtx, this`env, this`nSignalPendings
      ensures State() == old(State()) && nSignalPendings == Counter32(Deferred(a.during, k + 1))
    {
      CountedAdds(Deferred(a.during, k), |a.during(k)|);
      Deliver(a.during(k));
    }

    /** The state when the section opens. */
    ghost function AtEntry(st: ThreadState<E>, a: Arrivals<I>): ThreadState<E> {
      Run(handleTick, st, a.before)
    }

    /** The run in which the section is one atomic step: its body applied to the state at entry, then
        the ticks after it, one of which stands for all the signals deferred at its points. */
    ghost function Serial(entry: ThreadState<E>, body: LocalContext, a: Arrivals<I>, points: nat): ThreadState<E> {
      Run(handleTick, entry.(ctx := body), AfterSection(a, Deferred(a.during, points)))
    }

    /** robflex_clear_time_budget */
    method ClearTimeBudget(a: Arrivals<I>) returns (r: int)
      requires Idle()
      modifies this
      ensures Idle() && r == 0
      ensures var st := AtEntry(old(State()), a);
              State() == Serial(st, BudgetCleared(st.ctx), a, 2)
    {
      Enter(a);
      Interrupt(a, 0);
      locCtx := locCtx.(norm := locCtx.norm.(timeBudgets := 0));
      Interrupt(a, 1);
      Leave(a, Deferred(a.during, 2));
      return 0;
    }

    /** robflex_set_cycles_for_tick */
    method SetCyclesForTick(cycles: U64, a: Arrivals<I>) returns (r: int)
      requires Idle()
      modifies this
      ensures Idle()
      ensures var st := AtEntry(old(State()), a);
              if Throttled(st.ctx) then r == 0 && State() == Serial(st, BudgetCleared(st.ctx), a, 3)
              else r == -1 && State() == Serial(st, st.ctx, a, 2)
    {
      Enter(a);
      Interrupt(a, 0);
      if locCtx.policy != Yielding && locCtx.policy != Predetermined {
        Interrupt(a, 1);
        Leave(a, Deferred(a.during, 2));
        return -1;
      }
      Interrupt(a, 1);
      locCtx := locCtx.(norm := locCtx.norm.(timeBudgets := 0));
      Interrupt(a, 2);
      Leave(a, Deferred(a.during, 3));
      return 0;
    }

    /** robflex_set_time_for_throttle */
    method SetTimeForThrottle(timeNs: U64, a: Arrivals<I>) returns (r: int)
      requires Idle()
      modifies this
      ensures Idle()
      ensures var st := AtEntry(old(State()), a);
              if Throttled(st.ctx) then r == 0 && State() == Serial(st, SliceSet(st.ctx, timeNs), a, 4)
              else r == -1 && State() == Serial(st, st.ctx, a, 2)
    {
      Enter(a);
      Interrupt(a, 0);
      if locCtx.policy != Yielding && locCtx.policy != Predetermined {
        Interrupt(a, 1);
        Leave(a, Deferred(a.during, 2));
        return -1;
      }
      Interrupt(a, 1);
      locCtx := locCtx.(norm := locCtx.norm.(timeSlice := timeNs));
      Interrupt(a, 2);
      locCtx := locCtx.(norm := locCtx.norm.(timeBudgets := 0));
      Interrupt(a, 3);
      Leave(a, Deferred(a.during, 4));
      return 0;
    }

    /** The thread and the cells it switches with. */
    ghost function WorldOf(pool: seq<Cell>): World<E>
      reads this, pool
    {
      World(State(), Values(pool))
    }

    /** Any run of the nine calls, with signals at arbitrary points, ends and answers like its serial run.
        Since the tick is an arbitrary function, the order in which ticks and bodies take effect is the
        same. */
    method Perform(script: Script<I>, pool: seq<Cell>) returns (replies: seq<Reply>)
      requires Idle() && Distinct(pool) && ScriptInPool(script, |pool|)
      modifies this, pool
      ensures Idle() && (WorldOf(pool), replies) == SerialRun(handleTick, old(WorldOf(pool)), script)
    {
      replies := [];
      for k := 0 to |script|
        invariant Idle() && (WorldOf(pool), replies) == SerialRun(handleTick, old(WorldOf(pool)), script[..k])
      {
        assert script[..k + 1][..k] == script[..k];
        var reply := One(script[k].0, script[k].1, pool);
        replies := replies + [reply];
      }
      assert script[..|script|] == script;
    }

    method One(r: Request<I>, a: Arrivals<I>, pool: seq<Cell>) returns (reply: Reply)
      requires Idle() && Distinct(pool) && InPool(r, |pool|)
      modifies this, pool
      ensures Idle() && WorldOf(pool) == SerialCall(handleTick, old(WorldOf(pool)), r, a)
      ensures reply == ReplyTo(r, AtEntry(old(State()), a).ctx)
    {
      match r {
        case Switch(to, save) => reply := SwitchCells(to, save, a, pool);
        case Shot(now, restart, tail) => reply := Shoot(now, restart, tail, a, pool);
        case _ => reply := OnContext(r, a, pool);
      }
    }

    /** The calls that only change the thread's own context inside a section. */
    method OnContext(r: Request<I>, a: Arrivals<I>, pool: seq<Cell>) returns (reply: Reply)
      requires Idle() && !r.Shot? && !r.Switch?
      modifies this
      ensures Idle() && WorldOf(pool) == SerialCall(handleTick, old(WorldOf(pool)), r, a)
      ensures reply == ReplyTo(r, AtEntry(old(State()), a).ctx)
    {
      var code;
      match r {
        case ClearBudget => code := ClearTimeBudget(a);
        case SetCycles(cycles) => code := SetCyclesForTick(cycles, a);
        case SetTime(timeNs) => code := SetTimeForThrottle(timeNs, a);
        case SetImmediate => code := SetAsImmediate(a);
        case Flick(latNs, baseNs, now) => code := SetAsLatencyFlick(latNs, baseNs, now, a);
        case AddCycles(runcycle) => code := AddRuncycle(runcycle, a);
        case Chain(chain, percent, now) => code := ChainedFromLatency(chain, percent, now, a);
      }
      reply := Code(code);
    }

    method Shoot(now: U64, restart: U64, tail: nat -> seq<I>, a: Arrivals<I>, pool: seq<Cell>) returns (reply: Reply)
      requires Idle()
      modifies this
      ensures Idle() && WorldOf(pool) == SerialCall(handleTick, old(WorldOf(pool)), Shot(now, restart, tail), a)
      ensures reply == ReplyTo(Shot(now, restart, tail), AtEntry(old(State()), a).ctx)
    {
      var chain := ShotOnLatency(now, restart, a, tail);
      reply := Handed(chain);
    }

    method SwitchCells(to: nat, save: Option<nat>, a: Arrivals<I>, pool: seq<Cell>) returns (reply: Reply)
      requires Idle() && Distinct(pool) && InPool(Request<I>.Switch(to, save), |pool|)
      modifies this, pool
      ensures Idle() && reply == Code(0)
      ensures WorldOf(pool) == SerialCall(handleTick, old(WorldOf(pool)), Switch(to, save), a)
    {
      var saved: Cell? := null;
      if save.Some? {
        saved := pool[save.value];
      }
      var code := SwitchContext(pool[to], saved, a);
      reply := Code(code);
      ghost var entry := Entry(handleTick, old(WorldOf(pool)), a);
      assert Values(pool) == Body(Request<I>.Switch(to, save), entry).cells;
    }

    /** robflex_set_as_immediate: a single store, outside any section. */
    method SetAsImmediate(a: Arrivals<I>) returns (r: int)
      requires Idle()
      modifies this
      ensures Idle() && r == 0
      ensures var st := AtEntry(old(State()), a);
              State() == Serial(st, st.ctx.(policy := Immediate), a, 0)
    {
      Deliver(a.before);
      locCtx := locCtx.(policy := Immediate);
      Deliver(a.cleared);
      Deliver(a.finished);
      RunConcat(handleTick, AtEntry(old(State()), a).(ctx := AtEntry(old(State()), a).ctx.(policy := Immediate)),
        a.cleared, a.finished);
      assert a.cleared + a.finished == AfterSection(a, 0);
      return 0;
    }

    /** robflex_set_as_latency_flick; now is the clock reading of line 322. */
    method SetAsLatencyFlick(latNs: U64, baseNs: U64, now: U64, a: Arrivals<I>) returns (r: int)
      requires Idle()
      modifies this
      ensures Idle() && r == 0
      ensures var st := AtEntry(old(State()), a);
              State() == Serial(st, Flicked(st.ctx, latNs, baseNs, now), a, 7)
    {
      Enter(a);
      Interrupt(a, 0);
      locCtx := locCtx.(policy := LatencyOriented);
      Interrupt(a, 1);
      locCtx := locCtx.(lat := locCtx.lat.(targetLat := latNs));
      Interrupt(a, 2);
      locCtx := locCtx.(lat := locCtx.lat.(startTime := now));
      Interrupt(a, 3);
      locCtx := locCtx.(lat := locCtx.lat.(histNcycle := baseNs));
      Interrupt(a, 4);
      locCtx := locCtx.(lat := locCtx.lat.(totalLatency := 0));
      Interrupt(a, 5);
      locCtx := locCtx.(lat := locCtx.lat.(usedLatency := 0));
      Interrupt(a, 6);
      Leave(a, Deferred(a.during, 7));
      return 0;
    }

    /** robflex_add_runcycle */
    method AddRuncycle(runcycle: U64, a: Arrivals<I>) returns (r: int)
      requires Idle()
      modifies this
      ensures Idle() && r == 0
      ensures var st := AtEntry(old(State()), a);
              State() == Serial(st, CyclesAdded(st.ctx, runcycle), a, 2)
    {
      Enter(a);
      Interrupt(a, 0);
      locCtx := locCtx.(lat := locCtx.lat.(usedNcycle := Wrap64(locCtx.lat.usedNcycle + runcycle)));
      Interrupt(a, 1);
      Leave(a, Deferred(a.during, 2));
      return 0;
    }

    /** robflex_chained_from_latency */
    method ChainedFromLatency(chain: ChainContext, percent: I32, now: U64, a: Arrivals<I>) returns (r: int)
      requires Idle()
      modifies this
      ensures Idle() && r == 0
      ensures var st := AtEntry(old(State()), a);
              State() == Serial(st, Chained(st.ctx, chain, percent, now), a, 5)
    {
      Enter(a);
      Interrupt(a, 0);
      locCtx := locCtx.(lat := locCtx.lat.(startTime := now));
      Interrupt(a, 1);
      locCtx := locCtx.(lat := locCtx.lat.(totalLatency := chain.totalLatency));
      Interrupt(a, 2);
      locCtx := locCtx.(lat := locCtx.lat.(usedLatency := chain.usedLatency));
      Interrupt(a, 3);
      locCtx := locCtx.(lat := locCtx.lat.(latBias := Feedback(chain, percent)));
      Interrupt(a, 4);
      Leave(a, Deferred(a.during, 5));
      return 0;
    }

    /** robflex_shot_on_latency: only the part up to line 364 is a section. Ticks may run between the
        stores of lines 379-381, at the points `tail`; now and restart are the clock readings. */
    method ShotOnLatency(now: U64, restart: U64, a: Arrivals<I>, tail: nat -> seq<I>) returns (chain: ChainContext)
      requires Idle()
      modifies this
      ensures Idle()
      ensures var st := AtEntry(old(State()), a);
              if st.ctx.policy == LatencyOriented then
                && chain == Measured(st.ctx, now)
                && State() == Restarted(handleTick, Serial(st, RoundClosed(st.ctx), a, 6), restart, tail)
              else chain == ChainContext(0, 0, 0, 0) && State() == Serial(st, st.ctx, a, 2)
    {
      Enter(a);
      Interrupt(a, 0);
      if locCtx.policy != LatencyOriented {
        Interrupt(a, 1);
        Leave(a, Deferred(a.during, 2));
        return ChainContext(0, 0, 0, 0);
      }
      chain := CloseRound(now, a);
      Leave(a, Deferred(a.during, 6));
      Restart(restart, tail);
    }

    /** Lines 352-363 */
    method CloseRound(now: U64, a: Arrivals<I>) returns (chain: ChainContext)
      requires inCritical != 0 && nSignalPendings == Counter32(Deferred(a.during, 1))
      modifies this`locCtx, this`env, this`nSignalPendings
      ensures nSignalPendings == Counter32(Deferred(a.during, 6))
      ensures chain == Measured(old(locCtx), now) && State() == old(State()).(ctx := RoundClosed(old(locCtx)))
    {
      Interrupt(a, 1);
      var passTime := Wrap64(now - locCtx.lat.startTime);
      Interrupt(a, 2);
      chain := ChainContext(Wrap64(locCtx.lat.totalLatency + locCtx.lat.targetLat),
                            Wrap64(locCtx.lat.usedLatency + passTime), locCtx.lat.targetLat, passTime);
      Interrupt(a, 3);
      locCtx := locCtx.(lat := locCtx.lat.(histNcycle := Mean(locCtx.lat.histNcycle, locCtx.lat.usedNcycle)));
      Interrupt(a, 4);
      locCtx := locCtx.(lat := locCtx.lat.(usedNcycle := 0));
      Interrupt(a, 5);
    }

    /** Lines 379-381 */
    method Restart(restart: U64, tail: nat -> seq<I>)
      requires Idle()
      modifies this`locCtx, this`env, this`nSignalPendings
      ensures Idle() && State() == Restarted(handleTick, old(State()), restart, tail)
    {
      locCtx := StartMoved(locCtx, restart);
      Deliver(tail(0));
      locCtx := TotalCleared(locCtx);
      Deliver(tail(1));
      locCtx := UsedCleared(locCtx);
      Deliver(tail(2));
    }

    /** robflex_switch_context: the saved context holds every tick before the section and none after it,
        also when it is the cell the new context came from; then the call is a swap. */
    method SwitchContext(newContext: Cell, savedContext: Cell?, a: Arrivals<I>) returns (r: int)
      requires Idle()
      modifies this, savedContext
      ensures Idle() && r == 0
      ensures var st := AtEntry(old(State()), a);
              && State() == Serial(st, old(newContext.ctx), a, 3)
              && (savedContext != null ==> savedContext.ctx == st.ctx)
      ensures newContext != savedContext ==> newContext.ctx == old(newContext.ctx)
    {
      var backup := NO_CONTEXT;
      Enter(a);
      Interrupt(a, 0);
      if savedContext != null {
        backup := locCtx;
      }
      Interrupt(a, 1);
      locCtx := newContext.ctx;
      Interrupt(a, 2);
      Leave(a, Deferred(a.during, 3));
      if savedContext != null {
        savedContext.ctx := backup;
      }
      return 0;
    }
  }
}
