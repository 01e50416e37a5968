/** Where contexts live while robflex_switch_context moves them about (src/robflex_api.c): any run of the
    API calls, taken apart into ticks, updates and exchanges, charges each tick to exactly one context and
    keeps every context's charge with the one place that holds its latest value. */
module Switching {
  import opened Context
  import opened CriticalSection

  /** The atomic steps of a serial run. */
  datatype Act<!I> = Tick(input: I) | Update(write: LocalContext -> LocalContext) | Exchange(to: nat, save: Option<nat>)

  predicate Fits<I>(act: Act<I>, n: nat) {
    act.Exchange? ==> act.to < n && (act.save.Some? ==> act.save.value < n)
  }

  predicate AllFit<I>(acts: seq<Act<I>>, n: nat) {
    forall k :: 0 <= k < |acts| ==> Fits(acts[k], n)
  }

  function Apply<E, I>(tick: Tick<E, I>, w: World<E>, act: Act<I>): (after: World<E>)
    requires Fits(act, |w.cells|)
    ensures |after.cells| == |w.cells|
  {
    match act
    case Tick(input) => w.(thread := tick(w.thread, input))
    case Update(write) => w.(thread := w.thread.(ctx := write(w.thread.ctx)))
    case Exchange(to, save) =>
      World(w.thread.(ctx := w.cells[to]),
            if save.Some? then w.cells[save.value := w.thread.ctx] else w.cells)
  }

  function RunActs<E, I>(tick: Tick<E, I>, w: World<E>, acts: seq<Act<I>>): (after: World<E>)
    requires AllFit(acts, |w.cells|)
    ensures |after.cells| == |w.cells|
  {
    if acts == [] then w else
      Apply(tick, RunActs(tick, w, acts[..|acts| - 1]), acts[|acts| - 1])
  }

  lemma {:induction false} RunActsConcat<E, I>(tick: Tick<E, I>, w: World<E>, a: seq<Act<I>>, b: seq<Act<I>>)
    requires AllFit(a, |w.cells|) && AllFit(b, |w.cells|)
    ensures AllFit(a + b, |w.cells|)
    ensures RunActs(tick, w, a + b) == RunActs(tick, RunActs(tick, w, a), b)
  {
    if b == [] {
      assert a + b == a;
    } else {
      var n := |b| - 1;
      assert (a + b)[..|a| + n] == a + b[..n];
      RunActsConcat(tick, w, a, b[..n]);
    }
  }

  // The steps a call is made of.

  function TickActs<I>(inputs: seq<I>): seq<Act<I>> {
    seq(|inputs|, i requires 0 <= i < |inputs| => Tick(inputs[i]))
  }

  function BodyAct<I>(r: Request<I>): Act<I> {
    if r.Switch? then Exchange(r.to, r.save) else Update(c => Effect(r, c))
  }

  function TailActs<I>(restart: U64, tail: nat -> seq<I>): seq<Act<I>> {
    [Update(c => StartMoved(c, restart))] + TickActs(tail(0))
    + [Update(TotalCleared)] + TickActs(tail(1))
    + [Update(UsedCleared)] + TickActs(tail(2))
  }

  /** The steps up to the end of the drain loop. */
  function SectionActs<E, I>(tick: Tick<E, I>, w: World<E>, r: Request<I>, a: Arrivals<I>): seq<Act<I>> {
    var deferred := Deferred(a.during, Points(r, Entry(tick, w, a).thread.ctx));
    TickActs(a.before) + ([BodyAct(r)] + TickActs(AfterSection(a, deferred)))
  }

  function CallActs<E, I>(tick: Tick<E, I>, w: World<E>, r: Request<I>, a: Arrivals<I>): seq<Act<I>> {
    if r.Shot? && Entry(tick, w, a).thread.ctx.policy == LatencyOriented then
      SectionActs(tick, w, r, a) + TailActs(r.restart, r.tail)
    else SectionActs(tick, w, r, a)
  }

  function ScriptActs<E, I>(tick: Tick<E, I>, w: World<E>, script: Script<I>): seq<Act<I>>
    requires ScriptInPool(script, |w.cells|)
  {
    if script == [] then [] else
      var front, (r, a) := script[..|script| - 1], script[|script| - 1];
      ScriptActs(tick, w, front) + CallActs(tick, SerialRun(tick, w, front).0, r, a)
  }

  lemma {:induction false} TicksRun<E, I>(tick: Tick<E, I>, w: World<E>, inputs: seq<I>)
    ensures RunActs(tick, w, TickActs(inputs)) == w.(thread := Run(tick, w.thread, inputs))
  {
    if inputs == [] {
    } else {
      var n := |inputs| - 1;
      assert TickActs(inputs)[..n] == TickActs(inputs[..n]);
      TicksRun(tick, w, inputs[..n]);
    }
  }

  lemma OneAct<E, I>(tick: Tick<E, I>, w: World<E>, act: Act<I>)
    requires Fits(act, |w.cells|)
    ensures RunActs(tick, w, [act]) == Apply(tick, w, act)
  {
    assert [act][..0] == [];
  }

  lemma ThenTicks<E, I>(tick: Tick<E, I>, w: World<E>, act: Act<I>, inputs: seq<I>)
    requires Fits(act, |w.cells|)
    ensures var w1 := Apply(tick, w, act);
            AllFit([act] + TickActs(inputs), |w.cells|) &&
            RunActs(tick, w, [act] + TickActs(inputs)) == w1.(thread := Run(tick, w1.thread, inputs))
  {
    OneAct(tick, w, act);
    RunActsConcat(tick, w, [act], TickActs(inputs));
    TicksRun(tick, Apply(tick, w, act), inputs);
  }

  lemma TailIsActs<E, I>(tick: Tick<E, I>, w: World<E>, restart: U64, tail: nat -> seq<I>)
    ensures AllFit(TailActs(restart, tail), |w.cells|)
    ensures RunActs(tick, w, TailActs(restart, tail)) == w.(thread := Restarted(tick, w.thread, restart, tail))
  {
    var a := [Update(c => StartMoved(c, restart))] + TickActs(tail(0));
    var b := [Update(TotalCleared)] + TickActs(tail(1));
    var c := [Update(UsedCleared)] + TickActs(tail(2));
    assert TailActs(restart, tail) == a + b + c;
    ThenTicks(tick, w, a[0], tail(0));
    var w1 := RunActs(tick, w, a);
    ThenTicks(tick, w1, b[0], tail(1));
    RunActsConcat(tick, w, a, b);
    ThenTicks(tick, RunActs(tick, w1, b), c[0], tail(2));
    RunActsConcat(tick, w, a + b, c);
  }

  lemma BodyIsAct<E, I>(tick: Tick<E, I>, w: World<E>, r: Request<I>)
    requires InPool(r, |w.cells|)
    ensures Apply(tick, w, BodyAct(r)) == Body(r, w)
  {
  }

  lemma SectionIsActs<E, I>(tick: Tick<E, I>, w: World<E>, r: Request<I>, a: Arrivals<I>)
    requires InPool(r, |w.cells|)
    ensures AllFit(SectionActs(tick, w, r, a), |w.cells|)
    ensures var entry := Entry(tick, w, a);
            var body := Body(r, entry);
            RunActs(tick, w, SectionActs(tick, w, r, a)) ==
            body.(thread := Run(tick, body.thread, AfterSection(a, Deferred(a.during, Points(r, entry.thread.ctx)))))
  {
    var entry := Entry(tick, w, a);
    var after := AfterSection(a, Deferred(a.during, Points(r, entry.thread.ctx)));
    TicksRun(tick, w, a.before);
    ThenTicks(tick, entry, BodyAct(r), after);
    BodyIsAct(tick, entry, r);
    RunActsConcat(tick, w, TickActs(a.before), [BodyAct(r)] + TickActs(after));
  }

  lemma CallIsActs<E, I>(tick: Tick<E, I>, w: World<E>, r: Request<I>, a: Arrivals<I>)
    requires InPool(r, |w.cells|)
    ensures AllFit(CallActs(tick, w, r, a), |w.cells|)
    ensures RunActs(tick, w, CallActs(tick, w, r, a)) == SerialCall(tick, w, r, a)
  {
    SectionIsActs(tick, w, r, a);
    if r.Shot? && Entry(tick, w, a).thread.ctx.policy == LatencyOriented {
      var done := RunActs(tick, w, SectionActs(tick, w, r, a));
      TailIsActs(tick, done, r.restart, r.tail);
      RunActsConcat(tick, w, SectionActs(tick, w, r, a), TailActs(r.restart, r.tail));
    }
  }

  /** The serial run of a script is the run of its steps. */
  lemma {:induction false} ScriptIsActs<E, I>(tick: Tick<E, I>, w: World<E>, script: Script<I>)
    requires ScriptInPool(script, |w.cells|)
    ensures AllFit(ScriptActs(tick, w, script), |w.cells|)
    ensures RunActs(tick, w, ScriptActs(tick, w, script)) == SerialRun(tick, w, script).0
  {
    if script == [] {
    } else {
      var front, last := script[..|script| - 1], script[|script| - 1];
      var before := SerialRun(tick, w, front).0;
      ScriptIsActs(tick, w, front);
      CallIsActs(tick, before, last.0, last.1);
      RunActsConcat(tick, w, ScriptActs(tick, w, front), CallActs(tick, before, last.0, last.1));
    }
  }

  // Who holds the latest value of each context.

  /** The context whose latest value the thread holds and the one each cell holds; None for a value that
      is out of date or that no one follows. */
  datatype Holders = Holders(thread: Option<nat>, cells: seq<Option<nat>>)

  /** No context has two holders. */
  predicate Single(h: Holders) {
    && (h.thread.Some? ==> h.thread !in h.cells)
    && forall i, j :: 0 <= i < j < |h.cells| && h.cells[i].Some? ==> h.cells[i] != h.cells[j]
  }

  /** An exchange hands the context of the cell to the thread, which leaves an outdated copy in the cell,
      and the thread's to the cell it is saved to. */
  function Moved<I>(h: Holders, act: Act<I>): (after: Holders)
    requires Fits(act, |h.cells|)
    ensures |after.cells| == |h.cells|
  {
    if !act.Exchange? then h else
      var left := h.cells[act.to := None];
      Holders(h.cells[act.to], if act.save.Some? then left[act.save.value := h.thread] else left)
  }

  function MovedBy<I>(h: Holders, acts: seq<Act<I>>): (after: Holders)
    requires AllFit(acts, |h.cells|)
    ensures |after.cells| == |h.cells|
  {
    if acts == [] then h else Moved(MovedBy(h, acts[..|acts| - 1]), acts[|acts| - 1])
  }

  /** How much one step changes the charge of context k: by what it does to the thread's value while the
      thread holds k. */
  function GainIn<E, I>(tick: Tick<E, I>, charge: LocalContext -> int, w: World<E>, h: Holders, act: Act<I>,
                        k: nat): int
    requires Fits(act, |w.cells|)
  {
    if h.thread == Some(k) && !act.Exchange? then charge(Apply(tick, w, act).thread.ctx) - charge(w.thread.ctx) else 0
  }

  function Gain<E, I>(tick: Tick<E, I>, charge: LocalContext -> int, w: World<E>, h: Holders, acts: seq<Act<I>>,
                      k: nat): int
    requires AllFit(acts, |w.cells|) && |h.cells| == |w.cells|
  {
    if acts == [] then 0 else
      var front := acts[..|acts| - 1];
      Gain(tick, charge, w, h, front, k)
      + GainIn(tick, charge, RunActs(tick, w, front), MovedBy(h, front), acts[|acts| - 1], k)
  }

  /** Every holder's value has the charge the ledger records for its context. */
  ghost predicate Settled<E>(w: World<E>, h: Holders, charge: LocalContext -> int, ledger: nat -> int) {
    && |h.cells| == |w.cells|
    && (h.thread.Some? ==> charge(w.thread.ctx) == ledger(h.thread.value))
    && forall j :: 0 <= j < |h.cells| && h.cells[j].Some? ==> charge(w.cells[j]) == ledger(h.cells[j].value)
  }

  lemma ActSettles<E, I>(tick: Tick<E, I>, charge: LocalContext -> int, w: World<E>, h: Holders, act: Act<I>,
                         ledger: nat -> int, after: nat -> int)
    requires Single(h) && Settled(w, h, charge, ledger) && Fits(act, |w.cells|)
    requires forall k :: after(k) == ledger(k) + GainIn(tick, charge, w, h, act, k)
    ensures Single(Moved(h, act)) && Settled(Apply(tick, w, act), Moved(h, act), charge, after)
  {
  }

  /** No charge is lost or misplaced by any run of ticks, updates and exchanges, whichever cells they save
      to: a context's latest value has its initial charge plus what was added while the thread held it. */
  lemma {:induction false} ExchangesKeepCharges<E, I>(tick: Tick<E, I>, charge: LocalContext -> int, w: World<E>,
                                                      h: Holders, acts: seq<Act<I>>, ledger: nat -> int)
    requires Single(h) && Settled(w, h, charge, ledger) && AllFit(acts, |w.cells|)
    ensures Single(MovedBy(h, acts))
    ensures Settled(RunActs(tick, w, acts), MovedBy(h, acts), charge,
                    (k: nat) => ledger(k) + Gain(tick, charge, w, h, acts, k))
  {
    if acts == [] {
    } else {
      var front, act := acts[..|acts| - 1], acts[|acts| - 1];
      var before: nat -> int := (k: nat) => ledger(k) + Gain(tick, charge, w, h, front, k);
      var after: nat -> int := (k: nat) => ledger(k) + Gain(tick, charge, w, h, acts, k);
      ExchangesKeepCharges(tick, charge, w, h, front, ledger);
      forall k: nat
        ensures after(k) == before(k) + GainIn(tick, charge, RunActs(tick, w, front), MovedBy(h, front), act, k)
      {
        assert before(k) == ledger(k) + Gain(tick, charge, w, h, front, k);
        assert after(k) == ledger(k) + Gain(tick, charge, w, h, acts, k);
      }
      ActSettles(tick, charge, RunActs(tick, w, front), MovedBy(h, front), act, before, after);
    }
  }

  /** The thread's calls do so: whatever script it performs, with signals at arbitrary points. */
  method PerformKeepingCharges<E, I>(t: Thread<E, I>, script: Script<I>, pool: seq<Cell>,
                                     ghost charge: LocalContext -> int, ghost h: Holders, ghost ledger: nat -> int)
    returns (replies: seq<Reply>, ghost acts: seq<Act<I>>)
    requires t.Idle() && Distinct(pool) && ScriptInPool(script, |pool|)
    requires Single(h) && Settled(t.WorldOf(pool), h, charge, ledger)
    modifies t, pool
    ensures t.Idle() && acts == ScriptActs(t.handleTick, old(t.WorldOf(pool)), script) && AllFit(acts, |pool|)
    ensures Settled(t.WorldOf(pool), MovedBy(h, acts), charge,
                    (k: nat) => ledger(k) + Gain(t.handleTick, charge, old(t.WorldOf(pool)), h, acts, k))
  {
    ghost var w := t.WorldOf(pool);
    ScriptIsActs(t.handleTick, w, script);
    acts := ScriptActs(t.handleTick, w, script);
    ExchangesKeepCharges(t.handleTick, charge, w, h, acts, ledger);
    replies := t.Perform(script, pool);
  }

  // Each tick is charged to one context.

  /** The ticks that run while the thread holds a given context (or None). */
  function TicksOf<I>(h: Holders, acts: seq<Act<I>>, who: Option<nat>): nat
    requires AllFit(acts, |h.cells|)
  {
    if acts == [] then 0 else
      var front := acts[..|acts| - 1];
      TicksOf(h, front, who) + if acts[|acts| - 1].Tick? && MovedBy(h, front).thread == who then 1 else 0
  }

  function TicksBelow<I>(h: Holders, acts: seq<Act<I>>, n: nat): nat
    requires AllFit(acts, |h.cells|)
  {
    if n == 0 then 0 else TicksBelow(h, acts, n - 1) + TicksOf(h, acts, Some(n - 1))
  }

  function TicksIn<I>(acts: seq<Act<I>>): nat {
    if acts == [] then 0 else TicksIn(acts[..|acts| - 1]) + if acts[|acts| - 1].Tick? then 1 else 0
  }

  predicate Below(h: Holders, n: nat) {
    && (h.thread.Some? ==> h.thread.value < n)
    && forall j :: 0 <= j < |h.cells| && h.cells[j].Some? ==> h.cells[j].value < n
  }

  lemma {:induction false} OneMoreTick<I>(h: Holders, acts: seq<Act<I>>, n: nat)
    requires acts != [] && AllFit(acts, |h.cells|)
    ensures var front := acts[..|acts| - 1];
            var who := MovedBy(h, front).thread;
            TicksBelow(h, acts, n) == TicksBelow(h, front, n)
                                      + if acts[|acts| - 1].Tick? && who.Some? && who.value < n then 1 else 0
  {
    if n == 0 {
    } else {
      OneMoreTick(h, acts, n - 1);
    }
  }

  /** The ticks charged to the contexts followed and to none of them add up to all the ticks that run. */
  lemma {:induction false} EveryTickIsCharged<I>(h: Holders, acts: seq<Act<I>>, n: nat)
    requires Below(h, n) && AllFit(acts, |h.cells|)
    ensures TicksBelow(h, acts, n) + TicksOf(h, acts, None) == TicksIn(acts)
    ensures Below(MovedBy(h, acts), n)
  {
    if acts == [] {
      NoTicks<I>(h, n);
    } else {
      EveryTickIsCharged(h, acts[..|acts| - 1], n);
      OneMoreTick(h, acts, n);
    }
  }

  lemma {:induction false} NoTicks<I>(h: Holders, n: nat)
    ensures AllFit<I>([], |h.cells|) && TicksBelow<I>(h, [], n) == 0
  {
    if n == 0 {
    } else {
      NoTicks<I>(h, n - 1);
    }
  }

  /** How much the updates of a run, which are the bodies of the calls, change the charge of context k. */
  function UpdateGain<E, I>(tick: Tick<E, I>, charge: LocalContext -> int, w: World<E>, h: Holders, acts: seq<Act<I>>,
                            k: nat): int
    requires AllFit(acts, |w.cells|) && |h.cells| == |w.cells|
  {
    if acts == [] then 0 else
      var front, act := acts[..|acts| - 1], acts[|acts| - 1];
      UpdateGain(tick, charge, w, h, front, k)
      + if act.Update? then GainIn(tick, charge, RunActs(tick, w, front), MovedBy(h, front), act, k) else 0
  }

  /** What the ticks that run while the thread holds context k weigh: each by its input and the value it
      finds. */
  function TickWeight<E, I>(tick: Tick<E, I>, weight: (LocalContext, I) -> int, w: World<E>, h: Holders,
                            acts: seq<Act<I>>, k: nat): int
    requires AllFit(acts, |w.cells|) && |h.cells| == |w.cells|
  {
    if acts == [] then 0 else
      var front, act := acts[..|acts| - 1], acts[|acts| - 1];
      TickWeight(tick, weight, w, h, front, k)
      + if act.Tick? && MovedBy(h, front).thread == Some(k) then weight(RunActs(tick, w, front).thread.ctx, act.input)
        else 0
  }

  /** In this run every tick adds its weight to the charge of context k, modulo 2 to the 64. */
  predicate TicksAdd<E, I>(tick: Tick<E, I>, charge: LocalContext -> int, weight: (LocalContext, I) -> int,
                           w: World<E>, h: Holders, acts: seq<Act<I>>, k: nat)
    requires AllFit(acts, |w.cells|) && |h.cells| == |w.cells|
  {
    acts != [] ==>
      var front := acts[..|acts| - 1];
      && TicksAdd(tick, charge, weight, w, h, front, k)
      && TickAdds(tick, charge, weight, RunActs(tick, w, front), MovedBy(h, front), acts[|acts| - 1], k)
  }

  predicate TickAdds<E, I>(tick: Tick<E, I>, charge: LocalContext -> int, weight: (LocalContext, I) -> int,
                           w: World<E>, h: Holders, act: Act<I>, k: nat)
  {
    act.Tick? && h.thread == Some(k) ==>
      Wrap64(charge(tick(w.thread, act.input).ctx) - charge(w.thread.ctx)) == Wrap64(weight(w.thread.ctx, act.input))
  }

  /** Then the run adds to it the weight of the ticks that ran while the thread held k, and what the calls
      did themselves. */
  lemma {:induction false} GainIsTickWeight<E, I>(tick: Tick<E, I>, charge: LocalContext -> int,
                                                  weight: (LocalContext, I) -> int, w: World<E>, h: Holders,
                                                  acts: seq<Act<I>>, k: nat)
    requires AllFit(acts, |w.cells|) && |h.cells| == |w.cells| && TicksAdd(tick, charge, weight, w, h, acts, k)
    ensures Wrap64(Gain(tick, charge, w, h, acts, k)) ==
            Wrap64(TickWeight(tick, weight, w, h, acts, k) + UpdateGain(tick, charge, w, h, acts, k))
  {
    if acts == [] {
    } else {
      var front, act := acts[..|acts| - 1], acts[|acts| - 1];
      GainIsTickWeight(tick, charge, weight, w, h, front, k);
      var before := RunActs(tick, w, front);
      var gain, more := Gain(tick, charge, w, h, front, k), GainIn(tick, charge, before, MovedBy(h, front), act, k);
      var ticks, updates := TickWeight(tick, weight, w, h, front, k), UpdateGain(tick, charge, w, h, front, k);
      if act.Tick? && MovedBy(h, front).thread == Some(k) {
        WrapSums(gain, ticks + updates, more, weight(before.thread.ctx, act.input));
      } else {
        WrapSums(gain, ticks + updates, more, more);
      }
    }
  }

  lemma WrapSums(a: int, b: int, c: int, d: int)
    requires Wrap64(a) == Wrap64(b) && Wrap64(c) == Wrap64(d)
    ensures Wrap64(a + c) == Wrap64(b + d)
  {
    WrapAdds(a, c);
    WrapAdds(b, c);
    WrapAdds(c, b);
    WrapAdds(d, b);
  }

  // Which contexts a run loses.

  predicate Holds(h: Holders, k: nat) {
    h.thread == Some(k) || Some(k) in h.cells
  }

  /** A switch loses the thread's context when it does not save it, and otherwise the context whose cell
      it overwrites, unless that is the cell it has just loaded. */
  predicate Loses<I>(h: Holders, act: Act<I>, k: nat)
    requires Fits(act, |h.cells|)
  {
    act.Exchange? &&
    match act.save
    case None => h.thread == Some(k)
    case Some(s) => s != act.to && h.cells[s] == Some(k)
  }

  lemma MovedHolds<I>(h: Holders, act: Act<I>, k: nat)
    requires Single(h) && Fits(act, |h.cells|)
    ensures Holds(Moved(h, act), k) <==> Holds(h, k) && !Loses(h, act, k)
  {
    var after := Moved(h, act);
    if act.Exchange? && Holds(h, k) && !Loses(h, act, k) {
      if h.thread == Some(k) {
        assert after.cells[act.save.value] == Some(k);
      } else {
        var j :| 0 <= j < |h.cells| && h.cells[j] == Some(k);
        assert j == act.to || after.cells[j] == Some(k);
      }
    }
  }

  predicate LosesIn<I>(h: Holders, acts: seq<Act<I>>, k: nat)
    requires AllFit(acts, |h.cells|)
  {
    acts != [] &&
    var front := acts[..|acts| - 1];
    LosesIn(h, front, k) || Loses(MovedBy(h, front), acts[|acts| - 1], k)
  }

  /** A context's latest value survives a run exactly when no switch of the run loses it. */
  lemma {:induction false} SurvivesExactly<I>(h: Holders, acts: seq<Act<I>>, k: nat)
    requires Single(h) && AllFit(acts, |h.cells|)
    ensures Single(MovedBy(h, acts))
    ensures Holds(MovedBy(h, acts), k) <==> Holds(h, k) && !LosesIn(h, acts, k)
  {
    if acts == [] {
    } else {
      SurvivesExactly(h, acts[..|acts| - 1], k);
      MovedHolds(MovedBy(h, acts[..|acts| - 1]), acts[|acts| - 1], k);
    }
  }
}
