/** Chains of latency rounds that are handed from stage to stage (src/robflex_api.c): what reaches the
    end of a pipeline, whatever ticks interleave with its calls. */
module Pipelines {
  import opened Context
  import opened CriticalSection
  import opened Throttle

  /** The latency fields only the API calls write; no tick handler changes them. */
  predicate SameChainFields(c: LocalContext, d: LocalContext) {
    && c.policy == d.policy && c.lat.targetLat == d.lat.targetLat && c.lat.startTime == d.lat.startTime
    && c.lat.totalLatency == d.lat.totalLatency && c.lat.usedLatency == d.lat.usedLatency
    && c.lat.histNcycle == d.lat.histNcycle && c.lat.latBias == d.lat.latBias
  }

  ghost predicate KeepsChain<E(!new), I(!new)>(tick: Tick<E, I>) {
    forall st, i :: SameChainFields(tick(st, i).ctx, st.ctx)
  }

  lemma {:induction false} RunKeepsChain<E(!new), I(!new)>(tick: Tick<E, I>, st: ThreadState<E>, inputs: seq<I>)
    requires KeepsChain(tick)
    ensures SameChainFields(Run(tick, st, inputs).ctx, st.ctx)
  {
    if inputs == [] {
    } else {
      RunKeepsChain(tick, st, inputs[..|inputs| - 1]);
    }
  }

  /** One stage of a pipeline on its own thread, in latency mode with its own target: it starts at one
      clock reading, any ticks interleave, and it shoots at another. */
  datatype Stage<E, I> = Stage(at: ThreadState<E>, feedback: I32, begin: U64, ticks: seq<I>, end: U64)

  /** What the stage hands on, given the chain context it received. */
  function Relay<E, I>(tick: Tick<E, I>, chain: ChainContext, s: Stage<E, I>): ChainContext {
    Measured(Run(tick, s.at.(ctx := Chained(s.at.ctx, chain, s.feedback, s.begin)), s.ticks).ctx, s.end)
  }

  /** The first stage starts the chain with robflex_set_as_latency_flick. */
  function Start<E, I>(tick: Tick<E, I>, latNs: U64, baseNs: U64, s: Stage<E, I>): ChainContext {
    Measured(Run(tick, s.at.(ctx := Flicked(s.at.ctx, latNs, baseNs, s.begin)), s.ticks).ctx, s.end)
  }

  function Pipeline<E, I>(tick: Tick<E, I>, latNs: U64, baseNs: U64, first: Stage<E, I>,
                          rest: seq<Stage<E, I>>): ChainContext {
    if rest == [] then Start(tick, latNs, baseNs, first)
    else Relay(tick, Pipeline(tick, latNs, baseNs, first, rest[..|rest| - 1]), rest[|rest| - 1])
  }

  function LocalTime<E, I>(s: Stage<E, I>): U64 {
    Wrap64(s.end - s.begin)
  }

  function TargetSum<E, I>(rest: seq<Stage<E, I>>): nat {
    if rest == [] then 0 else TargetSum(rest[..|rest| - 1]) + rest[|rest| - 1].at.ctx.lat.targetLat
  }

  function TimeSum<E, I>(rest: seq<Stage<E, I>>): nat {
    if rest == [] then 0 else TimeSum(rest[..|rest| - 1]) + LocalTime(rest[|rest| - 1])
  }

  function LocalSlacks<E, I>(rest: seq<Stage<E, I>>): int {
    if rest == [] then 0
    else LocalSlacks(rest[..|rest| - 1]) + rest[|rest| - 1].at.ctx.lat.targetLat - LocalTime(rest[|rest| - 1])
  }

  /** One stage adds its target and its measured time to the totals it was handed. */
  lemma RelayAdds<E(!new), I(!new)>(tick: Tick<E, I>, chain: ChainContext, s: Stage<E, I>)
    requires KeepsChain(tick)
    ensures Relay(tick, chain, s) ==
            ChainContext(Wrap64(chain.totalLatency + s.at.ctx.lat.targetLat), Wrap64(chain.usedLatency + LocalTime(s)),
                         s.at.ctx.lat.targetLat, LocalTime(s))
  {
    RunKeepsChain(tick, s.at.(ctx := Chained(s.at.ctx, chain, s.feedback, s.begin)), s.ticks);
  }

  lemma StartBegins<E(!new), I(!new)>(tick: Tick<E, I>, latNs: U64, baseNs: U64, s: Stage<E, I>)
    requires KeepsChain(tick)
    ensures Start(tick, latNs, baseNs, s) == ChainContext(latNs, LocalTime(s), latNs, LocalTime(s))
  {
    RunKeepsChain(tick, s.at.(ctx := Flicked(s.at.ctx, latNs, baseNs, s.begin)), s.ticks);
    WrapSmall(latNs);
    WrapSmall(LocalTime(s));
  }

  lemma RelayTotals<E(!new), I(!new)>(tick: Tick<E, I>, chain: ChainContext, s: Stage<E, I>, x: int, y: int)
    requires KeepsChain(tick) && chain.totalLatency == Wrap64(x) && chain.usedLatency == Wrap64(y)
    ensures Relay(tick, chain, s).totalLatency == Wrap64(x + s.at.ctx.lat.targetLat)
    ensures Relay(tick, chain, s).usedLatency == Wrap64(y + LocalTime(s))
  {
    RelayAdds(tick, chain, s);
    WrapAdds(x, s.at.ctx.lat.targetLat);
    WrapAdds(y, LocalTime(s));
  }

  lemma {:induction false} TotalsAre<E(!new), I(!new)>(tick: Tick<E, I>, latNs: U64, baseNs: U64, first: Stage<E, I>,
                                                       rest: seq<Stage<E, I>>, x: int, y: int)
    requires KeepsChain(tick) && x == latNs + TargetSum(rest) && y == LocalTime(first) + TimeSum(rest)
    ensures var out := Pipeline(tick, latNs, baseNs, first, rest);
            out.totalLatency == Wrap64(x) && out.usedLatency == Wrap64(y)
  {
    if rest == [] {
      StartBegins(tick, latNs, baseNs, first);
      WrapSmall(x);
      WrapSmall(y);
    } else {
      var front, s := rest[..|rest| - 1], rest[|rest| - 1];
      var x', y' := x - s.at.ctx.lat.targetLat, y - LocalTime(s);
      TotalsAre(tick, latNs, baseNs, first, front, x', y');
      RelayTotals(tick, Pipeline(tick, latNs, baseNs, first, front), s, x', y');
    }
  }

  /** Chain conservation: whatever ticks interleave, the total is the sum of the targets of all stages,
      in 64-bit arithmetic. */
  lemma TargetsConserved<E(!new), I(!new)>(tick: Tick<E, I>, latNs: U64, baseNs: U64, first: Stage<E, I>,
                                           rest: seq<Stage<E, I>>)
    requires KeepsChain(tick)
    ensures Pipeline(tick, latNs, baseNs, first, rest).totalLatency == Wrap64(latNs + TargetSum(rest))
  {
    TotalsAre(tick, latNs, baseNs, first, rest, latNs + TargetSum(rest), LocalTime(first) + TimeSum(rest));
  }

  /** And the used latency is the sum of the times measured by all stages. */
  lemma TimesConserved<E(!new), I(!new)>(tick: Tick<E, I>, latNs: U64, baseNs: U64, first: Stage<E, I>,
                                         rest: seq<Stage<E, I>>)
    requires KeepsChain(tick)
    ensures Pipeline(tick, latNs, baseNs, first, rest).usedLatency == Wrap64(LocalTime(first) + TimeSum(rest))
  {
    TotalsAre(tick, latNs, baseNs, first, rest, latNs + TargetSum(rest), LocalTime(first) + TimeSum(rest));
  }

  lemma {:induction false} SlacksAreSums<E, I>(rest: seq<Stage<E, I>>)
    ensures LocalSlacks(rest) == TargetSum(rest) - TimeSum(rest)
  {
    if rest == [] {
    } else {
      SlacksAreSums(rest[..|rest| - 1]);
    }
  }

  /** End-to-end slack is the sum of the local slacks, as long as the totals fit 64 bits. */
  lemma EndToEndSlack<E(!new), I(!new)>(tick: Tick<E, I>, latNs: U64, baseNs: U64, first: Stage<E, I>,
                                        rest: seq<Stage<E, I>>)
    requires KeepsChain(tick)
    requires latNs + TargetSum(rest) < TWO_TO_THE_64 && LocalTime(first) + TimeSum(rest) < TWO_TO_THE_64
    ensures var out := Pipeline(tick, latNs, baseNs, first, rest);
            out.totalLatency - out.usedLatency == latNs - LocalTime(first) + LocalSlacks(rest)
  {
    TargetsConserved(tick, latNs, baseNs, first, rest);
    TimesConserved(tick, latNs, baseNs, first, rest);
    SlacksAreSums(rest);
    WrapSmall(latNs + TargetSum(rest));
    WrapSmall(LocalTime(first) + TimeSum(rest));
  }

  /** A stage on a thread: what it shoots is the relay of what it was handed, with the ticks that ran
      in between. */
  method RelayOnThread<E(!new), I(!new)>(t: Thread<E, I>, chain: ChainContext, feedback: I32, begin: U64, end: U64,
                                         restart: U64, entering: Arrivals<I>, shooting: Arrivals<I>,
                                         tail: nat -> seq<I>)
    returns (next: ChainContext, ghost ticks: seq<I>)
    requires t.Idle() && t.locCtx.policy == LatencyOriented && KeepsChain(t.handleTick)
    modifies t
    ensures t.Idle()
    ensures next == Relay(t.handleTick, chain, Stage(t.AtEntry(old(t.State()), entering), feedback, begin, ticks, end))
  {
    ghost var st := t.AtEntry(t.State(), entering);
    RunKeepsChain(t.handleTick, t.State(), entering.before);
    var _ := t.ChainedFromLatency(chain, feedback, begin, entering);
    ghost var after := AfterSection(entering, Deferred(entering.during, 5));
    ticks := after + shooting.before;
    ghost var body := st.(ctx := Chained(st.ctx, chain, feedback, begin));
    RunConcat(t.handleTick, body, after, shooting.before);
    RunKeepsChain(t.handleTick, body, ticks);
    next := t.ShotOnLatency(end, restart, shooting, tail);
  }
  /** And the first stage: what it shoots is the start of the chain. */
  method StartOnThread<E(!new), I(!new)>(t: Thread<E, I>, latNs: U64, baseNs: U64, begin: U64, end: U64,
                                         restart: U64, entering: Arrivals<I>, shooting: Arrivals<I>,
                                         tail: nat -> seq<I>)
    returns (chain: ChainContext, ghost ticks: seq<I>)
    requires t.Idle() && KeepsChain(t.handleTick)
    modifies t
    ensures t.Idle()
    ensures chain ==
            Start(t.handleTick, latNs, baseNs, Stage(t.AtEntry(old(t.State()), entering), 0, begin, ticks, end))
  {
    ghost var st := t.AtEntry(t.State(), entering);
    var _ := t.SetAsLatencyFlick(latNs, baseNs, begin, entering);
    ghost var after := AfterSection(entering, Deferred(entering.during, 7));
    ticks := after + shooting.before;
    ghost var body := st.(ctx := Flicked(st.ctx, latNs, baseNs, begin));
    RunConcat(t.handleTick, body, after, shooting.before);
    RunKeepsChain(t.handleTick, body, ticks);
    chain := t.ShotOnLatency(end, restart, shooting, tail);
  }
  // What a call leaves on its thread, whatever ticks run around its section.

  /** The feedback is the given percentage of the slack of the stage before, rounded toward zero: for a
      positive percentage it is never positive after an overrun and never negative after a stage in time. */
  lemma FeedbackIsShare(chain: ChainContext, percent: I32)
    requires chain.localTargetLatency < TWO_TO_THE_63 && chain.localUsedLatency < TWO_TO_THE_63
    requires -TWO_TO_THE_63 <= (chain.localTargetLatency - chain.localUsedLatency) * percent < TWO_TO_THE_63
    ensures IsPercentage(Feedback(chain, percent), chain.localTargetLatency - chain.localUsedLatency, percent)
  {
    var slack := chain.localTargetLatency - chain.localUsedLatency;
    ToSignedExact(slack * percent);
    CDivTruncates(slack * percent, 100);
    if percent > 0 {
      SignOfProduct(slack, percent);
    }
  }

  /** share is percent / 100 of whole, rounded toward zero. */
  predicate IsPercentage(share: int, whole: int, percent: int) {
    && -100 < whole * percent - 100 * share < 100
    && (if whole * percent >= 0 then 0 <= 100 * share <= whole * percent else whole * percent <= 100 * share <= 0)
    && (percent > 0 ==> if whole >= 0 then share >= 0 else share <= 0)
  }

  /** What the last stage hands on is its own target and its own time, for the next one's feedback. */
  lemma HandsOnOwnTimes<E(!new), I(!new)>(tick: Tick<E, I>, latNs: U64, baseNs: U64, first: Stage<E, I>,
                                          rest: seq<Stage<E, I>>)
    requires KeepsChain(tick)
    ensures var out := Pipeline(tick, latNs, baseNs, first, rest);
            if rest == [] then out.localTargetLatency == latNs && out.localUsedLatency == LocalTime(first)
            else var s := rest[|rest| - 1];
                 out.localTargetLatency == s.at.ctx.lat.targetLat && out.localUsedLatency == LocalTime(s)
  {
    if rest == [] {
      StartBegins(tick, latNs, baseNs, first);
    } else {
      RelayAdds(tick, Pipeline(tick, latNs, baseNs, first, rest[..|rest| - 1]), rest[|rest| - 1]);
    }
  }

  /** robflex_chained_from_latency starts the round now, with the totals it was handed and that feedback. */
  method ChainOnThread<E(!new), I(!new)>(t: Thread<E, I>, chain: ChainContext, percent: I32, now: U64, a: Arrivals<I>)
    requires t.Idle() && KeepsChain(t.handleTick)
    modifies t
    ensures t.Idle()
    ensures var lat := t.locCtx.lat;
            lat.startTime == now && lat.totalLatency == chain.totalLatency && lat.usedLatency == chain.usedLatency
    ensures var slack := chain.localTargetLatency - chain.localUsedLatency;
            chain.localTargetLatency < TWO_TO_THE_63 && chain.localUsedLatency < TWO_TO_THE_63 &&
            -TWO_TO_THE_63 <= slack * percent < TWO_TO_THE_63 ==>
              IsPercentage(t.locCtx.lat.latBias, slack, percent)
  {
    ghost var st := t.AtEntry(t.State(), a);
    var _ := t.ChainedFromLatency(chain, percent, now, a);
    RunKeepsChain(t.handleTick, st.(ctx := Chained(st.ctx, chain, percent, now)),
                  AfterSection(a, Deferred(a.during, 5)));
    if chain.localTargetLatency < TWO_TO_THE_63 && chain.localUsedLatency < TWO_TO_THE_63 &&
       -TWO_TO_THE_63 <= (chain.localTargetLatency - chain.localUsedLatency) * percent < TWO_TO_THE_63 {
      FeedbackIsShare(chain, percent);
    }
  }

  /** robflex_set_as_latency_flick starts a round and a chain. */
  method FlickOnThread<E(!new), I(!new)>(t: Thread<E, I>, latNs: U64, baseNs: U64, now: U64, a: Arrivals<I>)
    requires t.Idle() && KeepsChain(t.handleTick)
    modifies t
    ensures t.Idle() && t.locCtx.policy == LatencyOriented
    ensures var lat := t.locCtx.lat;
            && lat.targetLat == latNs && lat.startTime == now && lat.histNcycle == baseNs
            && lat.totalLatency == 0 && lat.usedLatency == 0
  {
    ghost var st := t.AtEntry(t.State(), a);
    var _ := t.SetAsLatencyFlick(latNs, baseNs, now, a);
    RunKeepsChain(t.handleTick, st.(ctx := Flicked(st.ctx, latNs, baseNs, now)),
                  AfterSection(a, Deferred(a.during, 7)));
  }

  /** robflex_shot_on_latency starts the next round with empty totals. The cycles expected of a round become
      the mean of those expected and those used, rounded down. */
  method ShotOnThread<E(!new), I(!new)>(t: Thread<E, I>, now: U64, restart: U64, a: Arrivals<I>, tail: nat -> seq<I>)
    returns (chain: ChainContext)
    requires t.Idle() && t.locCtx.policy == LatencyOriented && KeepsChain(t.handleTick)
    modifies t
    ensures t.Idle() && t.locCtx.policy == LatencyOriented
    ensures var lat := t.locCtx.lat;
            lat.startTime == restart && lat.totalLatency == 0 && lat.usedLatency == 0
    ensures var entry := t.AtEntry(old(t.State()), a).ctx.lat;
            0 <= entry.histNcycle + entry.usedNcycle - 2 * t.locCtx.lat.histNcycle <= 1
  {
    ghost var st := t.AtEntry(t.State(), a);
    RunKeepsChain(t.handleTick, t.State(), a.before);
    chain := t.ShotOnLatency(now, restart, a, tail);
    RoundCloses(t.handleTick, st, restart, AfterSection(a, Deferred(a.during, 6)), tail);
  }

  lemma RoundCloses<E(!new), I(!new)>(tick: Tick<E, I>, st: ThreadState<E>, restart: U64, ticks: seq<I>,
                                      tail: nat -> seq<I>)
    requires KeepsChain(tick)
    ensures var out := Restarted(tick, Run(tick, st.(ctx := RoundClosed(st.ctx)), ticks), restart, tail).ctx;
            && out.policy == st.ctx.policy && out.lat.startTime == restart
            && out.lat.totalLatency == 0 && out.lat.usedLatency == 0
            && 0 <= st.ctx.lat.histNcycle + st.ctx.lat.usedNcycle - 2 * out.lat.histNcycle <= 1
  {
    RunKeepsChain(tick, st.(ctx := RoundClosed(st.ctx)), ticks);
    var done := Run(tick, st.(ctx := RoundClosed(st.ctx)), ticks);
    RunKeepsChain(tick, done.(ctx := StartMoved(done.ctx, restart)), tail(0));
    var st1 := Run(tick, done.(ctx := StartMoved(done.ctx, restart)), tail(0));
    RunKeepsChain(tick, st1.(ctx := TotalCleared(st1.ctx)), tail(1));
    var st2 := Run(tick, st1.(ctx := TotalCleared(st1.ctx)), tail(1));
    RunKeepsChain(tick, st2.(ctx := UsedCleared(st2.ctx)), tail(2));
  }

  /** A steady use of cycles is learnt: each shot halves the distance of the expected cycles to it. */
  lemma MeanApproaches(hist: U64, used: U64)
    ensures var gap := if hist >= used then hist - used else used - hist;
            var gap' := if Mean(hist, used) >= used then Mean(hist, used) - used else used - Mean(hist, used);
            gap - 1 <= 2 * gap' <= gap + 1
  {
  }
}
