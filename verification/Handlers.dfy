/** The tick handlers step by step, in C's arithmetic (src/dym_hook.c). Signed overflow is undefined in
    C, so each handler requires sizes at which its signed sums fit. */
module Handlers {
  import opened Context
  import opened CriticalSection
  import opened Pipelines
  import opened Switching
  import opened Throttle

  /** The budget after handle_tick_yielding. */
  function YieldedBudget(budget: int, slice: int, avg: int, past: int, now: int, later: int, idle: bool): int {
    var earned := budget + slice - (now - past);
    Clamp((if earned > 0 && idle then earned + avg - slice else earned) - (later - now), slice)
  }

  /** The inputs of a tick: its clock readings, the system's load, the cycles per tick and whether the
      shared memory is mapped. */
  datatype TickInput = TickInput(now: U64, later: U64, busy: BusyDegree, slice: U64, mapped: bool)

  /** The time of the tick before tick i of a run. */
  function PastAt(past: U64, rs: seq<Reading>, i: nat): U64
    requires i <= |rs|
  {
    if i == 0 then past else rs[i - 1].later
  }

  predicate InOrder(past: U64, rs: seq<Reading>) {
    forall i :: 0 <= i < |rs| ==> TimesFit(PastAt(past, rs, i), rs[i].now, rs[i].later)
  }

  /** What a tick makes of the context it charges, by policy. The fields the API calls of the latency
      chain rely on and the level are the same under every policy. */
  predicate Charged(before: LocalContext, after: LocalContext, past: U64, avg: U64, t: TickInput) {
    var d := before.norm;
    && SameChainFields(after, before) && after.level == before.level
    && match before.policy
       case Yielding =>
         after == before.(norm := after.norm) && after.norm.timeSlice == d.timeSlice &&
         after.norm.timeBudgets == Clamp(d.timeBudgets + d.timeSlice - (t.later - past), d.timeSlice)
       case Predetermined =>
         after == before.(norm := after.norm) && after.norm.timeSlice == d.timeSlice &&
         after.norm.timeBudgets ==
           YieldedBudget(d.timeBudgets, d.timeSlice, avg, past, t.now, t.later, t.busy == SystemIdle)
       case LatencyOriented => after == before.(lat := AfterTicks(before.lat, t.slice, 1))
       case Immediate => after == before
       case ByHandler => after == before
  }

  /** The wait the tick asks for, by policy; 0 for none. */
  predicate Waits(before: LocalContext, past: U64, t: TickInput, wait: int) {
    match before.policy
    case Yielding =>
      wait == if t.mapped then WaitRequest(before.norm.timeBudgets, before.norm.timeSlice, past, t.now) else 0
    case LatencyOriented => LatencyFits(before.lat, past, t.now, t.slice) &&
      wait == LatencyWait(before.lat, past, t.now, t.slice)
    case _ => wait == 0
  }

  /** The time of the last tick and the average cost that the tick leaves. */
  function PastAfter(policy: RunPolicy, past: U64, t: TickInput): U64 {
    if policy in {Immediate, ByHandler} then past else t.later
  }

  function AverageAfter(policy: RunPolicy, past: U64, avg: U64, t: TickInput): U64 {
    if policy in {Yielding, Predetermined} then Average(avg, Wrap64(t.now - past)) else avg
  }

  /** The sizes the handler of the context's policy relies on. */
  predicate TickFits(ctx: LocalContext, past: U64, avg: U64, t: TickInput) {
    match ctx.policy
    case Yielding => DemandFits(ctx.norm) && TimesFit(past, t.now, t.later)
    case Predetermined => DemandFits(ctx.norm) && TimesFit(past, t.now, t.later) && avg < 0x2000_0000_0000_0000
    case LatencyOriented => LatencyFits(ctx.lat, past, t.now, t.slice)
    case Immediate => true
    case ByHandler => true
  }

  /** What a tick makes of a context, and the wait it asks for, are determined. */
  lemma ChargedOnce(before: LocalContext, a: LocalContext, b: LocalContext, past: U64, avg: U64, t: TickInput)
    requires Charged(before, a, past, avg, t) && Charged(before, b, past, avg, t)
    ensures a == b
  {
  }

  // The cycles a run of calls and ticks charges.

  function UsedCycles(c: LocalContext): int {
    c.lat.usedNcycle
  }

  /** What a tick adds to the used cycles of the context it charges. */
  function CyclesOf(c: LocalContext, t: TickInput): int {
    if c.policy == LatencyOriented then t.slice else 0
  }

  lemma TickCountsCycles(before: LocalContext, after: LocalContext, past: U64, avg: U64, t: TickInput)
    requires Charged(before, after, past, avg, t)
    ensures Wrap64(UsedCycles(after) - UsedCycles(before)) == Wrap64(CyclesOf(before, t))
  {
    if before.policy == LatencyOriented {
      assert AfterTicks(before.lat, t.slice, 0) == before.lat;
      WrapAdds(UsedCycles(before) + t.slice, -UsedCycles(before));
    }
  }

  /** Every tick that runs while the thread holds context k charges it as the handler of its policy does. */
  ghost predicate HandlersRun<E>(tick: Tick<E, TickInput>, w: World<E>, h: Holders, acts: seq<Act<TickInput>>, k: nat)
    requires AllFit(acts, |w.cells|) && |h.cells| == |w.cells|
  {
    acts != [] ==>
      var front, act := acts[..|acts| - 1], acts[|acts| - 1];
      && HandlersRun(tick, w, h, front, k)
      && (act.Tick? && MovedBy(h, front).thread == Some(k) ==>
            HandlerTick(tick, RunActs(tick, w, front).thread, act.input))
  }

  ghost predicate HandlerTick<E>(tick: Tick<E, TickInput>, st: ThreadState<E>, t: TickInput) {
    exists past, avg :: Charged(st.ctx, tick(st, t).ctx, past, avg, t)
  }

  lemma {:induction false} HandlersAddCycles<E>(tick: Tick<E, TickInput>, w: World<E>, h: Holders,
                                                acts: seq<Act<TickInput>>, k: nat)
    requires AllFit(acts, |w.cells|) && |h.cells| == |w.cells| && HandlersRun(tick, w, h, acts, k)
    ensures TicksAdd(tick, UsedCycles, CyclesOf, w, h, acts, k)
  {
    if acts == [] {
    } else {
      var front, act := acts[..|acts| - 1], acts[|acts| - 1];
      HandlersAddCycles(tick, w, h, front, k);
      var st := RunActs(tick, w, front).thread;
      if act.Tick? && MovedBy(h, front).thread == Some(k) {
        var past, avg :| Charged(st.ctx, tick(st, act.input).ctx, past, avg, act.input);
        TickCountsCycles(st.ctx, tick(st, act.input).ctx, past, avg, act.input);
      }
    }
  }

  /** In a run of the handlers the used cycles of a context grow by the slices of the latency ticks that ran
      while the thread held it, and by what the calls did themselves, modulo 2 to the 64. */
  lemma CyclesAreSlices<E>(tick: Tick<E, TickInput>, w: World<E>, h: Holders, acts: seq<Act<TickInput>>, k: nat)
    requires AllFit(acts, |w.cells|) && |h.cells| == |w.cells| && HandlersRun(tick, w, h, acts, k)
    ensures Wrap64(Gain(tick, UsedCycles, w, h, acts, k)) ==
            Wrap64(TickWeight(tick, CyclesOf, w, h, acts, k) + UpdateGain(tick, UsedCycles, w, h, acts, k))
  {
    HandlersAddCycles(tick, w, h, acts, k);
    GainIsTickWeight(tick, UsedCycles, CyclesOf, w, h, acts, k);
  }

  /** The tick of a thread in latency mode that has no active event. */
  function LatencyTick<E>(st: ThreadState<E>, t: TickInput): ThreadState<E> {
    st.(ctx := st.ctx.(lat := AfterTicks(st.ctx.lat, t.slice, 1)))
  }

  /** Runs of it are such runs as long as the thread stays in latency mode. */
  lemma {:induction false} LatencyTicksRun<E>(w: World<E>, h: Holders, inputs: seq<TickInput>, k: nat)
    requires w.thread.ctx.policy == LatencyOriented && |h.cells| == |w.cells|
    ensures HandlersRun(LatencyTick, w, h, TickActs(inputs), k)
    ensures RunActs(LatencyTick, w, TickActs(inputs)).thread.ctx.policy == LatencyOriented
  {
    if inputs == [] {
    } else {
      var n := |inputs| - 1;
      assert TickActs(inputs)[..n] == TickActs(inputs[..n]);
      LatencyTicksRun(w, h, inputs[..n], k);
      var st := RunActs(LatencyTick, w, TickActs(inputs[..n])).thread;
      assert AfterTicks(st.ctx.lat, inputs[n].slice, 0) == st.ctx.lat;
      assert Charged(st.ctx, LatencyTick(st, inputs[n]).ctx, 0, 0, inputs[n]);
    }
  }

  /** The wait of a tick in a run of vsleep ticks, which starts no earlier than the last one ended. */
  predicate Asked(slice: int, p: Pace, r: Reading, wait: int) {
    p.past <= r.now && wait == WaitRequest(p.budget, slice, p.past, r.now)
  }

  /** Every tick waits at least as long as it asked. */
  predicate Slept(rs: seq<Reading>, waits: seq<int>) {
    |waits| == |rs| && forall i :: 0 <= i < |rs| ==> rs[i].later - rs[i].now >= waits[i]
  }

  /** The waits of a run, tick by tick. */
  predicate AllAsked(slice: int, p: Pace, rs: seq<Reading>, waits: seq<int>) {
    |waits| == |rs| &&
    (rs != [] ==>
       var n := |rs| - 1;
       AllAsked(slice, p, rs[..n], waits[..n]) && Asked(slice, PaceRun(slice, p, rs[..n]), rs[n], waits[n]))
  }

  lemma AskedMore(slice: int, p: Pace, rs: seq<Reading>, k: nat, waits: seq<int>, wait: int)
    requires k < |rs| && AllAsked(slice, p, rs[..k], waits) && Asked(slice, PaceRun(slice, p, rs[..k]), rs[k], wait)
    ensures AllAsked(slice, p, rs[..k + 1], waits + [wait])
    ensures PaceRun(slice, p, rs[..k + 1]) == PaceStep(slice, PaceRun(slice, p, rs[..k]), rs[k])
  {
    assert rs[..k + 1][..k] == rs[..k] && (waits + [wait])[..k] == waits;
  }

  lemma {:induction false} AskedAt(slice: int, p: Pace, rs: seq<Reading>, waits: seq<int>, i: nat)
    requires AllAsked(slice, p, rs, waits) && i < |rs|
    ensures Asked(slice, PaceRun(slice, p, rs[..i]), rs[i], waits[i])
  {
    var n := |rs| - 1;
    if i == n {
    } else {
      AskedAt(slice, p, rs[..n], waits[..n], i);
      assert rs[..n][..i] == rs[..i];
    }
  }

  function Total(waits: seq<int>): int {
    if waits == [] then 0 else Total(waits[..|waits| - 1]) + waits[|waits| - 1]
  }

  lemma {:induction false} AskedTotal(slice: nat, p: Pace, rs: seq<Reading>, waits: seq<int>)
    requires AllAsked(slice, p, rs, waits)
    ensures 0 <= Total(waits) <= slice * |rs|
  {
    if rs == [] {
    } else {
      var n := |rs| - 1;
      AskedTotal(slice, p, rs[..n], waits[..n]);
      var before := PaceRun(slice, p, rs[..n]);
      WaitIsCapped(before.budget, slice, before.past, rs[n].now);
      Times(slice, n);
    }
  }

  lemma AskedCapped(slice: nat, p: Pace, rs: seq<Reading>, waits: seq<int>)
    requires AllAsked(slice, p, rs, waits)
    ensures forall i :: 0 <= i < |waits| ==> 0 <= waits[i] <= slice
  {
    forall i | 0 <= i < |waits| ensures 0 <= waits[i] <= slice {
      AskedAt(slice, p, rs, waits, i);
      var before := PaceRun(slice, p, rs[..i]);
      WaitIsCapped(before.budget, slice, before.past, rs[i].now);
    }
  }

  lemma SleptRate(slice: nat, p: Pace, rs: seq<Reading>, waits: seq<int>)
    requires AllAsked(slice, p, rs, waits)
    ensures Slept(rs, waits) && -5 * slice <= p.budget <= 5 * slice ==>
              && PaceRun(slice, p, rs).past - p.past >= (|rs| - 5) * slice
              && (p.budget >= 0 ==> PaceRun(slice, p, rs).past - p.past >= |rs| * slice)
  {
    if Slept(rs, waits) && -5 * slice <= p.budget <= 5 * slice {
      forall i | 0 <= i < |rs|
        ensures Served(slice, PaceRun(slice, p, rs[..i]), rs[i])
      {
        AskedAt(slice, p, rs, waits, i);
      }
      RateBound(slice, p, rs);
    }
  }

  /** The yielding handler keeps the same books as the sleeping one, except that a positive budget on an
      idle system is credited with what an average tick costs more than a slice. */
  lemma YieldKeepsBooks(slice: int, p: Pace, avg: int, r: Reading, idle: bool)
    ensures var credit := if idle && p.budget + slice > r.now - p.past then avg - slice else 0;
            YieldedBudget(p.budget, slice, avg, p.past, r.now, r.later, idle)
            == PaceStep(slice, p.(budget := p.budget + credit), r).budget
  {
  }

  /** The policies whose demands robflex_set_cycles_for_tick and robflex_set_time_for_throttle accept are
      those whose ticks charge the time budget: a tick late enough takes it to the lower clamp. */
  lemma ThrottledExactly(before: LocalContext, after: LocalContext, past: U64, avg: U64, t: TickInput)
    requires Charged(before, after, past, avg, t) && TickFits(before, past, avg, t)
    requires before.norm.timeSlice > 0 && before.norm.timeBudgets > -5 * before.norm.timeSlice
    requires past <= t.now && t.now - past >= before.norm.timeBudgets + 6 * before.norm.timeSlice
    ensures Throttled(before) <==> after.norm.timeBudgets == -5 * before.norm.timeSlice
  {
  }

  /** A call that sets the time of a slice, or clears the budget, starts the books anew: whatever the
      context owed before, n ticks later the budget is n slices less the time since, plus what the clamps
      changed; and served ticks take at least n slices. */
  lemma BooksStartAnew(before: LocalContext, c: LocalContext, timeNs: U64, past: U64, rs: seq<Reading>)
    requires c == SliceSet(before, timeNs) || (c == BudgetCleared(before) && timeNs == before.norm.timeSlice)
    ensures var q := PaceRun(c.norm.timeSlice, Pace(c.norm.timeBudgets, past, 0, 0), rs);
            && q.budget == |rs| * timeNs - (q.past - past) + q.raised - q.cut
            && (WaitsServed(timeNs, Pace(0, past, 0, 0), rs) ==> q.past - past >= |rs| * timeNs)
    ensures c.policy == before.policy && c.lat == before.lat && c.level == before.level
  {
    BudgetTelescopes(timeNs, Pace(0, past, 0, 0), rs);
    if WaitsServed(timeNs, Pace(0, past, 0, 0), rs) {
      RateBound(timeNs, Pace(0, past, 0, 0), rs);
    }
  }

  /** What a call adds to the used cycles of the thread's context: a shot takes all of them away. */
  function CallCycles<I>(r: Request<I>, c: LocalContext): int {
    match r
    case AddCycles(runcycle) => runcycle
    case Shot(_, _, _) => if c.policy == LatencyOriented then -UsedCycles(c) else 0
    case _ => 0
  }

  lemma CallsAddCycles<I>(r: Request<I>, c: LocalContext)
    requires !r.Switch?
    ensures Wrap64(UsedCycles(Effect(r, c)) - UsedCycles(c)) == Wrap64(CallCycles(r, c))
    ensures r.Shot? && c.policy == LatencyOriented ==> UsedCycles(Effect(r, c)) == 0
  {
    if r.AddCycles? {
      WrapAdds(UsedCycles(c) + r.runcycle, -UsedCycles(c));
    }
  }

  function Readings(ts: seq<TickInput>): seq<Reading> {
    seq(|ts|, k requires 0 <= k < |ts| => Reading(ts[k].now, ts[k].later))
  }

  /** A tick on a system that is not idle, early enough in the life of the clock. */
  predicate BusyTick(t: TickInput) {
    t.busy != SystemIdle && t.later < 0x2000_0000_0000_0000
  }

  /** The wait of a tick under a throttled policy. */
  function ThrottledWait(policy: RunPolicy, slice: int, p: Pace, t: TickInput): int {
    if policy == Yielding && t.mapped then Max(0, Min(slice, p.budget + slice - (t.now - p.past))) else 0
  }

  /** The waits of the first n ticks of a run under a throttled policy. */
  predicate AllWaited(policy: RunPolicy, slice: int, p: Pace, ts: seq<TickInput>, n: nat, waits: seq<int>) {
    n <= |ts| && |waits| == n &&
    (n > 0 ==>
       && AllWaited(policy, slice, p, ts, n - 1, waits[..n - 1])
       && waits[n - 1] == ThrottledWait(policy, slice, PaceRun(slice, p, Readings(ts)[..n - 1]), ts[n - 1]))
  }

  lemma WaitedMore(policy: RunPolicy, slice: int, p: Pace, ts: seq<TickInput>, k: nat, waits: seq<int>, wait: int)
    requires k < |ts| && AllWaited(policy, slice, p, ts, k, waits)
    requires wait == ThrottledWait(policy, slice, PaceRun(slice, p, Readings(ts)[..k]), ts[k])
    ensures AllWaited(policy, slice, p, ts, k + 1, waits + [wait])
    ensures PaceRun(slice, p, Readings(ts)[..k + 1]) ==
            PaceStep(slice, PaceRun(slice, p, Readings(ts)[..k]), Readings(ts)[k])
  {
    assert Readings(ts)[..k + 1][..k] == Readings(ts)[..k] && (waits + [wait])[..k] == waits;
  }

  /** Tick k of a round that starts with demand d has the size the latency handler relies on. */
  predicate TickFitsRound(d: LatencyDemand, slice: U64, past: U64, ts: seq<TickInput>, k: nat)
    requires k < |ts|
  {
    ts[k].slice == slice && LatencyFits(AfterTicks(d, slice, k), PastAt(past, Readings(ts), k), ts[k].now, slice)
  }

  predicate RoundFits(d: LatencyDemand, slice: U64, past: U64, ts: seq<TickInput>) {
    forall k :: 0 <= k < |ts| ==> TickFitsRound(d, slice, past, ts, k)
  }

  /** The waits of the first n ticks of such a round. */
  predicate AllPaced(d: LatencyDemand, slice: U64, past: U64, ts: seq<TickInput>, n: nat, waits: seq<int>) {
    n <= |ts| && |waits| == n &&
    (n > 0 ==>
       && AllPaced(d, slice, past, ts, n - 1, waits[..n - 1]) && TickFitsRound(d, slice, past, ts, n - 1)
       && waits[n - 1] ==
          LatencyWait(AfterTicks(d, slice, n - 1), PastAt(past, Readings(ts), n - 1), ts[n - 1].now, slice))
  }

  lemma {:induction false} PacedAt(d: LatencyDemand, slice: U64, past: U64, ts: seq<TickInput>, n: nat, waits: seq<int>,
                                   k: nat)
    requires AllPaced(d, slice, past, ts, n, waits) && k < n
    ensures TickFitsRound(d, slice, past, ts, k)
    ensures waits[k] == LatencyWait(AfterTicks(d, slice, k), PastAt(past, Readings(ts), k), ts[k].now, slice)
  {
    if k == n - 1 {
    } else {
      PacedAt(d, slice, past, ts, n - 1, waits[..n - 1], k);
    }
  }

  /** A round that robflex_set_as_latency_flick has started with no cycles used and no bias: tick k in time
      waits for its share of the time to the deadline latNs after begin, one slice of the cycles left, and
      as long as k slices are not more than baseNs the wait ends a millisecond before that deadline. */
  lemma FlickedRoundIsPaced(before: LocalContext, latNs: U64, baseNs: U64, begin: U64, slice: U64, past: U64,
                            ts: seq<TickInput>, waits: seq<int>, k: nat)
    requires before.lat.usedNcycle == 0 && before.lat.latBias == 0
    requires AllPaced(Flicked(before, latNs, baseNs, begin).lat, slice, past, ts, |ts|, waits) && k < |ts|
    requires slice > 0 && k <= baseNs / slice && ts[k].now <= begin + latNs
    requires (begin + latNs - ts[k].now) * slice < TWO_TO_THE_63
    ensures var now, pass := ts[k].now, ts[k].now - PastAt(past, Readings(ts), k);
            var cycles, product := baseNs - k * slice + slice, (begin + latNs - now) * slice;
            && (if product >= (2 * MS + pass + 1) * cycles then
                  waits[k] > MS && (waits[k] + pass + MS) * cycles <= product < (waits[k] + pass + MS + 1) * cycles
                else waits[k] == 0)
            && (waits[k] > 0 ==> now + waits[k] + MS <= begin + latNs)
  {
    var d, now, last := Flicked(before, latNs, baseNs, begin).lat, ts[k].now, PastAt(past, Readings(ts), k);
    PacedAt(d, slice, past, ts, |ts|, waits, k);
    TickIsPaced(d, slice, k, last, now);
  }

  lemma TickIsPaced(d: LatencyDemand, slice: U64, k: nat, past: U64, now: U64)
    requires d.usedNcycle == 0 && d.latBias == 0 && slice > 0 && k <= d.histNcycle / slice
    requires LatencyFits(AfterTicks(d, slice, k), past, now, slice) && now <= d.startTime + d.targetLat
    requires (d.startTime + d.targetLat - now) * slice < TWO_TO_THE_63
    ensures var wait, pass := LatencyWait(AfterTicks(d, slice, k), past, now, slice), now - past;
            var cycles, product := d.histNcycle - k * slice + slice, (d.startTime + d.targetLat - now) * slice;
            && (if product >= (2 * MS + pass + 1) * cycles then
                  wait > MS && (wait + pass + MS) * cycles <= product < (wait + pass + MS + 1) * cycles
                else wait == 0)
            && (wait > 0 ==> now + wait + MS <= d.startTime + d.targetLat)
  {
    TicksInHistory(d.histNcycle, slice, k);
    UsedAfterTicks(d, slice, k);
    SignOfProduct(d.startTime + d.targetLat - now, slice);
    LatencyWaitIsShare(AfterTicks(d, slice, k), past, now, slice);
    FlickFits(d, slice, k, past, now);
    FirstTicksMeetDeadline(d, slice, k, past, now);
  }

  lemma FlickFits(d: LatencyDemand, slice: U64, k: nat, past: U64, now: U64)
    requires LatencyFits(AfterTicks(d, slice, k), past, now, slice) && d.usedNcycle == 0
    requires 0 <= k * slice < TWO_TO_THE_64 && AfterTicks(d, slice, k) == d.(usedNcycle := k * slice)
    ensures LatencyFits(d, past, now, slice)
    ensures d.latBias <= 0 ==> RestTime(d, now) == d.startTime + Max(0, d.targetLat + d.latBias) - now
  {
    DeadlineIsRest(d, now);
  }

  class TickHandlers {
    var past: U64
    var sleepedTime: U64
    var avgTimecost: U64

    constructor ()
      ensures past == 0 && sleepedTime == 0 && avgTimecost == 1000000
    {
      past, sleepedTime, avgTimecost := 0, 0, 1000000;
    }

    /** Lines 99-100 */
    method ClampBudget(budget: I64, slice: U64) returns (r: I64)
      requires slice <= 0x0400_0000_0000_0000
      ensures r == Clamp(budget, slice)
    {
      r := budget;
      if Signed64(slice) * 5 < r {
        r := Signed64(slice) * 5;
      }
      if -Signed64(slice) * 5 > r {
        r := -Signed64(slice) * 5;
      }
    }

    /** handle_tick_vsleep: the budget gains a slice, pays for the whole time since the last tick, and is
        clamped. */
    method VSleep(cell: Cell, now: U64, later: U64, mapped: bool) returns (wait: int)
      requires DemandFits(cell.ctx.norm) && TimesFit(past, now, later)
      modifies this, cell
      ensures var d := old(cell.ctx.norm);
              && wait == (if mapped then WaitRequest(d.timeBudgets, d.timeSlice, old(past), now) else 0)
              && cell.ctx == old(cell.ctx).(norm := cell.ctx.norm)
              && cell.ctx.norm.timeSlice == d.timeSlice
              && cell.ctx.norm.timeBudgets == Clamp(d.timeBudgets + d.timeSlice - (later - old(past)), d.timeSlice)
      ensures past == later && sleepedTime == Wrap64(old(sleepedTime) + (later - now))
      ensures avgTimecost == Average(old(avgTimecost), now - old(past))
      ensures 0 <= wait <= old(cell.ctx.norm.timeSlice)
      ensures var d := old(cell.ctx.norm);
              wait > 0 <==> mapped && d.timeBudgets + d.timeSlice > now - old(past) && d.timeSlice > 0
      ensures mapped && later == now + wait ==> cell.ctx.norm.timeBudgets <= 0 || wait == old(cell.ctx.norm.timeSlice)
    {
      WaitIsCapped(cell.ctx.norm.timeBudgets, cell.ctx.norm.timeSlice, past, now);
      var target := cell.ctx.norm.timeSlice;
      var budgets: int := cell.ctx.norm.timeBudgets;
      var diff := now - past;
      budgets := budgets + Signed64(target) - Signed64(diff);
      wait := 0;
      if budgets > 0 {
        var sleepNs := if budgets < target then budgets else target;
        if mapped {
          wait := sleepNs;
        }
      }
      past := later;
      var yieldTime := past - now;
      sleepedTime := Wrap64(sleepedTime + yieldTime);
      budgets := budgets - Signed64(yieldTime);
      budgets := ClampBudget(budgets, target);
      avgTimecost := Average(avgTimecost, diff);
      cell.ctx := cell.ctx.(norm := cell.ctx.norm.(timeBudgets := budgets));
    }

    /** handle_tick_yielding: on an idle system a positive budget is moved by the average cost of a tick
        less a slice; no maximum with zero takes effect. */
    method Yield(cell: Cell, now: U64, later: U64, busy: BusyDegree)
      requires DemandFits(cell.ctx.norm) && TimesFit(past, now, later) && avgTimecost < 0x2000_0000_0000_0000
      modifies this, cell
      ensures var d := old(cell.ctx.norm);
              && cell.ctx == old(cell.ctx).(norm := cell.ctx.norm)
              && cell.ctx.norm.timeSlice == d.timeSlice
              && cell.ctx.norm.timeBudgets ==
                 YieldedBudget(d.timeBudgets, d.timeSlice, old(avgTimecost), old(past), now, later, busy == SystemIdle)
      ensures past == later && sleepedTime == old(sleepedTime)
      ensures avgTimecost == Average(old(avgTimecost), now - old(past))
    {
      var target := cell.ctx.norm.timeSlice;
      var budgets: int := cell.ctx.norm.timeBudgets;
      var diff := now - past;
      budgets := budgets + Signed64(target) - Signed64(diff);
      budgets := YieldOrGoOn(budgets, target, busy);
      past := later;
      var yieldTime := past - now;
      budgets := budgets - Signed64(yieldTime);
      budgets := ClampBudget(budgets, target);
      avgTimecost := Average(avgTimecost, diff);
      cell.ctx := cell.ctx.(norm := cell.ctx.norm.(timeBudgets := budgets));
    }

    /** Lines 152-161 */
    method YieldOrGoOn(budgets: int, target: U64, busy: BusyDegree) returns (r: int)
      requires -TWO_TO_THE_63 <= budgets < 0x4000_0000_0000_0000 && target <= 0x0400_0000_0000_0000
      requires avgTimecost < 0x2000_0000_0000_0000
      ensures r == if budgets > 0 && busy == SystemIdle then budgets + avgTimecost - target else budgets
    {
      r := budgets;
      if budgets > 0 {
        if busy == SystemHigh || busy == SystemModerate {
          // sched_yield()
        } else {
          IdleBudgetIsMaximum(budgets, avgTimecost, target);
          r := IdleBudget(budgets, avgTimecost, target);
        }
      }
    }

    /** handle_tick_latency_oriented */
    method Latency(cell: Cell, now: U64, later: U64, slice: U64) returns (wait: int)
      requires LatencyFits(cell.ctx.lat, past, now, slice)
      modifies this, cell
      ensures wait == LatencyWait(old(cell.ctx.lat), old(past), now, slice)
      ensures cell.ctx == old(cell.ctx).(lat := AfterTicks(old(cell.ctx.lat), slice, 1))
      ensures past == later && sleepedTime == old(sleepedTime) && avgTimecost == old(avgTimecost)
    {
      var ld := cell.ctx.lat;
      wait := SleepFor(ld, now, slice);
      assert AfterTicks(ld, slice, 0) == ld;
      cell.ctx := cell.ctx.(lat := ld.(usedNcycle := Wrap64(ld.usedNcycle + slice)));
      past := later;
    }

    /** Lines 181-191, then 195-200 */
    method SleepFor(ld: LatencyDemand, now: U64, slice: U64) returns (wait: int)
      requires LatencyFits(ld, past, now, slice)
      ensures wait == LatencyWait(ld, past, now, slice)
    {
      BiasedFits(ld.targetLat, ld.latBias);
      var targetLat := BiasedTarget(ld.targetLat, ld.latBias);
      var passNs := now - past;
      ToSignedExact(ld.histNcycle - ld.usedNcycle + slice);
      var restNcycle := RestCycles(ld.histNcycle, ld.usedNcycle, slice);
      var diffTime := Signed64(now) - Signed64(ld.startTime);
      var restTime := Signed64(targetLat) - diffTime;
      assert restTime == RestTime(ld, now) && restNcycle == CyclesLeft(ld, slice);
      wait := WaitFor(restTime, restNcycle, passNs, slice);
    }

    /** Lines 195-200 */
    method WaitFor(restTime: I64, restNcycle: I64, passNs: U64, slice: U64) returns (wait: int)
      requires passNs < TWO_TO_THE_63
      ensures wait == if restNcycle <= 0 then 0 else WaitIn(Period(restTime, slice, restNcycle) - passNs)
    {
      wait := 0;
      if restNcycle > 0 {
        var periodAssume := Period(restTime, slice, restNcycle);
        var sleepNs := periodAssume - Signed64(passNs);
        if sleepNs > MS {
          wait := sleepNs;
        }
      }
    }

    /** The dispatch of handle_tick on the context it selected. */
    method HandleTick(cell: Cell, t: TickInput) returns (wait: int)
      requires TickFits(cell.ctx, past, avgTimecost, t)
      modifies this, cell
      ensures Charged(old(cell.ctx), cell.ctx, old(past), old(avgTimecost), t) &&
              Waits(old(cell.ctx), old(past), t, wait)
      ensures past == PastAfter(old(cell.ctx.policy), old(past), t)
      ensures avgTimecost == AverageAfter(old(cell.ctx.policy), old(past), old(avgTimecost), t)
    {
      wait := 0;
      match cell.ctx.policy {
        case Predetermined =>
          WrapSmall(t.now - past);
          Yield(cell, t.now, t.later, t.busy);
        case Yielding =>
          WrapSmall(t.now - past);
          wait := VSleep(cell, t.now, t.later, t.mapped);
        case LatencyOriented =>
          assert AfterTicks(cell.ctx.lat, t.slice, 0) == cell.ctx.lat;
          wait := Latency(cell, t.now, t.later, t.slice);
        case Immediate =>
        case ByHandler =>
      }
    }

    /** A run of ticks on a context that stays with one slice follows the run PaceRun describes, and asks
        for the waits of that run. If every tick then waits as long as asked, n ticks take at least n - 5
        slices, and n slices from a budget that is not negative. No wait exceeds a slice. */
    method PacedRun(cell: Cell, rs: seq<Reading>) returns (waits: seq<int>)
      requires DemandFits(cell.ctx.norm)
      requires InOrder(past, rs)
      modifies this, cell
      ensures var p := PaceRun(old(cell.ctx.norm.timeSlice), Pace(old(cell.ctx.norm.timeBudgets), old(past), 0, 0), rs);
              cell.ctx.norm.timeBudgets == p.budget && past == p.past
      ensures |waits| == |rs| && forall i :: 0 <= i < |waits| ==> 0 <= waits[i] <= old(cell.ctx.norm.timeSlice)
      ensures 0 <= Total(waits) <= old(cell.ctx.norm.timeSlice) * |rs|
      ensures var d := old(cell.ctx.norm);
              -5 * d.timeSlice <= d.timeBudgets <= 5 * d.timeSlice && Slept(rs, waits) ==>
                && past - old(past) >= (|rs| - 5) * d.timeSlice
                && (d.timeBudgets >= 0 ==> past - old(past) >= |rs| * d.timeSlice)
    {
      ghost var slice, start := cell.ctx.norm.timeSlice, Pace(cell.ctx.norm.timeBudgets, past, 0, 0);
      ghost var p := start;
      waits := [];
      for k := 0 to |rs|
        invariant p == PaceRun(slice, start, rs[..k]) && At(cell, slice, p) && past == PastAt(old(past), rs, k)
        invariant AllAsked(slice, start, rs[..k], waits)
      {
        assert TimesFit(PastAt(old(past), rs, k), rs[k].now, rs[k].later);
        var wait := PacedTick(cell, rs[k], slice, p);
        AskedMore(slice, start, rs, k, waits, wait);
        waits := waits + [wait];
        p := PaceStep(slice, p, rs[k]);
      }
      assert rs[..|rs|] == rs;
      SleptRate(slice, start, rs, waits);
      AskedCapped(slice, start, rs, waits);
      AskedTotal(slice, start, rs, waits);
    }

    /** The handler and the context are where the run p is. */
    predicate At(cell: Cell, slice: int, p: Pace)
      reads this, cell
    {
      DemandFits(cell.ctx.norm) && cell.ctx.norm.timeSlice == slice && cell.ctx.norm.timeBudgets == p.budget &&
      past == p.past
    }

    method PacedTick(cell: Cell, r: Reading, ghost slice: U64, ghost p: Pace) returns (wait: int)
      requires At(cell, slice, p) && TimesFit(past, r.now, r.later)
      modifies this, cell
      ensures Asked(slice, p, r, wait) && At(cell, slice, PaceStep(slice, p, r)) && past == r.later
    {
      wait := VSleep(cell, r.now, r.later, true);
    }

    /** Ticks dispatched by the policy of the context. Under YIELDING they are the run PaceRun describes and
        ask for its waits; under PREDETERMINED, on a system that is not idle, they leave the same budgets
        and ask for no wait. */
    method ThrottledRun(cell: Cell, ts: seq<TickInput>) returns (waits: seq<int>)
      requires Throttled(cell.ctx) && DemandFits(cell.ctx.norm) && InOrder(past, Readings(ts))
      requires cell.ctx.policy == Predetermined ==>
                 avgTimecost < 0x2000_0000_0000_0000 && forall k :: 0 <= k < |ts| ==> BusyTick(ts[k])
      modifies this, cell
      ensures var p := PaceRun(old(cell.ctx.norm.timeSlice), Pace(old(cell.ctx.norm.timeBudgets), old(past), 0, 0),
                               Readings(ts));
              && cell.ctx.norm.timeBudgets == p.budget && past == p.past
              && cell.ctx == old(cell.ctx).(norm := old(cell.ctx.norm).(timeBudgets := p.budget))
      ensures AllWaited(old(cell.ctx.policy), old(cell.ctx.norm.timeSlice),
                        Pace(old(cell.ctx.norm.timeBudgets), old(past), 0, 0), ts, |ts|, waits)
    {
      ghost var rs, before, slice := Readings(ts), cell.ctx, cell.ctx.norm.timeSlice;
      ghost var start := Pace(cell.ctx.norm.timeBudgets, past, 0, 0);
      ghost var p := start;
      waits := [];
      for k := 0 to |ts|
        invariant p == PaceRun(slice, start, rs[..k]) && At(cell, slice, p) && past == PastAt(old(past), rs, k)
        invariant cell.ctx == before.(norm := before.norm.(timeBudgets := cell.ctx.norm.timeBudgets))
        invariant before.policy == Predetermined ==> avgTimecost < 0x2000_0000_0000_0000
        invariant AllWaited(before.policy, slice, start, ts, k, waits)
      {
        assert TimesFit(PastAt(old(past), rs, k), rs[k].now, rs[k].later);
        var wait := ThrottledTick(cell, ts[k], slice, p);
        WaitedMore(before.policy, slice, start, ts, k, waits, wait);
        waits := waits + [wait];
        p := PaceStep(slice, p, rs[k]);
      }
      assert rs[..|rs|] == rs;
    }

    method ThrottledTick(cell: Cell, t: TickInput, ghost slice: U64, ghost p: Pace) returns (wait: int)
      requires Throttled(cell.ctx) && At(cell, slice, p) && TimesFit(past, t.now, t.later)
      requires cell.ctx.policy == Predetermined ==> avgTimecost < 0x2000_0000_0000_0000 && BusyTick(t)
      modifies this, cell
      ensures At(cell, slice, PaceStep(slice, p, Reading(t.now, t.later))) && past == t.later
      ensures cell.ctx == old(cell.ctx).(norm := old(cell.ctx.norm).(timeBudgets := cell.ctx.norm.timeBudgets))
      ensures wait == ThrottledWait(old(cell.ctx.policy), slice, p, t)
      ensures old(cell.ctx.policy) == Predetermined ==> avgTimecost < 0x2000_0000_0000_0000
    {
      YieldKeepsBooks(slice, p, avgTimecost, Reading(t.now, t.later), false);
      wait := HandleTick(cell, t);
    }

    /** Ticks of one latency round: tick k asks for the wait of a round in which k more slices have been
        used. */
    method LatencyRun(cell: Cell, slice: U64, ts: seq<TickInput>) returns (waits: seq<int>)
      requires cell.ctx.policy == LatencyOriented && RoundFits(cell.ctx.lat, slice, past, ts)
      modifies this, cell
      ensures cell.ctx == old(cell.ctx).(lat := AfterTicks(old(cell.ctx.lat), slice, |ts|))
      ensures AllPaced(old(cell.ctx.lat), slice, old(past), ts, |ts|, waits)
    {
      ghost var before := cell.ctx;
      waits := [];
      for k := 0 to |ts|
        invariant cell.ctx == before.(lat := AfterTicks(before.lat, slice, k))
        invariant past == PastAt(old(past), Readings(ts), k) && AllPaced(before.lat, slice, old(past), ts, k, waits)
      {
        assert TickFitsRound(before.lat, slice, old(past), ts, k);
        var wait := RoundTick(cell, slice, ts[k], before, k);
        assert (waits + [wait])[..k] == waits;
        waits := waits + [wait];
      }
    }

    method RoundTick(cell: Cell, slice: U64, t: TickInput, ghost before: LocalContext, ghost k: nat) returns (wait: int)
      requires cell.ctx == before.(lat := AfterTicks(before.lat, slice, k)) && before.policy == LatencyOriented
      requires t.slice == slice && LatencyFits(AfterTicks(before.lat, slice, k), past, t.now, slice)
      modifies this, cell
      ensures cell.ctx == before.(lat := AfterTicks(before.lat, slice, k + 1)) && past == t.later
      ensures wait == LatencyWait(AfterTicks(before.lat, slice, k), old(past), t.now, slice)
    {
      assert AfterTicks(cell.ctx.lat, slice, 0) == cell.ctx.lat;
      wait := HandleTick(cell, t);
    }

    /** Ticks under IMMEDIATE and BY_HANDLER: no wait, and nothing changes. */
    method FreeRun(cell: Cell, ts: seq<TickInput>) returns (waits: seq<int>)
      requires cell.ctx.policy == Immediate || cell.ctx.policy == ByHandler
      modifies this, cell
      ensures cell.ctx == old(cell.ctx) && past == old(past) && avgTimecost == old(avgTimecost)
      ensures |waits| == |ts| && forall k :: 0 <= k < |ts| ==> waits[k] == 0
    {
      waits := [];
      for k := 0 to |ts|
        invariant cell.ctx == old(cell.ctx) && past == old(past) && avgTimecost == old(avgTimecost)
        invariant |waits| == k && forall i :: 0 <= i < k ==> waits[i] == 0
      {
        var wait := HandleTick(cell, ts[k]);
        waits := waits + [wait];
      }
    }
  }
}
