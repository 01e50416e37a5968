/** What a tick does to the context it selected (src/dym_hook.c): a two-sided clamped time budget for
    the throttled policies, and pacing towards a deadline for the latency policy. */
module Throttle {
  import opened Context
  import opened Probe

  function Min(a: int, b: int): int {
    if a < b then a else b
  }

  function Max(a: int, b: int): int {
    if a > b then a else b
  }

  /** The max macro on uint64_t operands. */
  function UnsignedMax(a: U64, b: U64): U64 {
    if a > b then a else b
  }

  function Clamp(b: int, slice: int): int {
    Max(-5 * slice, Min(5 * slice, b))
  }

  /** avg * 0.9 + diff * 0.1, truncated: it goes a tenth of the way from the old average to the sample. */
  function Average(avg: U64, diff: U64): (r: U64)
    ensures Min(avg, diff) <= r <= Max(avg, diff)
    ensures 0 <= (diff - avg) - 10 * (r - avg) < 10
  {
    (9 * avg + diff) / 10
  }

  /** Clock readings in order, and small enough that no difference of them overflows. */
  predicate TimesFit(past: U64, now: U64, later: U64) {
    past <= now <= later < 0x4000_0000_0000_0000
  }

  /** A slice and a budget whose sums with a time difference fit a long long. */
  predicate DemandFits(d: YieldDemand) {
    d.timeSlice <= 0x0400_0000_0000_0000 && -0x2000_0000_0000_0000 <= d.timeBudgets <= 0x2000_0000_0000_0000
  }

  /** The wait vsleep asks for: what is left of the budget, but no more than a slice. */
  function WaitRequest(budget: int, slice: int, past: int, now: int): int {
    Min(slice, Max(0, budget + slice - (now - past)))
  }

  /** A wait is at most a slice, and is asked for exactly while the budget with the new slice exceeds the
      time spent. Served exactly, it uses the budget up or lasts the whole slice. */
  lemma WaitIsCapped(budget: int, slice: nat, past: int, now: int)
    ensures var earned, wait := budget + slice - (now - past), WaitRequest(budget, slice, past, now);
            && 0 <= wait <= slice && (wait > 0 <==> earned > 0 && slice > 0)
            && (earned - wait <= 0 || wait == slice)
  {
  }

  /** The budget an idle system leaves with handle_tick_yielding: line 157 mixes in an unsigned slice, so
      its maximum with zero is taken on uint64_t values and is always the second operand. */
  function IdleBudget(budget: I64, avg: U64, slice: U64): I64 {
    Signed64(UnsignedMax(0, Wrap64(budget + Signed64(avg) - slice)))
  }

  /** That maximum has its intended value exactly when it was not needed. */
  lemma IdleBudgetIsMaximum(budget: I64, avg: U64, slice: U64)
    requires avg < TWO_TO_THE_63 && -TWO_TO_THE_63 <= budget + avg - slice < TWO_TO_THE_63
    ensures IdleBudget(budget, avg, slice) == budget + avg - slice
    ensures IdleBudget(budget, avg, slice) == Max(0, budget + avg - slice) <==> budget + avg >= slice
  {
    ToSignedExact(budget + avg - slice);
  }

  // The latency policy.

  const MS := 1000000

  /** Line 183: -lat_bias is converted to uint64_t for the comparison. */
  function BiasedTarget(target: U64, bias: I64): U64 {
    var b: int := bias;
    if target > Wrap64(-b) then Wrap64(target + b) else 0
  }

  /** It is the target moved by the bias, but not below zero, exactly when the bias is not positive. A
      positive bias makes the deadline fall on the start of the round. */
  lemma BiasedTargetIsShifted(target: U64, bias: I64)
    requires bias > -TWO_TO_THE_63 && target + bias < TWO_TO_THE_64
    ensures BiasedTarget(target, bias) == Max(0, target + bias) <==> bias <= 0
    ensures bias > 0 ==> BiasedTarget(target, bias) == 0
  {
    if bias <= 0 {
      NegateSmall(bias);
    } else {
      assert Wrap64(-bias) == TWO_TO_THE_64 - bias;
    }
  }

  lemma NegateSmall(bias: I64)
    requires -TWO_TO_THE_63 < bias <= 0
    ensures Wrap64(-bias) == -bias
  {
  }

  /** Line 189 */
  function RestCycles(hist: U64, used: U64, slice: U64): I64 {
    ToSigned(Signed64(hist) - Signed64(used) + slice)
  }

  /** Line 197: the product, the quotient and the difference are all taken on uint64_t values. */
  function Period(rest: I64, slice: U64, cycles: I64): I64
    requires cycles > 0
  {
    ToSigned(Wrap64(rest * slice) / cycles - MS)
  }

  lemma Twice(a: int, q: int)
    requires a >= 0 && q >= 2
    ensures a * q >= 2 * a
  {
  }

  lemma QuotientFits(p: int, q: int)
    requires 0 <= p < TWO_TO_THE_64 && q >= 2
    ensures 0 <= p / q < TWO_TO_THE_63
  {
    assert p == (p / q) * q + p % q;
    Twice(p / q, q);
  }

  lemma QuotientPositive(p: int, q: int)
    requires 0 < q <= p
    ensures p / q >= 1
  {
  }

  lemma QuotientGrows(a: int, b: int, q: int)
    requires 0 <= a <= b && q > 0
    ensures a / q <= b / q
  {
    var d := a / q - b / q;
    assert d * q == (a / q) * q - (b / q) * q;
    MulAtLeast(d, q);
  }

  lemma OnTimePeriod(p: int, cycles: I64)
    requires cycles > 0 && 0 <= p < TWO_TO_THE_63
    ensures ToSigned(Wrap64(p) / cycles - MS) == p / cycles - MS
  {
    assert Wrap64(p) == p;
    QuotientGrows(0, p, cycles);
    QuotientFalls(p, 1, cycles);
    ToSignedExact(p / cycles - MS);
  }

  lemma LatePeriod(p: int, cycles: I64)
    requires cycles > 1 && -TWO_TO_THE_63 <= p < 0
    ensures ToSigned(Wrap64(p) / cycles - MS) >= TWO_TO_THE_63 / cycles - MS > -MS
  {
    var q := Wrap64(p);
    WrapNegative(p);
    LateQuotient(q, cycles);
    ToSignedExact(q / cycles - MS);
  }

  lemma WrapNegative(p: int)
    requires -TWO_TO_THE_64 <= p < 0
    ensures Wrap64(p) == p + TWO_TO_THE_64
  {
  }

  lemma LateQuotient(q: int, cycles: int)
    requires TWO_TO_THE_63 <= q < TWO_TO_THE_64 && 1 < cycles < TWO_TO_THE_63
    ensures 1 <= TWO_TO_THE_63 / cycles <= q / cycles < TWO_TO_THE_63
  {
    QuotientFits(q, cycles);
    QuotientGrows(TWO_TO_THE_63, q, cycles);
    QuotientPositive(TWO_TO_THE_63, cycles);
  }

  lemma OneCyclePeriod(p: int)
    requires -TWO_TO_THE_63 <= p - MS && p < TWO_TO_THE_63
    ensures ToSigned(Wrap64(p) / 1 - MS) == p - MS
  {
    ToSignedExact(p - MS);
    WrapSubtracts(p);
  }

  lemma WrapSubtracts(p: int)
    ensures Wrap64(Wrap64(p) - MS) == Wrap64(p - MS)
  {
  }

  /** The period is the share of the remaining time, less a millisecond, exactly when the tick is not
      late (or a single cycle is left). A late tick turns its negative remaining time into a huge
      unsigned product. */
  lemma PeriodIsShare(rest: I64, slice: U64, cycles: I64)
    requires cycles > 0 && slice > 0 && -TWO_TO_THE_63 <= rest * slice - MS && rest * slice < TWO_TO_THE_63
    ensures Period(rest, slice, cycles) == CDiv(rest * slice, cycles) - MS <==> rest >= 0 || cycles == 1
    ensures rest < 0 && cycles > 1 ==> Period(rest, slice, cycles) >= TWO_TO_THE_63 / cycles - MS
  {
    SignOfProduct(rest, slice);
    var p := rest * slice;
    if cycles == 1 {
      OneCyclePeriod(p);
    } else if rest >= 0 {
      OnTimePeriod(p, cycles);
    } else {
      LatePeriod(p, cycles);
      QuotientGrows(0, -p, cycles);
    }
  }

  lemma SignOfProduct(a: int, b: int)
    requires b > 0
    ensures a >= 0 <==> a * b >= 0
  {
  }

  /** Sizes at which no sum or difference of lines 189-191 overflows. */
  predicate LatencyFits(d: LatencyDemand, past: U64, now: U64, slice: U64) {
    && past <= now < 0x2000_0000_0000_0000 && d.startTime < 0x2000_0000_0000_0000
    && d.targetLat < 0x2000_0000_0000_0000 && -0x2000_0000_0000_0000 < d.latBias < 0x2000_0000_0000_0000
    && d.histNcycle < 0x2000_0000_0000_0000 && d.usedNcycle < 0x2000_0000_0000_0000
    && 1000 <= slice < 0x2000_0000_0000_0000
  }

  /** The time left to the deadline when the tick reads its clock. */
  function RestTime(d: LatencyDemand, now: U64): int {
    BiasedTarget(d.targetLat, d.latBias) - (now - d.startTime)
  }

  function CyclesLeft(d: LatencyDemand, slice: U64): int {
    d.histNcycle - d.usedNcycle + slice
  }

  /** The wait the latency handler asks for, 0 when it asks for none. */
  function LatencyWait(d: LatencyDemand, past: U64, now: U64, slice: U64): int
    requires LatencyFits(d, past, now, slice)
  {
    if CyclesLeft(d, slice) <= 0 then 0 else
      BiasedFits(d.targetLat, d.latBias);
      WaitIn(Period(RestTime(d, now), slice, CyclesLeft(d, slice)) - (now - past))
  }

  /** A wait of a millisecond or less is not worth it. */
  function WaitIn(sleep: int): int {
    if sleep > MS then sleep else 0
  }

  /** Two natural numbers q and q + 1 enclose a quotient. */
  lemma QuotientEncloses(p: nat, c: nat)
    requires c > 0
    ensures (p / c) * c <= p < (p / c + 1) * c
  {
    assert p == (p / c) * c + p % c;
  }

  lemma QuotientReaches(p: nat, c: nat, x: nat)
    requires c > 0
    ensures p / c >= x <==> p >= x * c
  {
    QuotientEncloses(p, c);
    var q := p / c;
    if q >= x {
      Product(q - x, c);
      assert (q - x) * c == q * c - x * c;
    } else {
      Product(x - q - 1, c);
      assert (x - q - 1) * c == x * c - (q + 1) * c;
    }
  }

  /** Where the deadline of the round is: a positive bias puts it at its start. */
  function Deadline(d: LatencyDemand): int {
    d.startTime + if d.latBias > 0 then 0 else Max(0, d.targetLat + d.latBias)
  }

  /** The product the handler divides by the cycles: the time to the deadline times the slice. A deadline
      that has passed makes it negative, and as an unsigned value huge. */
  function TimeProduct(d: LatencyDemand, now: U64, slice: U64): int {
    var p := (Deadline(d) - now) * slice;
    if p < 0 then p + TWO_TO_THE_64 else p
  }

  lemma PeriodIsQuotient(p: int, cycles: I64)
    requires cycles > 0 && -TWO_TO_THE_63 <= p - MS && p < TWO_TO_THE_63 && (p >= 0 || cycles > 1)
    ensures var product := if p < 0 then p + TWO_TO_THE_64 else p;
            ToSigned(Wrap64(p) / cycles - MS) == product / cycles - MS
  {
    if p >= 0 {
      OnTimePeriod(p, cycles);
    } else {
      WrapNegative(p);
      LateQuotient(p + TWO_TO_THE_64, cycles);
      ToSignedExact((p + TWO_TO_THE_64) / cycles - MS);
    }
  }

  /** The wait of the latency handler, from both sides: with the time since the last tick and a
      millisecond it is the share of the remaining time that one slice has among the cycles left, rounded
      down, when that leaves more than a millisecond of it; otherwise, and without cycles left, it is 0. */
  lemma LatencyWaitIsShare(d: LatencyDemand, past: U64, now: U64, slice: U64)
    requires LatencyFits(d, past, now, slice)
    ensures d.histNcycle - d.usedNcycle + slice <= 0 ==> LatencyWait(d, past, now, slice) == 0
    ensures var cycles, product := d.histNcycle - d.usedNcycle + slice, TimeProduct(d, now, slice);
            var pass, wait := now - past, LatencyWait(d, past, now, slice);
            cycles > 0 && (Deadline(d) >= now || cycles > 1) &&
            -TWO_TO_THE_63 <= (Deadline(d) - now) * slice - 1000000 && (Deadline(d) - now) * slice < TWO_TO_THE_63 ==>
              if product >= (2000000 + pass + 1) * cycles then
                wait > 1000000 && (wait + pass + 1000000) * cycles <= product < (wait + pass + 1000001) * cycles
              else wait == 0
  {
    var rest, cycles, pass := Deadline(d) - now, d.histNcycle - d.usedNcycle + slice, now - past;
    var p := rest * slice;
    if cycles > 0 && (rest >= 0 || cycles > 1) && -TWO_TO_THE_63 <= p - MS && p < TWO_TO_THE_63 {
      DeadlineIsRest(d, now);
      SignOfProduct(rest, slice);
      var product := if p < 0 then p + TWO_TO_THE_64 else p;
      PeriodIsQuotient(p, cycles);
      QuotientEncloses(product, cycles);
      QuotientReaches(product, cycles, 2 * MS + pass + 1);
    }
  }

  lemma DeadlineIsRest(d: LatencyDemand, now: U64)
    requires d.targetLat < 0x2000_0000_0000_0000 && -0x2000_0000_0000_0000 < d.latBias < 0x2000_0000_0000_0000
    ensures RestTime(d, now) == Deadline(d) - now
  {
    BiasedTargetIsShifted(d.targetLat, d.latBias);
  }

  lemma BiasedFits(target: U64, bias: I64)
    requires target < 0x2000_0000_0000_0000 && -0x2000_0000_0000_0000 < bias < 0x2000_0000_0000_0000
    ensures BiasedTarget(target, bias) < 0x2000_0000_0000_0000
  {
    BiasedTargetIsShifted(target, bias);
  }

  lemma ShareBounded(rest: int, slice: int, cycles: int)
    requires rest >= 0 && 0 < slice <= cycles
    ensures rest * slice / cycles <= rest
  {
    assert rest * cycles - rest * slice == rest * (cycles - slice);
    Product(rest, cycles - slice);
    Product(rest, slice);
    Product(rest, cycles);
    QuotientGrows(rest * slice, rest * cycles, cycles);
    DivModUnique(rest * cycles, rest, 0, cycles);
  }

  lemma Times(d: int, n: nat)
    ensures d * (n + 1) == d * n + d
  {
  }

  lemma Product(a: int, b: int)
    requires a >= 0 && b >= 0
    ensures a * b >= 0
  {
  }

  /** A tick in time, in a round that has used no more cycles than it historically needs, asks for a
      wait that ends at least a millisecond before the deadline. */
  lemma WaitEndsBeforeDeadline(d: LatencyDemand, past: U64, now: U64, slice: U64)
    requires LatencyFits(d, past, now, slice) && d.latBias <= 0 && d.usedNcycle <= d.histNcycle
    requires now <= d.startTime + Max(0, d.targetLat + d.latBias)
    requires RestTime(d, now) * slice < TWO_TO_THE_63
    ensures LatencyWait(d, past, now, slice) > 0 ==>
              now + LatencyWait(d, past, now, slice) + MS <= d.startTime + Max(0, d.targetLat + d.latBias)
  {
    BiasedFits(d.targetLat, d.latBias);
    BiasedTargetIsShifted(d.targetLat, d.latBias);
    var rest, cycles := RestTime(d, now), CyclesLeft(d, slice);
    Product(rest, slice);
    OnTimePeriod(rest * slice, cycles);
    ShareBounded(rest, slice, cycles);
  }

  /** The demand after n ticks of a round. */
  function AfterTicks(d: LatencyDemand, slice: U64, n: nat): LatencyDemand {
    if n == 0 then d else
      var before := AfterTicks(d, slice, n - 1);
      before.(usedNcycle := Wrap64(before.usedNcycle + slice))
  }

  lemma {:induction false} UsedAfterTicks(d: LatencyDemand, slice: U64, n: nat)
    requires d.usedNcycle == 0 && n * slice < TWO_TO_THE_64
    ensures AfterTicks(d, slice, n) == d.(usedNcycle := n * slice)
  {
    if n == 0 {
    } else {
      assert n * slice == (n - 1) * slice + slice;
      UsedAfterTicks(d, slice, n - 1);
      WrapSmall((n - 1) * slice + slice);
    }
  }

  /** In a round that starts with no cycles used and that nothing but ticks adds to, this covers the
      first hist / slice + 1 ticks that arrive in time. */
  lemma FirstTicksMeetDeadline(d: LatencyDemand, slice: U64, n: nat, past: U64, now: U64)
    requires d.usedNcycle == 0 && LatencyFits(d, past, now, slice) && d.latBias <= 0
    requires n <= d.histNcycle / slice
    requires now <= d.startTime + Max(0, d.targetLat + d.latBias) && RestTime(d, now) * slice < TWO_TO_THE_63
    ensures n * slice <= d.histNcycle && AfterTicks(d, slice, n) == d.(usedNcycle := n * slice)
    ensures LatencyFits(AfterTicks(d, slice, n), past, now, slice)
    ensures var wait := LatencyWait(AfterTicks(d, slice, n), past, now, slice);
            wait > 0 ==> now + wait + MS <= d.startTime + Max(0, d.targetLat + d.latBias)
  {
    TicksInHistory(d.histNcycle, slice, n);
    UsedAfterTicks(d, slice, n);
    WaitEndsBeforeDeadline(d.(usedNcycle := n * slice), past, now, slice);
  }

  lemma TicksInHistory(hist: nat, slice: nat, n: nat)
    requires slice > 0 && n <= hist / slice
    ensures 0 <= n * slice <= hist
  {
    Product(n, slice);
    Product(hist / slice - n, slice);
    assert (hist / slice - n) * slice == (hist / slice) * slice - n * slice;
  }

  /** A late tick asks for a wait of more than eight seconds: the deadline has passed, and the unsigned
      product makes the share enormous instead of negative. */
  lemma LateTickOversleeps(d: LatencyDemand, past: U64, now: U64, slice: U64)
    requires LatencyFits(d, past, now, slice) && now - past <= 1000000000
    requires RestTime(d, now) < 0 && 2 <= CyclesLeft(d, slice) <= 1000000000
    requires RestTime(d, now) * slice - MS >= -TWO_TO_THE_63
    ensures LatencyWait(d, past, now, slice) > 8000000000
  {
    BiasedFits(d.targetLat, d.latBias);
    var rest, cycles := RestTime(d, now), CyclesLeft(d, slice);
    SignOfProduct(rest, slice);
    LatePeriod(rest * slice, cycles);
    QuotientFalls(TWO_TO_THE_63, cycles, 1000000000);
  }

  lemma QuotientFalls(p: int, q: int, r: int)
    requires p >= 0 && 0 < q <= r
    ensures p / q >= p / r
  {
    var x, y := p / q, p / r;
    assert p == x * q + p % q && p == y * r + p % r;
    Quotient(p, r);
    Product(y, r - q);
    assert y * r - y * q == y * (r - q);
    assert (x - y) * q == x * q - y * q;
    MulAtLeast(x - y, q);
  }

  lemma Quotient(p: int, r: int)
    requires p >= 0 && r > 0
    ensures p / r >= 0
  {
  }

  // Runs of the vsleep handler.

  /** The two clock readings of one tick. */
  datatype Reading = Reading(now: U64, later: U64)

  /** The budget and the time of the last tick; raised and cut add up what the clamps changed. */
  datatype Pace = Pace(budget: int, past: int, raised: nat, cut: nat)

  function PaceStep(slice: int, p: Pace, r: Reading): Pace {
    var raw := p.budget + slice - (r.later - p.past);
    Pace(Clamp(raw, slice), r.later, p.raised + Max(0, -5 * slice - raw), p.cut + Max(0, raw - 5 * slice))
  }

  function PaceRun(slice: int, p: Pace, rs: seq<Reading>): Pace {
    if rs == [] then p else PaceStep(slice, PaceRun(slice, p, rs[..|rs| - 1]), rs[|rs| - 1])
  }

  /** The budget telescopes: n slices in, the time since the start out, plus what the clamps did; and it
      stays within five slices of zero. */
  lemma {:induction false} BudgetTelescopes(slice: nat, p: Pace, rs: seq<Reading>)
    ensures var q := PaceRun(slice, p, rs);
            q.budget - p.budget == |rs| * slice - (q.past - p.past) + (q.raised - p.raised) - (q.cut - p.cut)
    ensures rs != [] ==> -5 * slice <= PaceRun(slice, p, rs).budget <= 5 * slice
  {
    if rs == [] {
    } else {
      BudgetTelescopes(slice, p, rs[..|rs| - 1]);
      assert |rs| * slice == (|rs| - 1) * slice + slice;
    }
  }

  /** Tick i waits at least as long as it asks. */
  ghost predicate WaitsServed(slice: int, p: Pace, rs: seq<Reading>) {
    forall i :: 0 <= i < |rs| ==> Served(slice, PaceRun(slice, p, rs[..i]), rs[i])
  }

  predicate Served(slice: int, p: Pace, r: Reading) {
    p.past <= r.now && r.later - r.now >= WaitRequest(p.budget, slice, p.past, r.now)
  }

  /** Then the budget never rises above zero, or above where it started, and is never cut. */
  lemma {:induction false} ServedBudgetStaysLow(slice: nat, p: Pace, rs: seq<Reading>)
    requires WaitsServed(slice, p, rs) && p.budget <= 5 * slice
    ensures PaceRun(slice, p, rs).budget <= Max(0, p.budget)
    ensures PaceRun(slice, p, rs).cut == p.cut
  {
    if rs == [] {
    } else {
      var front, last := rs[..|rs| - 1], rs[|rs| - 1];
      assert forall i :: 0 <= i < |front| ==> front[..i] == rs[..i];
      ServedBudgetStaysLow(slice, p, front);
      assert Served(slice, PaceRun(slice, p, front), last);
    }
  }

  /** So n consecutive ticks take at least n slices, less the budget they started below zero with: at
      least n - 5 slices in any run, and n slices from a budget that is not negative. */
  lemma RateBound(slice: nat, p: Pace, rs: seq<Reading>)
    requires WaitsServed(slice, p, rs) && -5 * slice <= p.budget <= 5 * slice
    ensures PaceRun(slice, p, rs).past - p.past >= |rs| * slice + Min(0, p.budget)
    ensures PaceRun(slice, p, rs).past - p.past >= (|rs| - 5) * slice
    ensures p.budget >= 0 ==> PaceRun(slice, p, rs).past - p.past >= |rs| * slice
  {
    BudgetTelescopes(slice, p, rs);
    ServedBudgetStaysLow(slice, p, rs);
    RaisedGrows(slice, p, rs);
    assert (|rs| - 5) * slice == |rs| * slice - 5 * slice;
  }

  lemma {:induction false} RaisedGrows(slice: nat, p: Pace, rs: seq<Reading>)
    ensures PaceRun(slice, p, rs).raised >= p.raised
  {
    if rs == [] {
    } else {
      RaisedGrows(slice, p, rs[..|rs| - 1]);
    }
  }
}
