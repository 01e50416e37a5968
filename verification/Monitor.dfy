/** The daemon's two loops that feed the throttle (src/server.c): the smoothed system load and its
    three-level degree, over the reals, and the idle waker. */
module Monitor {
  import opened Context

  datatype CpuData = CpuData(user: U64, nice: U64, system: U64, idle: U64, iowait: U64, irq: U64, softirq: U64,
                             steal: U64) {
    function NonIdle(): nat {
      user + nice + system + irq + softirq + steal
    }

    function Idle(): nat {
      idle + iowait
    }

    function Total(): nat {
      NonIdle() + Idle()
    }

    /** No counter has gone back. */
    predicate NotBefore(d: CpuData) {
      && user >= d.user && nice >= d.nice && system >= d.system && idle >= d.idle && iowait >= d.iowait
      && irq >= d.irq && softirq >= d.softirq && steal >= d.steal
    }
  }

  /** The difference of two sums of unsigned long long counters. */
  function Diff(cur: nat, prev: nat): U64 {
    Wrap64(Wrap64(cur) - Wrap64(prev))
  }

  /** As unsigned differences, no more time was idle than passed. */
  predicate Sane(cur: CpuData, prev: CpuData) {
    var totalDiff := Diff(cur.Total(), prev.Total());
    totalDiff == 0 || Diff(cur.Idle(), prev.Idle()) <= totalDiff
  }

  /** read_system_load: the percentage of the time that was not idle. It is one exactly when the samples
      are sane. */
  function ReadSystemLoad(cur: CpuData, prev: CpuData): (load: real)
    ensures load >= 0.0 && (load <= 100.0 <==> Sane(cur, prev))
  {
    Load(Diff(cur.Total(), prev.Total()), Diff(cur.Idle(), prev.Idle()))
  }

  function Load(totalDiff: U64, idleDiff: U64): (load: real)
    ensures load >= 0.0 && (load <= 100.0 <==> totalDiff == 0 || idleDiff <= totalDiff)
  {
    if totalDiff == 0 then 0.0 else
      BusyPart(totalDiff, idleDiff);
      Share(Wrap64(totalDiff - idleDiff), totalDiff);
      Percentage(Wrap64(totalDiff - idleDiff), totalDiff)
  }

  function Percentage(part: nat, whole: nat): real
    requires whole > 0
  {
    part as real / whole as real * 100.0
  }

  /** Of counters that do not go back and fit, the load is the percentage of the time that was not idle. */
  lemma LoadIsBusyShare(cur: CpuData, prev: CpuData)
    requires cur.NotBefore(prev) && cur.Total() < TWO_TO_THE_64
    ensures var time, busy := cur.Total() - prev.Total(), cur.NonIdle() - prev.NonIdle();
            && 0 <= busy <= time
            && ReadSystemLoad(cur, prev) == if time == 0 then 0.0 else Percentage(busy, time)
  {
    var time, busy, idle := cur.Total() - prev.Total(), cur.NonIdle() - prev.NonIdle(), cur.Idle() - prev.Idle();
    SmallDiff(cur.Total(), prev.Total());
    SmallDiff(cur.Idle(), prev.Idle());
    LoadOf(time, idle, busy);
  }

  lemma LoadOf(total: U64, idle: U64, busy: U64)
    requires total == idle + busy
    ensures Load(total, idle) == if total == 0 then 0.0 else Percentage(busy, total)
  {
    BusyPart(total, idle);
  }

  /** In particular it is 0 when nothing but idle and iowait moved, and 100 when neither of them did. */
  lemma IdleAndFullLoads(cur: CpuData, prev: CpuData)
    requires cur.NotBefore(prev) && cur.Total() < TWO_TO_THE_64
    ensures cur.NonIdle() == prev.NonIdle() ==> ReadSystemLoad(cur, prev) == 0.0
    ensures cur.Idle() == prev.Idle() && cur.Total() > prev.Total() ==> ReadSystemLoad(cur, prev) == 100.0
  {
    LoadIsBusyShare(cur, prev);
    if cur.Total() > prev.Total() {
      PercentageEnds(cur.Total() - prev.Total());
    }
  }

  lemma PercentageMeans(part: nat, whole: nat)
    requires whole > 0
    ensures Percentage(part, whole) * whole as real == 100.0 * part as real
  {
    var q := part as real / whole as real;
    assert q * whole as real == part as real;
    assert q * 100.0 * whole as real == 100.0 * (q * whole as real);
  }

  lemma PercentageEnds(whole: nat)
    requires whole > 0
    ensures Percentage(0, whole) == 0.0 && Percentage(whole, whole) == 100.0
  {
    var w := whole as real;
    assert 0.0 / w == 0.0 && w / w == 1.0;
  }

  lemma BusyPart(total: U64, idle: U64)
    ensures Wrap64(total - idle) <= total <==> idle <= total
    ensures Wrap64(total - idle) == if idle <= total then total - idle else total - idle + TWO_TO_THE_64
  {
  }

  lemma Share(part: nat, whole: nat)
    requires whole > 0
    ensures 0.0 <= Percentage(part, whole) && (Percentage(part, whole) <= 100.0 <==> part <= whole)
  {
    var q := part as real / whole as real;
    assert q * whole as real == part as real;
    if q < 0.0 {
      RealProduct(-q, whole as real);
    } else if q > 1.0 {
      RealProduct(q - 1.0, whole as real);
    } else if q < 1.0 {
      RealProduct(1.0 - q, whole as real);
    }
  }

  lemma SmallDiff(cur: nat, prev: nat)
    requires prev <= cur < TWO_TO_THE_64
    ensures Diff(cur, prev) == cur - prev
  {
  }

  /** Counters that do not go back are sane, as long as their sums fit. */
  lemma ForwardIsSane(cur: CpuData, prev: CpuData)
    requires cur.NotBefore(prev) && cur.Total() < TWO_TO_THE_64
    ensures Sane(cur, prev)
  {
    SmallDiff(cur.Total(), prev.Total());
    SmallDiff(cur.Idle(), prev.Idle());
  }

  lemma RealProduct(a: real, b: real)
    requires a > 0.0 && b > 0.0
    ensures a * b > 0.0
  {
  }

  /** get_system_busy_degree */
  function Degree(load1s: real): BusyDegree {
    if load1s < 30.0 then SystemIdle else if load1s < 80.0 then SystemModerate else SystemHigh
  }

  function Smoothed(load1s: real, load10ms: real): real {
    load1s * 0.9 + load10ms * 0.1
  }

  /** The highest load n samples after an idle one. */
  function IdleTop(n: nat): real {
    if n == 0 then 30.0 else Smoothed(IdleTop(n - 1), 100.0)
  }

  lemma IdleTopValues()
    ensures IdleTop(11) < 80.0
    ensures forall n :: 0 <= n <= 11 ==> IdleTop(n) <= IdleTop(11)
  {
    assert IdleTop(1) == 37.0;
    assert IdleTop(2) == 43.3;
    assert IdleTop(3) == 48.97;
    assert IdleTop(4) == 54.073;
    assert IdleTop(5) == 58.6657;
    assert IdleTop(6) == 62.79913;
    assert IdleTop(7) == 66.519217;
    assert IdleTop(8) == 69.8672953;
    assert IdleTop(9) == 72.88056577;
    assert IdleTop(10) == 75.592509193;
    assert IdleTop(11) == 78.0332582737;
  }

  /** Each load follows from the one before by smoothing in a sample between 0 and 100. */
  ghost predicate IsLoadRun(loads: seq<real>) {
    forall i :: 0 < i < |loads| ==> FromSample(loads[i - 1], loads[i])
  }

  ghost predicate FromSample(before: real, after: real) {
    exists x :: 0.0 <= x <= 100.0 && after == Smoothed(before, x)
  }

  lemma {:induction false} RiseIsBounded(loads: seq<real>, i: nat, j: nat)
    requires IsLoadRun(loads) && i <= j < |loads| && loads[i] < 30.0
    ensures loads[j] <= IdleTop(j - i)
    decreases j
  {
    if i == j {
    } else {
      RiseIsBounded(loads, i, j - 1);
      assert FromSample(loads[j - 1], loads[j]);
    }
  }

  /** On any run of loads the degree does not go from idle to high in fewer than 12 samples. */
  lemma IdleToHighTakesTwelve(loads: seq<real>, i: nat, j: nat)
    requires IsLoadRun(loads) && i <= j < |loads|
    requires Degree(loads[i]) == SystemIdle && Degree(loads[j]) == SystemHigh
    ensures j - i >= 12
  {
    RiseIsBounded(loads, i, j);
    IdleTopValues();
  }

  /** A run of full samples from 29.9 percent. */
  function Rising(n: nat): real {
    if n == 0 then 29.9 else Smoothed(Rising(n - 1), 100.0)
  }

  /** And 12 full samples can be enough. */
  lemma TwelveSuffice()
    ensures Degree(Rising(0)) == SystemIdle && Degree(Rising(12)) == SystemHigh
  {
    assert Rising(3) == 48.8971;
    assert Rising(6) == 62.7459859;
    assert Rising(9) == 72.8418237211;
    assert Rising(12) == 80.2016894926819;
  }

  /** The load that is published after these readings; it starts at 30. */
  function LoadAfter(readings: seq<real>): real {
    if readings == [] then 30.0 else Smoothed(LoadAfter(readings[..|readings| - 1]), readings[|readings| - 1])
  }

  predicate IsPercent(x: real) {
    0.0 <= x <= 100.0
  }

  /** The loads after each of the readings. */
  ghost predicate AreLoads(readings: seq<real>, loads: seq<real>) {
    |loads| == |readings| && forall i :: 0 <= i < |loads| ==> loads[i] == LoadAfter(readings[..i + 1])
  }

  lemma {:induction false} LoadIsPercent(readings: seq<real>)
    requires forall i :: 0 <= i < |readings| ==> IsPercent(readings[i])
    ensures IsPercent(LoadAfter(readings))
  {
    if readings == [] {
    } else {
      LoadIsPercent(readings[..|readings| - 1]);
    }
  }

  /** Readings that are percentages make a run of loads that are. */
  lemma PercentRun(readings: seq<real>, loads: seq<real>)
    requires AreLoads(readings, loads) && forall i :: 0 <= i < |readings| ==> IsPercent(readings[i])
    ensures IsLoadRun(loads) && forall i :: 0 <= i < |loads| ==> IsPercent(loads[i])
  {
    forall i | 0 <= i < |loads| ensures IsPercent(loads[i]) {
      LoadIsPercent(readings[..i + 1]);
    }
    forall i | 0 < i < |loads| ensures FromSample(loads[i - 1], loads[i]) {
      assert readings[..i + 1][..i] == readings[..i - 1 + 1];
      assert IsPercent(readings[i]) && loads[i] == Smoothed(loads[i - 1], readings[i]);
    }
  }

  /** Twelve idle samples make any system idle. */
  lemma TwelveIdleSettle(readings: seq<real>, n: nat)
    requires n + 12 <= |readings| && forall i :: 0 <= i < n ==> IsPercent(readings[i])
    requires forall i :: n <= i < n + 12 ==> readings[i] == 0.0
    ensures Degree(LoadAfter(readings[..n + 12])) == SystemIdle
  {
    LoadIsPercent(readings[..n]);
    SteadyLoad(readings, n, 12, 0.0);
    SteadyValues(LoadAfter(readings[..n]));
  }

  /** And sixteen full ones make any system high. */
  lemma SixteenFullSettle(readings: seq<real>, n: nat)
    requires n + 16 <= |readings| && forall i :: 0 <= i < n ==> IsPercent(readings[i])
    requires forall i :: n <= i < n + 16 ==> readings[i] == 100.0
    ensures Degree(LoadAfter(readings[..n + 16])) == SystemHigh
  {
    LoadIsPercent(readings[..n]);
    SteadyLoad(readings, n, 16, 100.0);
    SteadyValues(LoadAfter(readings[..n]));
  }

  /** The load after k samples of x. */
  function Steady(load: real, x: real, k: nat): real {
    if k == 0 then load else Smoothed(Steady(load, x, k - 1), x)
  }

  lemma {:induction false} SteadyLoad(readings: seq<real>, n: nat, k: nat, x: real)
    requires n + k <= |readings| && forall i :: n <= i < n + k ==> readings[i] == x
    ensures LoadAfter(readings[..n + k]) == Steady(LoadAfter(readings[..n]), x, k)
  {
    if k == 0 {
    } else {
      SteadyLoad(readings, n, k - 1, x);
      assert readings[..n + k][..n + k - 1] == readings[..n + k - 1];
    }
  }

  /** A steady sample is approached by a factor of 0.9 each time. */
  lemma {:induction false} SteadyGap(load: real, x: real, k: nat)
    ensures Steady(load, x, k) - x == Power9(k) * (load - x)
  {
    if k == 0 {
    } else {
      SteadyGap(load, x, k - 1);
      assert Power9(k) * (load - x) == 0.9 * (Power9(k - 1) * (load - x));
    }
  }

  function Power9(k: nat): real {
    if k == 0 then 1.0 else 0.9 * Power9(k - 1)
  }

  lemma Power9Values()
    ensures 0.28 < Power9(12) < 0.29 && 0.18 < Power9(16) < 0.19
  {
    assert Power9(4) == 0.6561;
    assert Power9(8) == 0.43046721;
    assert Power9(12) == 0.282429536481;
  }

  lemma SteadyValues(load: real)
    requires IsPercent(load)
    ensures Steady(load, 0.0, 12) < 30.0 && Steady(load, 100.0, 16) >= 80.0
  {
    SteadyGap(load, 0.0, 12);
    SteadyGap(load, 100.0, 16);
    Power9Values();
    Scaled(Power9(12), load);
    Scaled(Power9(16), 100.0 - load);
  }

  lemma Scaled(a: real, b: real)
    requires 0.0 < a && 0.0 <= b <= 100.0
    ensures 0.0 <= a * b <= a * 100.0
  {
    assert a * 100.0 - a * b == a * (100.0 - b);
  }

  /** No jump from idle to high in fewer than 12 samples. */
  ghost predicate RisesSlowly(degrees: seq<BusyDegree>) {
    forall i, j :: 0 <= i <= j < |degrees| && degrees[i] == SystemIdle && degrees[j] == SystemHigh ==> j - i >= 12
  }

  /** cpu_monitor_thread, samples[0] being the one read before the loop: it publishes the reading of every
      sample, the smoothed load and its degree. When all samples are sane the load stays between 0 and 100
      and the degrees rise slowly. */
  method CpuMonitor(samples: seq<CpuData>) returns (readings: seq<real>, loads: seq<real>, degrees: seq<BusyDegree>)
    requires |samples| > 0
    ensures |readings| == |degrees| == |samples| - 1 && AreLoads(readings, loads)
    ensures forall i :: 0 <= i < |readings| ==> readings[i] == ReadSystemLoad(samples[i + 1], samples[i])
    ensures |loads| > 0 ==> loads[0] == 27.0 + readings[0] * 0.1
    ensures forall i :: 0 <= i < |degrees| ==>
              && (degrees[i] == SystemIdle <==> loads[i] < 30.0)
              && (degrees[i] == SystemHigh <==> loads[i] >= 80.0)
    ensures (forall i :: 0 <= i < |readings| ==> IsPercent(readings[i])) ==>
              RisesSlowly(degrees) && forall i :: 0 <= i < |loads| ==> IsPercent(loads[i])
  {
    var load1s, prev := 30.0, samples[0];
    readings, loads, degrees := [], [], [];
    for k := 1 to |samples|
      invariant |readings| == |degrees| == k - 1 && AreLoads(readings, loads) && load1s == LoadAfter(readings)
      invariant prev == samples[k - 1]
      invariant forall i :: 0 <= i < k - 1 ==> readings[i] == ReadSystemLoad(samples[i + 1], samples[i])
      invariant forall i :: 0 <= i < k - 1 ==> degrees[i] == Degree(loads[i])
    {
      var load10ms := ReadSystemLoad(samples[k], prev);
      load1s := Smoothed(load1s, load10ms);
      MoreLoads(readings, loads, load10ms);
      readings := readings + [load10ms];
      loads := loads + [load1s];
      degrees := degrees + [Degree(load1s)];
      prev := samples[k];
    }
    FirstLoad(readings, loads);
    if forall i :: 0 <= i < |readings| ==> IsPercent(readings[i]) {
      PercentRun(readings, loads);
      forall i, j | 0 <= i <= j < |degrees| && degrees[i] == SystemIdle && degrees[j] == SystemHigh
        ensures j - i >= 12
      {
        IdleToHighTakesTwelve(loads, i, j);
      }
    }
  }

  /** Nothing but idle and iowait moved between samples i and i + 1. */
  predicate OnlyIdle(samples: seq<CpuData>, i: nat)
    requires i + 1 < |samples|
  {
    && samples[i + 1].NotBefore(samples[i]) && samples[i + 1].Total() < TWO_TO_THE_64
    && samples[i + 1].NonIdle() == samples[i].NonIdle()
  }

  /** Of what CpuMonitor publishes: after twelve such samples in a row the degree is idle. */
  lemma IdleMachineIsIdle(samples: seq<CpuData>, readings: seq<real>, loads: seq<real>, n: nat)
    requires |samples| == |readings| + 1 && AreLoads(readings, loads)
    requires forall i :: 0 <= i < |readings| ==> readings[i] == ReadSystemLoad(samples[i + 1], samples[i])
    requires n + 12 <= |readings| && forall i :: 0 <= i < n ==> IsPercent(readings[i])
    requires forall i :: n <= i < n + 12 ==> OnlyIdle(samples, i)
    ensures Degree(loads[n + 11]) == SystemIdle
  {
    forall i | n <= i < n + 12 ensures readings[i] == 0.0 {
      assert OnlyIdle(samples, i);
      IdleAndFullLoads(samples[i + 1], samples[i]);
    }
    TwelveIdleSettle(readings, n);
  }

  lemma FirstLoad(readings: seq<real>, loads: seq<real>)
    requires AreLoads(readings, loads)
    ensures |loads| > 0 ==> loads[0] == 27.0 + readings[0] * 0.1
  {
    if |loads| > 0 {
      assert readings[..1][..0] == [] && loads[0] == LoadAfter(readings[..1]);
    }
  }

  lemma MoreLoads(readings: seq<real>, loads: seq<real>, reading: real)
    requires AreLoads(readings, loads)
    ensures LoadAfter(readings + [reading]) == Smoothed(LoadAfter(readings), reading)
    ensures AreLoads(readings + [reading], loads + [LoadAfter(readings + [reading])])
  {
    var more := readings + [reading];
    assert more[..|readings|] == readings && more[..|more|] == more;
    forall i | 0 <= i < |more| ensures (loads + [LoadAfter(more)])[i] == LoadAfter(more[..i + 1]) {
      assert i < |loads| ==> more[..i + 1] == readings[..i + 1];
    }
  }

  /** A reading of /proc/stat in which iowait went back by 10 and user time forward by 11. */
  lemma BackwardReading()
    ensures ReadSystemLoad(CpuData(11, 0, 0, 0, 0, 0, 0, 0), CpuData(0, 0, 0, 0, 10, 0, 0, 0)) == 1100.0
  {
    SmallDiff(11, 10);
    BackwardDiff(0, 10);
    BusyPart(1, TWO_TO_THE_64 - 10);
  }

  /** A single sample that is not sane can do it: such a reading on an idle machine. */
  lemma BackwardReadingJumps()
    ensures Degree(LoadAfter([0.0])) == SystemIdle && Degree(LoadAfter([0.0] + [1100.0])) == SystemHigh
  {
    assert [0.0][..0] == [] && ([0.0] + [1100.0])[..1] == [0.0];
    assert LoadAfter([0.0]) == 27.0;
  }

  lemma BackwardDiff(cur: nat, prev: nat)
    requires cur < prev < TWO_TO_THE_64
    ensures Diff(cur, prev) == cur - prev + TWO_TO_THE_64
  {
  }

  const IDLE_WAKE_WAIT_FOR_NS := 5000
  const CPU_GAP_THRESHOLD := 3000

  /** The clock does not go back at reading i. */
  predicate Forward(times: seq<nat>, i: nat)
    requires 0 < i < |times|
  {
    times[i - 1] <= times[i]
  }

  /** The CPU time between a reading and the one before. */
  function Gap(times: seq<nat>, i: nat): int
    requires 0 < i < |times|
  {
    (times[i] as int) - times[i - 1]
  }

  /** Between readings a and b every gap is below the threshold. */
  ghost predicate QuietBetween(times: seq<nat>, a: nat, b: nat)
    requires a <= b < |times|
  {
    forall i :: a < i <= b ==> Gap(times, i) < 3000
  }

  /** A wake at reading b for the quiet stretch that began at reading a. */
  ghost predicate Justified(times: seq<nat>, a: nat, b: nat) {
    a < b < |times| && QuietBetween(times, a, b) && times[b] >= times[a] + 5000
  }

  /** The stretch of wake m begins no earlier than the wake before. */
  predicate Apart(since: seq<nat>, wakes: seq<nat>, m: nat)
    requires 0 < m < |wakes| && m < |since|
  {
    wakes[m - 1] <= since[m]
  }

  /** The wakes so far, each for a stretch of its own. */
  ghost predicate WakesJustified(times: seq<nat>, since: seq<nat>, wakes: seq<nat>) {
    && |since| == |wakes|
    && (forall m :: 0 <= m < |wakes| ==> Justified(times, since[m], wakes[m]))
    && (forall m :: 0 < m < |wakes| ==> Apart(since, wakes, m))
  }

  /** The waker after reading k: what it has saved up since reading start, the last wake or long gap. */
  ghost predicate WakerAt(times: seq<nat>, k: nat, lasting: nat, since: seq<nat>, wakes: seq<nat>, start: nat) {
    && start <= k < |times| && QuietBetween(times, start, k)
    && times[start] + lasting == times[k] && lasting < 5000
    && times[0] + 5000 * |wakes| + lasting <= times[k]
    && WakesJustified(times, since, wakes) && (wakes != [] ==> wakes[|wakes| - 1] <= start)
    && (start == 0 || start in wakes || Gap(times, start) >= 3000)
  }

  lemma LongGap(times: seq<nat>, k: nat, lasting: nat, since: seq<nat>, wakes: seq<nat>, start: nat)
    requires WakerAt(times, k, lasting, since, wakes, start)
    requires k + 1 < |times| && Forward(times, k + 1) && Gap(times, k + 1) >= CPU_GAP_THRESHOLD
    ensures WakerAt(times, k + 1, 0, since, wakes, k + 1)
  {
  }

  lemma ShortGap(times: seq<nat>, k: nat, lasting: nat, since: seq<nat>, wakes: seq<nat>, start: nat)
    requires WakerAt(times, k, lasting, since, wakes, start)
    requires k + 1 < |times| && Forward(times, k + 1) && Gap(times, k + 1) < CPU_GAP_THRESHOLD
    requires lasting + times[k + 1] - times[k] < IDLE_WAKE_WAIT_FOR_NS
    ensures WakerAt(times, k + 1, lasting + times[k + 1] - times[k], since, wakes, start)
  {
  }

  lemma WakeUp(times: seq<nat>, k: nat, lasting: nat, since: seq<nat>, wakes: seq<nat>, start: nat)
    requires WakerAt(times, k, lasting, since, wakes, start)
    requires k + 1 < |times| && Forward(times, k + 1) && Gap(times, k + 1) < CPU_GAP_THRESHOLD
    requires lasting + times[k + 1] - times[k] >= IDLE_WAKE_WAIT_FOR_NS
    ensures WakerAt(times, k + 1, 0, since + [start], wakes + [k + 1], k + 1)
  {
    assert Justified(times, start, k + 1);
    WakeAdded(times, since, wakes, start, k + 1);
    assert (wakes + [k + 1])[|wakes|] == k + 1;
  }

  lemma WakeAdded(times: seq<nat>, since: seq<nat>, wakes: seq<nat>, start: nat, k: nat)
    requires WakesJustified(times, since, wakes) && Justified(times, start, k)
    requires wakes != [] ==> wakes[|wakes| - 1] <= start
    ensures WakesJustified(times, since + [start], wakes + [k])
  {
    var since', wakes' := since + [start], wakes + [k];
    forall m | 0 <= m < |wakes'| ensures Justified(times, since'[m], wakes'[m]) {
      if m < |wakes| {
        assert Justified(times, since[m], wakes[m]);
      }
    }
    forall m | 0 < m < |wakes'| ensures Apart(since', wakes', m) {
      assert m < |wakes| ==> Apart(since, wakes, m);
    }
  }

  /** What the waker has saved up, its wakes, the readings their stretches began at, and where the current
      stretch began. */
  datatype Waker = Waker(lasting: nat, since: seq<nat>, wakes: seq<nat>, start: nat)

  /** The waker after a reading k that came delta after the one before. */
  function WakerStep(w: Waker, k: nat, delta: nat): Waker {
    if delta >= CPU_GAP_THRESHOLD then w.(lasting := 0, start := k)
    else if w.lasting + delta >= IDLE_WAKE_WAIT_FOR_NS then Waker(0, w.since + [w.start], w.wakes + [k], k)
    else w.(lasting := w.lasting + delta)
  }

  lemma WakerSteps(times: seq<nat>, k: nat, w: Waker)
    requires WakerAt(times, k, w.lasting, w.since, w.wakes, w.start) && k + 1 < |times| && Forward(times, k + 1)
    ensures var w' := WakerStep(w, k + 1, times[k + 1] - times[k]);
            WakerAt(times, k + 1, w'.lasting, w'.since, w'.wakes, w'.start)
  {
    if Gap(times, k + 1) >= CPU_GAP_THRESHOLD {
      LongGap(times, k, w.lasting, w.since, w.wakes, w.start);
    } else if w.lasting + times[k + 1] - times[k] >= IDLE_WAKE_WAIT_FOR_NS {
      WakeUp(times, k, w.lasting, w.since, w.wakes, w.start);
    } else {
      ShortGap(times, k, w.lasting, w.since, w.wakes, w.start);
    }
  }

  /** idle_waker_thread over the readings of its CPU clock, times[0] being the one before the loop: the
      readings at which it wakes a sleeper. Wakes cost at least 5000 ns of CPU time each, on top of what
      it has saved up; each is justified by a stretch of its own of gaps below 3000 ns that add up to at
      least 5000; and a wake is never held back: what is saved up since the last wake or long gap is
      below 5000. */
  method IdleWaker(times: seq<nat>) returns (wakes: seq<nat>, lasting: nat, ghost since: seq<nat>, ghost start: nat)
    requires |times| > 0 && forall i :: 0 < i < |times| ==> Forward(times, i)
    ensures times[0] + 5000 * |wakes| + lasting <= times[|times| - 1]
    ensures WakesJustified(times, since, wakes)
    ensures WakerAt(times, |times| - 1, lasting, since, wakes, start)
  {
    lasting := 0;
    var last := times[0];
    wakes, since, start := [], [], 0;
    ghost var w := Waker(0, [], [], 0);
    for k := 1 to |times|
      invariant last == times[k - 1] && w == Waker(lasting, since, wakes, start)
      invariant WakerAt(times, k - 1, w.lasting, w.since, w.wakes, w.start)
    {
      assert Forward(times, k);
      WakerSteps(times, k - 1, w);
      var now := times[k];
      var delta := now - last;
      w := WakerStep(w, k, delta);
      if delta < CPU_GAP_THRESHOLD {
        lasting := lasting + delta;
      } else {
        lasting := 0;
        start := k;
      }
      last := now;
      if lasting >= IDLE_WAKE_WAIT_FOR_NS {
        wakes, since := wakes + [k], since + [start];
        lasting := 0;
        start := k;
      }
    }
  }
}
