/** The per-thread scheduling context (inc/robflex_def.h) and the machine integers it is made of. The
    members of the union uAuxData are separate fields here. */
module Context {
  const TWO_TO_THE_32: nat := 0x1_0000_0000
  const TWO_TO_THE_63 := 0x8000_0000_0000_0000
  const TWO_TO_THE_64 := 0x1_0000_0000_0000_0000

  type U64 = x: int | 0 <= x < TWO_TO_THE_64
  type I64 = x: int | -TWO_TO_THE_63 <= x < TWO_TO_THE_63
  type U32 = x: int | 0 <= x < TWO_TO_THE_32
  type I32 = x: int | -0x8000_0000 <= x < 0x8000_0000

  /** Reduction to uint64_t. */
  function Wrap64(x: int): U64 {
    x % TWO_TO_THE_64
  }

  lemma WrapAdds(x: int, y: int)
    ensures Wrap64(Wrap64(x) + y) == Wrap64(x + y)
  {
  }

  lemma WrapSmall(x: int)
    requires 0 <= x < TWO_TO_THE_64
    ensures Wrap64(x) == x
  {
  }

  /** Conversion of a uint64_t to long long. */
  function Signed64(x: U64): I64 {
    if x < TWO_TO_THE_63 then x else x - TWO_TO_THE_64
  }

  /** Conversion of any arithmetic result to long long. */
  function ToSigned(x: int): I64 {
    Signed64(Wrap64(x))
  }

  lemma ToSignedExact(x: int)
    requires -TWO_TO_THE_63 <= x < TWO_TO_THE_63
    ensures ToSigned(x) == x
  {
    if x < 0 {
      assert (x + TWO_TO_THE_64) % TWO_TO_THE_64 == x + TWO_TO_THE_64;
    }
  }

  /** Conversion of a uint32_t to int. */
  function Signed32(x: U32): I32 {
    if x < 0x8000_0000 then x else x - TWO_TO_THE_32
  }

  /** It keeps the low 32 bits. */
  lemma Signed32Means(x: U32)
    ensures (Signed32(x) - x) % TWO_TO_THE_32 == 0 && (x < 0x8000_0000 ==> Signed32(x) == x)
  {
  }

  /** The int that n atomic increments make of 0. */
  function Counter32(n: nat): I32 {
    Signed32(n % TWO_TO_THE_32)
  }

  /** One atomic increment, which wraps. */
  function Increment(x: I32): I32 {
    if x == 0x7fff_ffff then -0x8000_0000 else x + 1
  }

  lemma IncrementCounts(n: nat)
    ensures Increment(Counter32(n)) == Counter32(n + 1)
  {
    var r := n % TWO_TO_THE_32;
    assert (n + 1) % TWO_TO_THE_32 == if r == TWO_TO_THE_32 - 1 then 0 else r + 1;
  }

  /** C division, which truncates toward zero. */
  function CDiv(a: int, b: int): int
    requires b > 0
  {
    if a >= 0 then a / b else -((-a) / b)
  }

  /** The quotient differs from the exact one by less than 1, and is nearer to zero. */
  lemma CDivTruncates(a: int, b: int)
    requires b > 0
    ensures -b < a - b * CDiv(a, b) < b
    ensures if a >= 0 then 0 <= b * CDiv(a, b) <= a else a <= b * CDiv(a, b) <= 0
  {
    if a >= 0 {
      DivisionTruncates(a, b);
    } else {
      DivisionTruncates(-a, b);
      assert b * CDiv(a, b) == -(b * ((-a) / b));
    }
  }

  lemma DivisionTruncates(m: nat, b: nat)
    requires b > 0
    ensures 0 <= b * (m / b) <= m < b * (m / b) + b
  {
    var q, r := m / b, m % b;
    assert m == b * q + r;
    NonNegative(b, q);
  }

  lemma NonNegative(b: nat, q: int)
    requires q >= 0
    ensures b * q >= 0
  {
  }

  datatype RunPolicy = Yielding | Predetermined | Immediate | LatencyOriented | ByHandler

  function PolicyCode(p: RunPolicy): int {
    match p
    case Yielding => 0
    case Predetermined => 1
    case Immediate => 2
    case LatencyOriented => 3
    case ByHandler => 4
  }

  /** The policy with this value of enum RunPolicy. */
  function PolicyOf(code: int): Option<RunPolicy> {
    if code == 0 then Some(Yielding)
    else if code == 1 then Some(Predetermined)
    else if code == 2 then Some(Immediate)
    else if code == 3 then Some(LatencyOriented)
    else if code == 4 then Some(ByHandler)
    else None
  }

  datatype BusyDegree = SystemIdle | SystemModerate | SystemHigh

  datatype YieldDemand = YieldDemand(timeSlice: U64, timeBudgets: I64)

  datatype LatencyDemand = LatencyDemand(
    targetLat: U64, startTime: U64, histNcycle: U64, usedNcycle: U64,
    latBias: I64, totalLatency: U64, usedLatency: U64)

  datatype LocalContext = LocalContext(
    policy: RunPolicy, norm: YieldDemand, lat: LatencyDemand, level: I32, cyclesNum: U64, avgTimecost: U64)

  /** An all-zero context. */
  const NO_CONTEXT := LocalContext(Yielding, YieldDemand(0, 0), LatencyDemand(0, 0, 0, 0, 0, 0, 0), 0, 0, 0)

  datatype Option<T> = None | Some(value: T)
}
