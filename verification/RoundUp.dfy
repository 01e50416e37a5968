/** kroundup32 (inc/khash.h) and the table size kh_resize makes of a request. The words are integers
    below 2 to the 32: a right shift by s divides by 2 to the s. */
module RoundUp {
  import opened Context
  import opened Probe

  /** Bitwise or. */
  function Or(a: nat, b: nat): nat {
    if a == 0 then b else if b == 0 then a
    else 2 * Or(a / 2, b / 2) + (if a % 2 == 1 || b % 2 == 1 then 1 else 0)
  }

  lemma DivNat(y: nat, q: nat)
    requires q > 0
    ensures y / q >= 0
  {
    MulAtLeast(y / q, q);
  }

  /** y >> s, where q is 2 to the s. */
  function Shr(y: nat, q: nat): nat
    requires q > 0
  {
    DivNat(y, q);
    y / q
  }

  /** x |= x >> 1, x |= x >> 2, x |= x >> 4, x |= x >> 8, x |= x >> 16 */
  function FillDown(a: nat): nat {
    var b := Or(a, Shr(a, 0x2));
    var c := Or(b, Shr(b, 0x4));
    var d := Or(c, Shr(c, 0x10));
    var e := Or(d, Shr(d, 0x100));
    Or(e, Shr(e, 0x1_0000))
  }

  /** kroundup32 on khint_t: --x, the five lines above, ++x. */
  function KRoundUp32(x: nat): nat
    requires x < TWO_TO_THE_32
  {
    (FillDown(if x == 0 then TWO_TO_THE_32 - 1 else x - 1) + 1) % TWO_TO_THE_32
  }

  /** Every bit of y copied downwards over the next log2(p) - 1 positions: bit k of the result is set
      when one of the bits k, k + 1, ... of y inside a window of log2(p) bits is set. */
  function Smear(y: nat, p: nat): nat
    requires p > 0
  {
    if y == 0 then 0 else 2 * Smear(y / 2, p) + (if y % p != 0 then 1 else 0)
  }

  /** All bits up to the highest one of y. */
  function Ones(y: nat): nat {
    if y == 0 then 0 else 2 * Ones(y / 2) + 1
  }

  lemma {:induction false} SmearByOne(y: nat)
    ensures Smear(y, 2) == y
  {
    if y == 0 {
    } else {
      SmearByOne(y / 2);
    }
  }

  lemma ShrHalf(y: nat, q: nat)
    requires q > 0
    ensures Shr(y / 2, q) == Shr(y, 2 * q) == Shr(y, q) / 2
  {
    var d, e := y / (2 * q), y % (2 * q);
    HalfThenShr(y, d, e, q);
    ShrThenHalf(y, d, e, q);
  }

  lemma HalfThenShr(y: nat, d: int, e: int, q: nat)
    requires y == d * (2 * q) + e && 0 <= e < 2 * q
    ensures y / 2 / q == d
  {
    HalfParts(y, d, e, q);
    DivModUnique(y / 2, d, e / 2, q);
  }

  lemma ShrThenHalf(y: nat, d: int, e: int, q: nat)
    requires y == d * (2 * q) + e && 0 <= e < 2 * q
    ensures y / q / 2 == d
  {
    HalfParts(y, d, e, q);
    if e < q {
      DivModUnique(y, 2 * d, e, q);
    } else {
      DivModUnique(y, 2 * d + 1, e - q, q);
    }
  }

  lemma HalfParts(y: nat, d: int, e: int, q: nat)
    requires y == d * (2 * q) + e
    ensures y / 2 == d * q + e / 2
    ensures y == (2 * d) * q + e && (2 * d + 1) * q == (2 * d) * q + q
  {
    assert d * (2 * q) == (2 * d) * q == 2 * (d * q);
  }

  lemma {:induction false} SmearShifts(y: nat, p: nat, q: nat)
    requires p > 1 && IsPow2(q)
    ensures Shr(Smear(y, p), q) == Smear(Shr(y, q), p)
  {
    if q > 1 {
      SmearShifts(y / 2, p, q / 2);
      ShrHalf(y, q / 2);
      ShrHalf(Smear(y, p), q / 2);
      SmearParts(y, p);
    } else {
      DivModUnique(y, y, 0, 1);
      DivModUnique(Smear(y, p), Smear(y, p), 0, 1);
    }
  }

  lemma DigitSplit(y: nat, p: nat)
    requires p > 0
    ensures y == Shr(y, p) * p + y % p
  {
  }

  lemma DigitsZero(b: nat, c: nat, p: nat)
    requires p > 0
    ensures b * p + c == 0 <==> b == 0 && c == 0
  {
    if b != 0 {
      MulAtLeast(b, p);
    }
  }

  lemma WindowsJoin(y: nat, p: nat)
    requires p > 0
    ensures y % (p * p) != 0 <==> y % p != 0 || Shr(y, p) % p != 0
  {
    var h, c := Shr(y, p), y % p;
    var a, b := Shr(h, p), h % p;
    DigitSplit(y, p);
    DigitSplit(h, p);
    TwoDigits(a, b, c, p);
    DigitsZero(b, c, p);
  }

  /** A two-digit number in base p: its value modulo p * p is the two low digits. */
  lemma TwoDigits(a: nat, b: nat, c: nat, p: nat)
    requires b < p && c < p
    ensures p * p > 0 && ((a * p + b) * p + c) % (p * p) == b * p + c
  {
    var rest := (p - 1 - b) * p;
    assert p * p == rest + b * p + p;
    MulAtLeast(p - 1 - b, p);
    MulAtLeast(b, p);
    assert (a * p + b) * p + c == a * (p * p) + (b * p + c);
    DivModUnique((a * p + b) * p + c, a, b * p + c, p * p);
  }

  lemma {:induction false} OrSmears(y: nat, p: nat)
    requires p > 1
    ensures Or(Smear(y, p), Smear(Shr(y, p), p)) == Smear(y, p * p)
  {
    if y > 0 {
      OrSmears(y / 2, p);
      ShrHalf(y, p);
      WindowsJoin(y, p);
      SmearParts(y, p);
      SmearParts(Shr(y, p), p);
      OrParts(Smear(y, p), Smear(Shr(y, p), p));
    } else {
      DivModUnique(0, 0, 0, p);
    }
  }

  lemma SmearParts(y: nat, p: nat)
    requires p > 1
    ensures Smear(y, p) / 2 == Smear(y / 2, p)
    ensures Smear(y, p) % 2 == (if y % p != 0 then 1 else 0)
  {
  }

  lemma OrParts(a: nat, b: nat)
    ensures Or(a, b) == 2 * Or(a / 2, b / 2) + (if a % 2 == 1 || b % 2 == 1 then 1 else 0)
  {
  }

  /** One line of the macro doubles the window. */
  lemma SmearStep(y: nat, p: nat)
    requires IsPow2(p) && p > 1
    ensures Or(Smear(y, p), Shr(Smear(y, p), p)) == Smear(y, p * p)
  {
    SmearShifts(y, p, p);
    OrSmears(y, p);
  }

  lemma {:induction false} SmearAll(y: nat, p: nat)
    requires y < p
    ensures Smear(y, p) == Ones(y)
  {
    if y == 0 {
    } else {
      SmearAll(y / 2, p);
      SmallNotMultiple(y, p);
    }
  }

  /** The five lines leave all bits up to the highest one set. */
  lemma FillDownIsOnes(a: nat)
    requires a < TWO_TO_THE_32
    ensures FillDown(a) == Ones(a)
  {
    Times16(1);
    assert IsPow2(0x2) && IsPow2(0x4);
    Times16(0x10);
    Times16(0x100);
    Times16(0x1000);
    SmearByOne(a);
    var b := Or(a, Shr(a, 0x2));
    assert b == Smear(a, 0x4) by { SmearStep(a, 0x2); }
    var c := Or(b, Shr(b, 0x4));
    assert c == Smear(a, 0x10) by { SmearStep(a, 0x4); }
    var d := Or(c, Shr(c, 0x10));
    assert d == Smear(a, 0x100) by { SmearStep(a, 0x10); }
    var e := Or(d, Shr(d, 0x100));
    assert e == Smear(a, 0x1_0000) by { SmearStep(a, 0x100); }
    assert Or(e, Shr(e, 0x1_0000)) == Smear(a, TWO_TO_THE_32) by { SmearStep(a, 0x1_0000); }
    SmearAll(a, TWO_TO_THE_32);
  }

  lemma {:induction false} OnesIsBelowPow2(y: nat)
    ensures IsPow2(Ones(y) + 1)
    ensures y <= Ones(y) && (y > 0 ==> Ones(y) + 1 <= 2 * y)
  {
    if y == 0 {
    } else {
      OnesIsBelowPow2(y / 2);
    }
  }

  lemma Pow2Apart(a: nat, b: nat)
    requires IsPow2(a) && IsPow2(b) && a < b
    ensures 2 * a <= b
  {
    Pow2Divides(a, b);
    var q := b / a;
    assert b == q * a;
    MulAtLeast(1 - q, a);
    MulAtLeast(q - 1, a);
  }

  lemma TopBitIsPow2()
    ensures IsPow2(0x8000_0000)
  {
    WordSizeIsPow2();
  }

  /** kroundup32 is the least power of two that is not below x, and 0 when that does not fit. */
  lemma KRoundUp32Correct(x: nat)
    requires x < TWO_TO_THE_32
    ensures RoundsUp(x, KRoundUp32(x))
  {
    var y := if x == 0 then TWO_TO_THE_32 - 1 else x - 1;
    FillDownIsOnes(y);
    OnesIsBelowPow2(y);
    RoundsUpIntro(x, Ones(y) + 1);
  }

  ghost predicate RoundsUp(x: nat, r: nat) {
    if 0 < x <= 0x8000_0000 then IsPow2(r) && x <= r < 2 * x else r == 0
  }

  lemma RoundsUpIntro(x: nat, r: nat)
    requires x < TWO_TO_THE_32 && IsPow2(r)
    requires var y := if x == 0 then TWO_TO_THE_32 - 1 else x - 1;
             y < r && (y > 0 ==> r <= 2 * y) && (y == 0 ==> r == 1)
    ensures RoundsUp(x, r % TWO_TO_THE_32)
  {
    TopBitIsPow2();
    WordSizeIsPow2();
    if r > 0x8000_0000 {
      Pow2Apart(0x8000_0000, r);
    }
    if r > TWO_TO_THE_32 {
      Pow2Apart(TWO_TO_THE_32, r);
    }
    assert r <= 0x8000_0000 || r == TWO_TO_THE_32;
    if r == TWO_TO_THE_32 {
      DivModUnique(r, 1, 0, TWO_TO_THE_32);
    } else {
      DivModUnique(r, 0, r, TWO_TO_THE_32);
    }
  }

  /** Lines 249-250: the size kh_resize settles on. */
  function SizeFor(request: nat): nat
    requires request < TWO_TO_THE_32
  {
    if KRoundUp32(request) < 4 then 4 else KRoundUp32(request)
  }

  /** What a request is rounded to, characterised without the bit operations. */
  ghost predicate RoundsTo(request: nat, n: nat) {
    && IsPow2(n) && 4 <= n <= 0x8000_0000
    && (if 4 <= request <= 0x8000_0000 then request <= n < 2 * request else n == 4)
  }

  lemma SizeForCorrect(request: nat)
    requires request < TWO_TO_THE_32
    ensures RoundsTo(request, SizeFor(request))
  {
    KRoundUp32Correct(request);
    RoundsToIntro(request, KRoundUp32(request));
  }

  lemma RoundsToIntro(request: nat, r: nat)
    requires RoundsUp(request, r)
    ensures RoundsTo(request, if r < 4 then 4 else r)
  {
    TopBitIsPow2();
    assert IsPow2(2) && IsPow2(4);
    if r > 0x8000_0000 {
      Pow2Apart(0x8000_0000, r);
    }
    if 0 < request < 4 && r > 4 {
      Pow2Apart(4, r);
    }
  }

  /** The first request kh_put makes for a table of n buckets, n - 1, keeps the size. */
  lemma RequestBelow(n: nat)
    requires IsPow2(n) && 4 <= n <= 0x8000_0000
    ensures SizeFor(n - 1) == n
  {
    SizeForCorrect(n - 1);
    ShrinkRounds(n, SizeFor(n - 1));
  }

  /** The second, n + 1, doubles it, except that doubling the largest 32-bit power wraps round to the
      minimum. */
  lemma RequestAbove(n: nat)
    requires n == 0 || (IsPow2(n) && 4 <= n <= 0x8000_0000)
    ensures SizeFor(n + 1) == if n == 0 || n == 0x8000_0000 then 4 else 2 * n
  {
    SizeForCorrect(n + 1);
    if n > 0 {
      GrowRounds(n, SizeFor(n + 1));
    }
  }

  lemma ShrinkRounds(n: nat, r: nat)
    requires IsPow2(n) && 4 <= n <= 0x8000_0000 && RoundsTo(n - 1, r)
    ensures r == n
  {
    SameSize(n, r);
  }

  lemma GrowRounds(n: nat, r: nat)
    requires IsPow2(n) && 4 <= n <= 0x8000_0000 && RoundsTo(n + 1, r)
    ensures r == if n == 0x8000_0000 then 4 else 2 * n
  {
    if n < 0x8000_0000 {
      TopBitIsPow2();
      Pow2Apart(n, 0x8000_0000);
      SameSize(2 * n, r);
    }
  }

  lemma SameSize(n: nat, r: nat)
    requires IsPow2(n) && IsPow2(r) && n < 2 * r && r < 2 * n
    ensures n == r
  {
    if n < r {
      Pow2Apart(n, r);
    } else if r < n {
      Pow2Apart(r, n);
    }
  }
}
