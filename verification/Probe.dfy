/** The triangular probe sequence of khash (inc/khash.h): bucket i is followed by
    (i + ++step) & mask, where mask is one less than a power of two. */
module Probe {
  import opened Context

  predicate IsPow2(n: nat) {
    n == 1 || (n > 1 && n % 2 == 0 && IsPow2(n / 2))
  }

  /** One probe step on khint_t: the addition wraps at 32 bits and the mask keeps the low bits,
      which for a power of two is the remainder. */
  function Next(i: nat, step: nat, n: nat): nat
    requires n > 0
  {
    ((i + step) % TWO_TO_THE_32) % n
  }

  /** The bucket inspected after `steps` increments of `step`, starting from hash value h. */
  function Bucket(h: nat, steps: nat, n: nat): (b: nat)
    requires n > 0
    ensures b < n
  {
    if steps == 0 then h % n else Next(Bucket(h, steps - 1, n), steps, n)
  }

  function Triangular(s: nat): nat {
    if s == 0 then 0 else Triangular(s - 1) + s
  }

  // ----- arithmetic helpers -----

  lemma {:induction false} Pow2Divides(n: nat, m: nat)
    requires IsPow2(n) && IsPow2(m) && n <= m
    ensures m % n == 0
  {
    if n == 1 {
    } else {
      Pow2Divides(n / 2, m / 2);
      var q := (m / 2) / (n / 2);
      assert m == 2 * (m / 2) && n == 2 * (n / 2) && m / 2 == q * (n / 2);
      assert m == q * n;
      MultipleMod(q, n);
    }
  }

  lemma MulAtLeast(k: int, n: nat)
    ensures k >= 1 ==> k * n >= n
    ensures k <= -1 ==> k * n + n <= 0
  {
    assert k * n == (k - 1) * n + n;
    assert k * n == (k + 1) * n - n;
  }

  /** Division with remainder is unique. */
  lemma DivModUnique(x: int, q: int, r: int, n: nat)
    requires 0 <= r < n && x == q * n + r
    ensures x / n == q && x % n == r
  {
    var p := x / n;
    assert (p - q) * n == r - x % n by {
      assert x == p * n + x % n;
    }
    MulAtLeast(p - q, n);
  }

  lemma MultipleMod(q: int, n: nat)
    requires n > 0
    ensures (q * n) % n == 0
  {
    DivModUnique(q * n, q, 0, n);
  }

  lemma ModShift(x: int, q: int, n: nat)
    requires n > 0
    ensures (x + q * n) % n == x % n
  {
    assert x + q * n == (x / n + q) * n + x % n;
    DivModUnique(x + q * n, x / n + q, x % n, n);
  }

  lemma ModEqual(x: int, y: int, n: nat)
    requires n > 0
    ensures x % n == y % n <==> (y - x) % n == 0
  {
    if x % n == y % n {
      assert y - x == (y / n - x / n) * n by {
        assert y == (y / n) * n + y % n && x == (x / n) * n + x % n;
      }
      MultipleMod(y / n - x / n, n);
    }
    if (y - x) % n == 0 {
      assert y == x + ((y - x) / n) * n;
      ModShift(x, (y - x) / n, n);
    }
  }

  lemma NestedMod(x: nat, n: nat, m: nat)
    requires n > 0 && m > 0 && m % n == 0
    ensures (x % m) % n == x % n
  {
    var c, q := m / n, x / m;
    assert m == c * n;
    assert q * m == (q * c) * n;
    assert x == x % m + (q * c) * n;
    ModShift(x % m, q * c, n);
  }

  lemma DoublePow2(n: nat)
    requires IsPow2(n)
    ensures IsPow2(2 * n)
  {
  }

  lemma Times16(n: nat)
    requires IsPow2(n)
    ensures IsPow2(16 * n)
  {
    DoublePow2(n);
    DoublePow2(2 * n);
    DoublePow2(4 * n);
    DoublePow2(8 * n);
  }

  lemma WordSizeIsPow2()
    ensures IsPow2(TWO_TO_THE_32)
  {
    Times16(1);
    Times16(0x10);
    Times16(0x100);
    Times16(0x1000);
    Times16(0x1_0000);
    Times16(0x10_0000);
    Times16(0x100_0000);
    Times16(0x1000_0000);
  }

  /** Wrapping at 32 bits does not disturb a power-of-two mask. */
  lemma WrapIsHarmless(x: nat, n: nat)
    requires IsPow2(n) && n <= TWO_TO_THE_32
    ensures (x % TWO_TO_THE_32) % n == x % n
  {
    WordSizeIsPow2();
    Pow2Divides(n, TWO_TO_THE_32);
    NestedMod(x, n, TWO_TO_THE_32);
  }

  lemma OddTimesOdd(a: nat, b: nat)
    ensures a % 2 == 1 && b % 2 == 1 ==> (a * b) % 2 == 1
  {
    assert a == 2 * (a / 2) + a % 2 && b == 2 * (b / 2) + b % 2;
    assert a * b == 2 * ((a / 2) * b) + (a % 2) * b;
  }

  lemma TwiceOut(x: int, y: int)
    ensures (2 * x) * y == 2 * (x * y) == x * (2 * y)
  {
  }

  lemma HalveFactor(a: nat, b: nat, half: nat, q: int)
    requires b % 2 == 1 && a * b == q * (2 * half)
    ensures a == 2 * (a / 2) && (a / 2) * b == q * half
  {
    TwiceOut(q, half);
    OddTimesOdd(a, b);
    TwiceOut(a / 2, b);
  }

  /** A power of two that divides a * b with b odd divides a. */
  lemma {:induction false} OddFactor(a: nat, b: nat, m: nat, q: int) returns (p: int)
    requires IsPow2(m) && b % 2 == 1 && a * b == q * m
    ensures a == p * m
  {
    if m == 1 {
      p := a;
    } else {
      HalveFactor(a, b, m / 2, q);
      p := OddFactor(a / 2, b, m / 2, q);
      TwiceOut(p, m / 2);
    }
  }

  lemma OddFactorDrops(a: nat, b: nat, m: nat)
    requires IsPow2(m) && b % 2 == 1 && (a * b) % m == 0
    ensures a % m == 0
  {
    var p := OddFactor(a, b, m, (a * b) / m);
    MultipleMod(p, m);
  }

  lemma {:induction false} TriangularClosedForm(s: nat)
    ensures 2 * Triangular(s) == s * (s + 1)
  {
    if s == 0 {
    } else {
      TriangularClosedForm(s - 1);
    }
  }

  // ----- the probe sequence -----

  lemma ModAdd(x: int, y: int, n: nat)
    requires n > 0
    ensures (x % n + y) % n == (x + y) % n
  {
    assert x + y == (x % n + y) + (x / n) * n;
    ModShift(x % n + y, x / n, n);
  }

  lemma NextIsMod(i: nat, step: nat, n: nat)
    requires IsPow2(n) && n <= TWO_TO_THE_32
    ensures Next(i, step, n) == (i + step) % n
  {
    WrapIsHarmless(i + step, n);
  }

  lemma BucketStep(h: nat, s: nat, n: nat, x: nat, y: nat)
    requires IsPow2(n) && n <= TWO_TO_THE_32 && s > 0 && Bucket(h, s - 1, n) == x % n && y == x + s
    ensures Bucket(h, s, n) == y % n
  {
    NextIsMod(Bucket(h, s - 1, n), s, n);
    ModAdd(x, s, n);
  }

  lemma {:induction false} BucketIs(h: nat, s: nat, n: nat, x: nat)
    requires IsPow2(n) && n <= TWO_TO_THE_32 && x == h + Triangular(s)
    ensures Bucket(h, s, n) == x % n
  {
    if s == 0 {
      assert x == h;
    } else {
      var before := x - s;
      BucketIs(h, s - 1, n, before);
      BucketStep(h, s, n, before, x);
    }
  }

  lemma BucketClosedForm(h: nat, s: nat, n: nat)
    requires IsPow2(n) && n <= TWO_TO_THE_32
    ensures Bucket(h, s, n) == (h + Triangular(s)) % n
  {
    BucketIs(h, s, n, h + Triangular(s));
  }

  lemma DoubleDivides(d: int, n: nat)
    requires n > 0
    ensures d % n == 0 <==> (2 * d) % (2 * n) == 0
  {
    if d % n == 0 {
      assert 2 * d == (d / n) * (2 * n);
      MultipleMod(d / n, 2 * n);
    }
    if (2 * d) % (2 * n) == 0 {
      var q := (2 * d) / (2 * n);
      assert d == q * n;
      MultipleMod(q, n);
    }
  }

  lemma TriangularDifference(a: nat, b: nat)
    ensures 2 * (Triangular(b) - Triangular(a)) == (b - a) * (a + b + 1)
  {
    TriangularClosedForm(a);
    TriangularClosedForm(b);
    assert b * (b + 1) - a * (a + 1) == (b - a) * (a + b + 1);
  }

  /** Two probe steps meet exactly when 2n divides (b - a)(a + b + 1). */
  lemma BucketsMeet(h: nat, a: nat, b: nat, n: nat)
    requires IsPow2(n) && n <= TWO_TO_THE_32 && a <= b
    ensures Bucket(h, a, n) == Bucket(h, b, n) <==> ((b - a) * (a + b + 1)) % (2 * n) == 0
  {
    var x, y := h + Triangular(a), h + Triangular(b);
    var d, p := y - x, (b - a) * (a + b + 1);
    BucketIs(h, a, n, x);
    BucketIs(h, b, n, y);
    ModEqual(x, y, n);
    TriangularDifference(a, b);
    assert 2 * d == p;
    DoubleDivides(d, n);
  }

  lemma MeetDivides(h: nat, a: nat, b: nat, n: nat)
    requires IsPow2(n) && n <= TWO_TO_THE_32 && a < b
    ensures Bucket(h, a, n) == Bucket(h, b, n) ==> (b - a) % (2 * n) == 0 || (a + b + 1) % (2 * n) == 0
  {
    BucketsMeet(h, a, b, n);
    DoublePow2(n);
    OneFactorDrops(b - a, a + b + 1, b, 2 * n);
  }

  /** Of two factors with an odd sum one is odd, so a power of two divides the other. */
  lemma OneFactorDrops(x: nat, y: nat, b: nat, m: nat)
    requires IsPow2(m) && x + y == 2 * b + 1
    ensures (x * y) % m == 0 ==> x % m == 0 || y % m == 0
  {
    if (x * y) % m == 0 {
      if x % 2 == 1 {
        assert y * x == x * y;
        OddFactorDrops(y, x, m);
      } else {
        OddFactorDrops(x, y, m);
      }
    }
  }

  lemma SmallNotMultiple(x: nat, m: nat)
    requires 0 < x < m
    ensures x % m != 0
  {
    DivModUnique(x, 0, x, m);
  }

  /** The first n probe steps inspect n different buckets. */
  lemma ProbeDistinct(h: nat, a: nat, b: nat, n: nat)
    requires IsPow2(n) && n <= TWO_TO_THE_32 && a < b < n
    ensures Bucket(h, a, n) != Bucket(h, b, n)
  {
    MeetDivides(h, a, b, n);
    SmallNotMultiple(b - a, 2 * n);
    SmallNotMultiple(a + b + 1, 2 * n);
  }

  /** Within 2n - 1 steps the probe is back at its home bucket at the last step and not before:
      the `i == last` test fires after exactly 2n - 1 increments. */
  lemma ProbeReturnsHome(h: nat, s: nat, n: nat)
    requires IsPow2(n) && n <= TWO_TO_THE_32 && 0 < s < 2 * n
    ensures Bucket(h, s, n) == Bucket(h, 0, n) <==> s == 2 * n - 1
  {
    BucketsMeet(h, 0, s, n);
    if s == 2 * n - 1 {
      assert (s - 0) * (0 + s + 1) == s * (2 * n);
      MultipleMod(s, 2 * n);
    } else {
      MeetDivides(h, 0, s, n);
      SmallNotMultiple(s, 2 * n);
      SmallNotMultiple(s + 1, 2 * n);
    }
  }

  /** The buckets inspected by the first s steps. */
  function FirstBuckets(h: nat, s: nat, n: nat): set<nat>
    requires n > 0
  {
    if s == 0 then {} else FirstBuckets(h, s - 1, n) + {Bucket(h, s - 1, n)}
  }

  lemma {:induction false} FirstBucketStep(h: nat, s: nat, n: nat, i: nat) returns (t: nat)
    requires n > 0 && i in FirstBuckets(h, s, n)
    ensures t < s && Bucket(h, t, n) == i
  {
    if s == 0 {
    } else if i == Bucket(h, s - 1, n) {
      t := s - 1;
    } else {
      t := FirstBucketStep(h, s - 1, n, i);
    }
  }

  lemma {:induction false} FirstBucketsCount(h: nat, s: nat, n: nat)
    requires IsPow2(n) && s <= n <= TWO_TO_THE_32
    ensures |FirstBuckets(h, s, n)| == s && FirstBuckets(h, s, n) <= Below(n)
  {
    if s == 0 {
    } else {
      FirstBucketsCount(h, s - 1, n);
      if Bucket(h, s - 1, n) in FirstBuckets(h, s - 1, n) {
        var t := FirstBucketStep(h, s - 1, n, Bucket(h, s - 1, n));
        ProbeDistinct(h, t, s - 1, n);
        assert false;
      }
    }
  }

  predicate InRange(i: nat, n: nat) {
    i < n
  }

  ghost function Below(n: nat): set<nat> {
    set i: nat | i < n && InRange(i, n)
  }

  lemma {:induction false} BelowCount(n: nat)
    ensures |Below(n)| == n
  {
    if n == 0 {
    } else {
      BelowCount(n - 1);
      assert Below(n) == Below(n - 1) + {n - 1};
    }
  }

  lemma SubsetSameSize<T>(a: set<T>, b: set<T>)
    requires a <= b && |a| >= |b|
    ensures a == b
  {
    assert |b - a| == |b| - |a|;
    assert b == a + (b - a);
  }

  /** Every bucket is inspected by one of the first n probe steps. */
  lemma ProbeCovers(h: nat, n: nat, i: nat) returns (s: nat)
    requires IsPow2(n) && n <= TWO_TO_THE_32 && i < n
    ensures s < n && Bucket(h, s, n) == i
  {
    FirstBucketsCount(h, n, n);
    BelowCount(n);
    SubsetSameSize(FirstBuckets(h, n, n), Below(n));
    s := FirstBucketStep(h, n, n, i);
  }
}
