/** Fractions of an edge and their conversion to pixels in float64: the arithmetic of cmd/controller/edge_math.go. */
module Scaling {
  import opened Edges
  import opened Float64
  import opened Integers

  function Clamp01(v: real): real {
    if v < 0.0 then 0.0 else if v > 1.0 then 1.0 else v
  }

  /** clamp01(float64(d) / float64(n)): only d >= n gives 1. */
  function Quotient(d: int32, n: Extent): (f: Fraction)
    ensures f == 1.0 <==> d >= n
    ensures d <= 0 ==> f == 0.0
  {
    QuotientIsFraction(d, n);
    Clamp01(Round(d as real / n as real))
  }

  /** int32(f * float64(n)): truncation, here of a non-negative; only the fraction 1 gives n. */
  function Scale(f: Fraction, n: Extent): (k: int32)
    ensures 0 <= k <= n
    ensures k == n <==> f == 1.0
  {
    var x := f * n as real;
    ScaleInRange(f, n, x);
    Round(x).Floor
  }

  // ---------------------------------------------------------------- products of reals

  lemma Ordered(a: real, b: real, c: real)
    requires c >= 0.0 && a <= b
    ensures a * c <= b * c
  {
    assert (b - a) * c >= 0.0;
  }

  lemma Less(a: real, b: real, c: real)
    requires c > 0.0 && a < b
    ensures a * c < b * c
  {
    assert (b - a) * c > 0.0;
  }

  lemma AtMost(a: real, b: real, c: real)
    requires c > 0.0 && a * c <= b * c
    ensures a <= b
  {
    if a > b {
      Less(b, a, c);
    }
  }

  lemma Below(a: real, b: real, c: real)
    requires c > 0.0 && a * c < b * c
    ensures a < b
  {
    if a >= b {
      Ordered(b, a, c);
    }
  }

  lemma ProductAsReal(m: int, n: int)
    ensures (m * n) as real == m as real * n as real
  {
  }

  lemma QuotientTimes(p: real, q: real)
    requires q > 0.0
    ensures p / q * q == p
  {
  }

  /** y is x up to one part in t. */
  predicate Near(t: real, x: real, y: real) {
    t * x - x <= t * y <= t * x + x
  }

  /** A relative error stays in proportion. */
  lemma NearTimes(t: real, x: real, y: real, c: real)
    requires c > 0.0 && Near(t, x, y)
    ensures Near(t, x * c, y * c)
  {
    Ordered(t * y, t * x + x, c);
    Ordered(t * x - x, t * y, c);
    assert t * y * c == t * (y * c) && t * x * c == t * (x * c);
    assert (t * x + x) * c == t * x * c + x * c;
    assert (t * x - x) * c == t * x * c - x * c;
  }

  // ---------------------------------------------------------------- ranges

  lemma QuotientInUnit(p: real, q: real, x: real)
    requires 1.0 <= p <= q - 1.0 && x * q == p
    ensures 0.0 < x < 1.0
  {
    Below(0.0, x, q);
    Below(x, 1.0, q);
  }

  lemma QuotientNotMinute(p: real, q: real, x: real, m: real)
    requires 1.0 <= p && 0.0 < q <= m && 0.0 <= x && x * q == p
    ensures 1.0 <= m * x
  {
    Ordered(q, m, x);
    assert p == q * x;
  }

  lemma BelowOne(t: real, p: real, q: real, x: real, y: real)
    requires 1.0 <= p <= q - 1.0 && q + q <= t && x * q == p && Near(t, x, y)
    ensures t * y <= t - 1.0
  {
    NearTimes(t, x, y, q);
    ShortOf(t, p, q, t * (y * q));
    assert t * y * q == t * (y * q);
    assert (t - 1.0) * q == t * q - q;
    AtMost(t * y, t - 1.0, q);
  }

  lemma ShortOf(t: real, p: real, q: real, a: real)
    requires 1.0 <= p <= q - 1.0 && q + q <= t && a <= t * p + p
    ensures a <= t * q - q
  {
    Ordered(p, q - 1.0, t + 1.0);
    assert p * (t + 1.0) == t * p + p;
    assert (q - 1.0) * (t + 1.0) == t * q - t + q - 1.0;
  }

  lemma NoneOrLess(p: real, q: real, x: real)
    requires q > 0.0 && x * q == p && p <= 0.0
    ensures x <= 0.0
  {
    AtMost(x, 0.0, q);
  }

  lemma WholeOrMore(p: real, q: real, x: real)
    requires q > 0.0 && x * q == p && p >= q
    ensures x >= 1.0
  {
    AtMost(1.0, x, q);
  }

  lemma QuotientBounded(p: real, q: real, x: real, m: real)
    requires q >= 1.0 && x * q == p && -m <= p <= m && m > 0.0
    ensures -m <= x <= m
  {
    Ordered(1.0, q, m);
    assert (-m) * q == -(q * m);
    AtMost(x, m, q);
    AtMost(-m, x, q);
  }

  const TWO31 := 2147483648.0

  /** What clamping leaves of a rounded number. */
  lemma ClampedNumber(x: real)
    requires -TWO31 <= x <= TWO31
    ensures x <= 0.0 ==> Clamp01(Round(x)) == 0.0
    ensures x >= 1.0 ==> Clamp01(Round(x)) == 1.0
    ensures 0.0 <= x <= 1.0 ==> Clamp01(Round(x)) == Nearest(x)
  {
    RoundKeepsSide(if x < 0.0 then -x else x, 0);
    if 0.0 <= x {
      RoundKeepsSide(x, 1);
    }
  }

  lemma ProperFraction(p: real, q: real, x: real)
    requires 1.0 <= p <= q - 1.0 && q <= TWO31 && x * q == p
    ensures 0.0 < x < 1.0 && 1.0 <= TWO31 * x
    ensures TWO53 * Clamp01(Round(x)) <= TWO53 - 1.0 && Near(TWO53, x, Clamp01(Round(x)))
  {
    QuotientInUnit(p, q, x);
    QuotientNotMinute(p, q, x, TWO31);
    ErrorAbove(x);
    BelowOne(TWO53, p, q, x, Nearest(x));
    ClampedNumber(x);
  }

  lemma QuotientIsFraction(d: int32, n: Extent)
    ensures var f := Clamp01(Round(d as real / n as real));
            && 0.0 <= f <= 1.0
            && (if d >= n then f == 1.0 else TWO53 * f <= TWO53 - 1.0)
            && (d <= 0 ==> f == 0.0)
  {
    var p, q := d as real, n as real;
    QuotientTimes(p, q);
    if 0 < d < n {
      ProperFraction(p, q, p / q);
    } else {
      QuotientBounded(p, q, p / q, TWO31);
      if d <= 0 {
        NoneOrLess(p, q, p / q);
      } else {
        WholeOrMore(p, q, p / q);
      }
      ClampedNumber(p / q);
    }
  }

  lemma BelowWhole(t: real, f: real, m: real)
    requires t * f <= t - 1.0 && 1.0 <= m
    ensures t * (f * m) <= t * m - m
  {
    Ordered(t * f, t - 1.0, m);
    assert t * f * m == t * (f * m);
  }

  lemma PartOf(f: real, m: real)
    requires 0.0 <= f <= 1.0 && 0.0 <= m
    ensures 0.0 <= f * m <= m
  {
    Ordered(0.0, f, m);
    Ordered(f, 1.0, m);
  }

  lemma RoundsBelow(x: real, m: real)
    requires 0.0 <= x && TWO53 * x <= TWO53 * m - m && 1.0 <= m <= TWO31
    ensures Nearest(x) < m
  {
    if 1.0 <= Up(x, 64) {
      RelativeError(x);
    } else {
      MinuteRoundsBelowOne(x);
    }
  }

  lemma TruncatedInRange(x: real, n: Extent)
    requires 0.0 <= x <= n as real
    ensures 0 <= Round(x).Floor <= n
    ensures x == n as real ==> Round(x).Floor == n
    ensures TWO53 * x <= TWO53 * n as real - n as real ==> Round(x).Floor < n
  {
    RoundKeepsSide(x, 0);
    RoundKeepsSide(x, n);
    if TWO53 * x <= TWO53 * n as real - n as real {
      RoundsBelow(x, n as real);
    }
  }

  lemma ProductInRange(f: real, m: real)
    requires 0.0 <= f <= 1.0 && (f == 1.0 || TWO53 * f <= TWO53 - 1.0) && 1.0 <= m
    ensures f == 1.0 ==> f * m == m
    ensures f < 1.0 ==> TWO53 * (f * m) <= TWO53 * m - m
  {
    if f < 1.0 {
      BelowWhole(TWO53, f, m);
    }
  }

  lemma ProductTruncated(f: Fraction, n: Extent, x: real)
    requires 0.0 <= x <= n as real && (f == 1.0 ==> x == n as real)
    requires f < 1.0 ==> TWO53 * x <= TWO53 * n as real - n as real
    ensures 0 <= Round(x).Floor <= n && (Round(x).Floor == n <==> f == 1.0)
  {
    TruncatedInRange(x, n);
  }

  lemma ScaleInRange(f: Fraction, n: Extent, x: real)
    requires x == f * n as real
    ensures 0 <= Round(x).Floor <= n && (Round(x).Floor == n <==> f == 1.0)
  {
    PartOf(f, n as real);
    ProductInRange(f, n as real);
    ProductTruncated(f, n, x);
  }

  // ---------------------------------------------------------------- rounding to pixels

  /** A quarter of 2^53: two roundings lose less than one part in it. */
  const PRECISION := 2251799813685248

  /** How a position p on b pixels, made a fraction, becomes k of t pixels. */
  function Scaled(p: int32, b: Extent, t: Extent): (k: int32)
    ensures 0 <= k <= t
  {
    Scale(Quotient(p, b), t)
  }

  lemma Compounded(v: real, z: real, y: real)
    requires v > 0.0 && Near(TWO53, v, z) && Near(TWO53, z, y)
    ensures Near(PRECISION as real, v, y) && PRECISION as real * v - v < PRECISION as real * y
  {
  }

  lemma Swap(f: real, t: real, b: real)
    ensures f * b * t == f * t * b
  {
  }

  /** The two roundings, of the fraction f and of the product y, on a common denominator. */
  lemma TwoRoundings(n: real, p: real, b: real, t: real, x: real, f: real, y: real)
    requires p > 0.0 && b > 0.0 && t > 0.0 && x * b == p && Near(n, x, f) && Near(n, f * t, y)
    ensures p * t > 0.0 && Near(n, p * t, f * t * b) && Near(n, f * t * b, y * b)
  {
    NearTimes(n, x, f, b);
    NearTimes(n, p, f * b, t);
    Swap(f, t, b);
    NearTimes(n, f * t, y, b);
    Less(0.0, p, t);
  }

  lemma NotMinute(f: real, m: real, l: real)
    requires 0.0 <= f && 1.0 <= m && 0.0 <= l && 1.0 <= l * f
    ensures 1.0 <= l * (f * m)
  {
    Ordered(1.0, m, f);
    Ordered(f, f * m, l);
    assert f * l == l * f && f * m * l == l * (f * m) && m * f == f * m;
  }

  lemma ErrorOfProduct(f: Fraction, t: Extent, z: real)
    requires 1.0 <= 4294967296.0 * f && z == f * t as real
    ensures Near(TWO53, z, Round(z))
  {
    PartOf(f, t as real);
    NotMinute(f, t as real, 4294967296.0);
    ErrorAbove(z);
  }

  lemma InIntegers(lo: int, hi: int, v: int, w: real)
    requires lo as real <= w < hi as real
    requires Near(PRECISION as real, v as real, w) && PRECISION as real * v as real - v as real < PRECISION as real * w
    ensures lo * PRECISION <= v * PRECISION + v
    ensures v * PRECISION - v < hi * PRECISION
  {
  }

  lemma InPixels(y: real, b: Extent, v: nat, k: int, w: real)
    requires k == y.Floor && w == y * b as real
    requires Near(PRECISION as real, v as real, w) && PRECISION as real * v as real - v as real < PRECISION as real * w
    ensures Approximates(v, b, k, PRECISION)
  {
    FloorsInIntegers(y, b, k);
    InIntegers(k * b, (k + 1) * b, v, w);
  }

  lemma FloorsInIntegers(y: real, b: Extent, k: int)
    requires k == y.Floor
    ensures (k * b) as real <= y * b as real < ((k + 1) * b) as real
  {
    Ordered(k as real, y, b as real);
    ProductAsReal(k, b);
    CeilingInIntegers(y, b, k + 1);
  }

  lemma CeilingInIntegers(y: real, b: Extent, k: int)
    requires k == y.Floor + 1
    ensures y * b as real < (k * b) as real
  {
    Less(y, k as real, b as real);
    ProductAsReal(k, b);
  }

  /** k is the quotient of v by b, up to less than 1 and one part in d of v. */
  predicate Approximates(v: nat, b: Extent, k: int, d: nat) {
    && k * b * d <= v * d + v
    && v * d - v < (k + 1) * b * d
  }

  lemma ScaledZero(b: Extent, t: Extent)
    ensures Scaled(0, b, t) == 0
  {
    RoundKeepsSide(0.0, 0);
  }

  /** What float64 makes of scaling, in integers. */
  lemma ScaledBounds(p: nat, b: Extent, t: Extent)
    requires p < b
    ensures Approximates(p * t, b, Scaled(p, b, t), PRECISION)
  {
    if p == 0 {
      ScaledZero(b, t);
    } else {
      ProperBounds(p, b, t, Quotient(p, b), Quotient(p, b) * t as real);
    }
  }

  lemma ErrorInReals(p: real, b: real, t: real, x: real, f: real, y: real, v: real)
    requires p > 0.0 && b > 0.0 && t > 0.0 && x * b == p && Near(TWO53, x, f) && Near(TWO53, f * t, y) && v == p * t
    ensures Near(PRECISION as real, v, y * b) && PRECISION as real * v - v < PRECISION as real * (y * b)
  {
    TwoRoundings(TWO53, p, b, t, x, f, y);
    Compounded(v, f * t * b, y * b);
  }

  lemma ErrorOfFraction(p: nat, b: Extent)
    requires 0 < p < b
    ensures p as real / b as real * b as real == p as real
    ensures Near(TWO53, p as real / b as real, Quotient(p, b))
  {
    QuotientTimes(p as real, b as real);
    ProperFraction(p as real, b as real, p as real / b as real);
  }

  lemma FractionNotMinute(p: nat, b: Extent)
    requires 0 < p < b
    ensures 1.0 <= 4294967296.0 * Quotient(p, b)
  {
    QuotientTimes(p as real, b as real);
    ProperFraction(p as real, b as real, p as real / b as real);
  }

  predicate Close(v: real, w: real) {
    Near(PRECISION as real, v, w) && PRECISION as real * v - v < PRECISION as real * w
  }

  lemma CloseInPixels(y: real, b: Extent, v: nat, w: real)
    requires w == y * b as real && Close(v as real, w)
    ensures Approximates(v, b, y.Floor, PRECISION)
  {
    InPixels(y, b, v, y.Floor, w);
  }

  lemma RoundedIsClose(p: nat, b: Extent, t: Extent, x: real, f: real, y: real, v: nat)
    requires 0 < p && x * b as real == p as real && Near(TWO53, x, f) && Near(TWO53, f * t as real, y) && v == p * t
    ensures Close(v as real, y * b as real)
  {
    ProductAsReal(p, t);
    ErrorInReals(p as real, b as real, t as real, x, f, y, v as real);
  }

  lemma RoundedBounds(p: nat, b: Extent, t: Extent, x: real, f: real, y: real, v: nat)
    requires 0 < p && x * b as real == p as real && Near(TWO53, x, f) && Near(TWO53, f * t as real, y) && v == p * t
    ensures Approximates(v, b, y.Floor, PRECISION)
  {
    RoundedIsClose(p, b, t, x, f, y, v);
    CloseInPixels(y, b, v, y * b as real);
  }

  lemma ProperBounds(p: nat, b: Extent, t: Extent, f: Fraction, z: real)
    requires 0 < p < b && f == Quotient(p, b) && z == f * t as real
    ensures Approximates(p * t, b, Round(z).Floor, PRECISION)
  {
    FractionNotMinute(p, b);
    ErrorOfProduct(f, t, z);
    ErrorOfFraction(p, b);
    RoundedBounds(p, b, t, p as real / b as real, f, Round(z), p * t);
  }

  /** Scaling is the integer quotient v / b, or one less when b divides v. */
  predicate OneOfTwo(v: nat, b: Extent, k: nat) {
    k * b <= v <= (k + 1) * b
  }

  lemma OneOfTwoIs(v: nat, b: Extent, k: nat)
    requires OneOfTwo(v, b, k)
    ensures k == v / b || (k + 1 == v / b && v % b == 0)
  {
    if v < (k + 1) * b {
      Quotients(v, b, k);
    } else {
      Quotients(v, b, k + 1);
    }
  }

  lemma Quotients(v: nat, b: Extent, k: nat)
    requires k * b <= v < (k + 1) * b
    ensures v / b == k && v % b == v - k * b
  {
    var q, r := Divide(v, b);
    LessCancels(k, q + 1, b);
    LessCancels(q, k + 1, b);
  }

  lemma Divide(n: nat, d: Extent) returns (q: nat, r: nat)
    ensures q == n / d && r == n % d
    ensures n == q * d + r && r < d && n < (q + 1) * d
  {
    q, r := n / d, n % d;
  }

  lemma LessCancels(a: int, c: int, t: int)
    requires t > 0 && a * t < c * t
    ensures a < c
  {
    assert a >= c ==> (a - c) * t >= 0;
  }

  lemma NotMoreCancels(a: int, c: int, t: int)
    requires t > 0 && a * t <= c * t
    ensures a <= c
  {
    assert a > c ==> (a - c) * t > 0;
  }

  lemma ProductsOrdered(a: int, c: int, t: int)
    requires t >= 0 && a <= c
    ensures a * t <= c * t
  {
    assert (c - a) * t >= 0;
  }

  lemma PreciseBelow(v: nat, d: nat, lo: int, hi: int)
    requires v < d && lo * d <= v * d + v && v * d - v < hi * d
    ensures lo <= v <= hi
  {
    assert (v + 1) * d == v * d + d && (v - 1) * d == v * d - d;
    LessCancels(lo, v + 1, d);
    LessCancels(v - 1, hi, d);
  }

  lemma ProductBelow(p: nat, b: Extent, t: Extent)
    requires p < b
    ensures p * t < b * t
  {
    assert (b - p) * t > 0;
  }

  lemma PreciseIsOneOfTwo(v: nat, b: Extent, k: nat, d: nat)
    requires v < d && Approximates(v, b, k, d)
    ensures OneOfTwo(v, b, k)
  {
    PreciseBelow(v, d, k * b, (k + 1) * b);
  }

  /** On edges whose lengths multiply to at most 2^51, float64 finds the quotient, or just misses a whole one. */
  lemma ScaledIsOneOfTwo(p: nat, b: Extent, t: Extent)
    requires p < b && b * t <= PRECISION
    ensures OneOfTwo(p * t, b, Scaled(p, b, t))
  {
    ScaledBounds(p, b, t);
    ProductBelow(p, b, t);
    PreciseIsOneOfTwo(p * t, b, Scaled(p, b, t), PRECISION);
  }
}
