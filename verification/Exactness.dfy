/**
 * Exactly when scaling a place on an edge in float64 gives the exact quotient: a condition on the three
 * numbers of pixels, in integers.
 */
module Exactness {
  import opened Edges
  import opened Float64
  import opened Integers
  import opened Scaling

  /** How many binary places doubles around num / den have. */
  function PlacesOf(num: int, den: int, n: nat): nat {
    if n == 0 || UpInteger(num, n) < 0x20_0000_0000_0000 * den then n else PlacesOf(num, den, n - 1)
  }

  /** The integer nearest to a / b; of two equally near, the even one. */
  function RoundedQuotient(a: int, b: int): int
    requires b > 0
  {
    var q, r := a / b, a % b;
    if 2 * r < b || (2 * r == b && q % 2 == 0) then q else q + 1
  }

  /** The double nearest to p / b is `Units` units of as many binary places. */
  function FractionPlaces(p: nat, b: Extent): nat {
    PlacesOf(p, b, MOST_PLACES)
  }

  function Units(p: nat, b: Extent): int {
    RoundedQuotient(UpInteger(p, FractionPlaces(p, b)), b)
  }

  /** What that fraction lacks of p / b, in parts of a unit; negative if it is too large. */
  function Missing(p: nat, b: Extent): int {
    UpInteger(p, FractionPlaces(p, b)) - Units(p, b) * b
  }

  function ProductPlaces(p: nat, b: Extent, t: Extent): nat {
    PlacesOf(Units(p, b) * t, UpInteger(1, FractionPlaces(p, b)), MOST_PLACES)
  }

  /** t times what is missing is at most half a unit of the product, which rounding makes up for. */
  predicate MadeUp(p: nat, b: Extent, t: Extent) {
    UpInteger(t * Missing(p, b), ProductPlaces(p, b, t) + 1) <= UpInteger(b, FractionPlaces(p, b))
  }

  /** p of b pixels are a whole number of t pixels, and float64 finds it. */
  predicate Exact(p: nat, b: Extent, t: Extent) {
    p * t % b == 0 && MadeUp(p, b, t)
  }

  // ---------------------------------------------------------------- shifting

  lemma {:induction false} UpTimes(c: real, x: real, n: nat)
    ensures Up(c * x, n) == c * Up(x, n)
    decreases n
  {
    if n > 0 {
      UpTimes(c, x, n - 1);
      Commute(c, Up(x, n - 1));
    }
  }

  lemma Commute(c: real, y: real)
    ensures 2.0 * (c * y) == c * (2.0 * y)
  {
  }

  lemma {:induction false} UpIntegerTimes(a: int, m: int, n: nat)
    ensures UpInteger(a * m, n) == a * UpInteger(m, n)
    decreases n
  {
    if n > 0 {
      UpIntegerTimes(a, m, n - 1);
      CommuteIntegers(a, UpInteger(m, n - 1));
    }
  }

  lemma CommuteIntegers(a: int, y: int)
    ensures 2 * (a * y) == a * (2 * y)
  {
  }

  lemma {:induction false} UpIntegerSum(a: int, c: int, n: nat)
    ensures UpInteger(a + c, n) == UpInteger(a, n) + UpInteger(c, n)
    decreases n
  {
    if n > 0 {
      UpIntegerSum(a, c, n - 1);
    }
  }

  lemma {:induction false} UpIntegerTwice(m: int, k: nat, s: nat)
    ensures UpInteger(UpInteger(m, k), s) == UpInteger(UpInteger(m, s), k)
    decreases k
  {
    if k > 0 {
      UpIntegerTwice(m, k - 1, s);
      UpIntegerSum(UpInteger(m, k - 1), UpInteger(m, k - 1), s);
    }
  }

  lemma {:induction false} UpTwice(x: real, k: nat, s: nat)
    ensures Up(Up(x, k), s) == Up(Up(x, s), k)
  {
    UpInParts(x, k, s);
    UpInParts(x, s, k);
  }

  lemma {:induction false} UpSum(x: real, y: real, n: nat)
    ensures Up(x + y, n) == Up(x, n) + Up(y, n)
    decreases n
  {
    if n > 0 {
      UpSum(x, y, n - 1);
    }
  }

  lemma {:induction false} UpCompares(x: real, y: real, n: nat)
    ensures x <= y <==> Up(x, n) <= Up(y, n)
    decreases n
  {
    if n > 0 {
      UpCompares(x, y, n - 1);
    }
  }

  lemma {:induction false} UpPositive(m: int, n: nat)
    requires m > 0
    ensures UpInteger(m, n) > 0
    decreases n
  {
    if n > 0 {
      UpPositive(m, n - 1);
    }
  }

  // ---------------------------------------------------------------- reals as quotients of integers

  lemma ComparesAsInteger(u: real, den: real, c: real)
    requires den > 0.0
    ensures u < c <==> u * den < c * den
  {
    if u < c {
      Less(u, c, den);
    } else {
      Ordered(c, u, den);
    }
  }

  lemma UpOfQuotient(x: real, num: int, den: int, n: nat)
    requires den > 0 && x * den as real == num as real
    ensures Up(x, n) * den as real == UpInteger(num, n) as real
  {
    UpTimes(den as real, x, n);
    UpOfInteger(num, n);
    assert den as real * x == num as real;
  }

  lemma FewEnough(u: real, a: int, den: int)
    requires den > 0 && u * den as real == a as real
    ensures u < TWO53 <==> a < 0x20_0000_0000_0000 * den
  {
    ComparesAsInteger(u, den as real, TWO53);
    assert (0x20_0000_0000_0000 * den) as real == TWO53 * den as real;
  }

  lemma {:induction false} PlacesInIntegers(x: real, num: int, den: int, n: nat)
    requires den > 0 && x * den as real == num as real
    ensures Places(x, n) == PlacesOf(num, den, n)
    decreases n
  {
    if n > 0 {
      UpOfQuotient(x, num, den, n);
      FewEnough(Up(x, n), UpInteger(num, n), den);
      PlacesInIntegers(x, num, den, n - 1);
    }
  }

  lemma RemainderOfReal(a: int, b: int, q: real)
    requires b > 0 && q * b as real == a as real
    ensures (q - (a / b) as real) * b as real == (a % b) as real
  {
    ProductAsReal(a / b, b);
    assert a == a / b * b + a % b;
    assert (q - (a / b) as real) * b as real == q * b as real - (a / b) as real * b as real;
  }

  lemma PartOfOne(d: real, b: int, r: int)
    requires b > 0 && d * b as real == r as real && 0 <= r < b
    ensures 0.0 <= d < 1.0
  {
    AtMost(0.0, d, b as real);
    Below(d, 1.0, b as real);
  }

  lemma HalfOrNot(d: real, b: int, r: int)
    requires b > 0 && d * b as real == r as real
    ensures d < 0.5 <==> 2 * r < b
    ensures d > 0.5 <==> 2 * r > b
  {
    WholeOrNot(d + d, b as real, r as real + r as real);
  }

  lemma WholeOrNot(e: real, b: real, r: real)
    requires b > 0.0 && e * b == r
    ensures e < 1.0 <==> r < b
    ensures e > 1.0 <==> r > b
  {
    ComparesAsInteger(e, b, 1.0);
    ComparesAsInteger(1.0, b, e);
    assert 1.0 * b == b;
  }

  /** Rounding a quotient of integers is done in integers. */
  lemma RoundedDivision(a: int, b: int, q: real)
    requires b > 0 && q * b as real == a as real
    ensures RoundToEven(q) == RoundedQuotient(a, b)
  {
    var d := q - (a / b) as real;
    RemainderOfReal(a, b, q);
    PartOfOne(d, b, a % b);
    HalfOrNot(d, b, a % b);
    assert q.Floor == a / b;
  }

  // ---------------------------------------------------------------- reaching an integer

  lemma ReachesEven(w: real, m: int)
    requires m % 2 == 0
    ensures RoundToEven(w) >= m <==> w >= m as real - 0.5
  {
  }

  /** A double reaches an integer if it is at most half a unit below it. */
  lemma {:induction false} ReachesInteger(z: real, m: nat)
    requires 0.0 <= z && 2.0 * z < TWO53
    ensures var k := Places(z, MOST_PLACES);
            m as real <= Nearest(z) <==> UpInteger(m, k + 1) as real <= Up(z, k + 1) + 1.0
  {
    var k := Places(z, MOST_PLACES);
    PlacesAtLeast(z, 1, MOST_PLACES);
    var r := RoundToEven(Up(z, k));
    assert UpInteger(m, k) == 2 * UpInteger(m, k - 1);
    ReachesEven(Up(z, k), UpInteger(m, k));
    UpUndoesDown(r as real, k);
    UpOfInteger(m, k);
    UpCompares(m as real, Down(r as real, k), k);
  }

  // ---------------------------------------------------------------- the two roundings

  lemma {:induction false} NearestAt(x: real, n: nat)
    requires 0.0 <= x && n == Places(x, MOST_PLACES)
    ensures Up(Nearest(x), n) == RoundToEven(Up(x, n)) as real
  {
    UpUndoesDown(RoundToEven(Up(x, n)) as real, n);
  }

  lemma {:induction false} RoundedUnits(x: real, num: int, den: int, s: nat)
    requires den > 0 && x * den as real == num as real
    ensures RoundToEven(Up(x, s)) == RoundedQuotient(UpInteger(num, s), den)
  {
    UpOfQuotient(x, num, den, s);
    RoundedDivision(UpInteger(num, s), den, Up(x, s));
  }

  /** The double nearest to a quotient of integers, in its units. */
  lemma {:induction false} NearestInUnits(x: real, num: int, den: int, s: nat)
    requires 0.0 <= x && den > 0 && x * den as real == num as real && s == PlacesOf(num, den, MOST_PLACES)
    ensures Up(Nearest(x), s) == RoundedQuotient(UpInteger(num, s), den) as real
  {
    PlacesInIntegers(x, num, den, MOST_PLACES);
    RoundedUnits(x, num, den, s);
    NearestAt(x, s);
  }

  lemma FractionIsNearest(p: nat, b: Extent, x: real)
    requires 0 < p < b && x == p as real / b as real
    ensures x * b as real == p as real && 0.0 < x < 1.0 && Quotient(p, b) == Nearest(x)
  {
    QuotientTimes(p as real, b as real);
    QuotientInUnit(p as real, b as real, x);
    ClampedNumber(x);
  }

  /** The fraction made of p and b. */
  lemma {:induction false} FractionInUnits(p: nat, b: Extent)
    requires 0 < p < b
    ensures Up(Quotient(p, b), FractionPlaces(p, b)) == Units(p, b) as real
  {
    var x := p as real / b as real;
    FractionIsNearest(p, b, x);
    NearestInUnits(x, p, b, FractionPlaces(p, b));
  }

  lemma {:induction false} ProductInUnits(f: real, t: Extent, z: real, s: nat, u: int)
    requires z == f * t as real && Up(f, s) == u as real
    ensures Up(z, s) == (u * t) as real && z * UpInteger(1, s) as real == (u * t) as real && UpInteger(1, s) > 0
  {
    UpTimes(t as real, f, s);
    ProductAsReal(u, t);
    assert t as real * f == z;
    UpTimes(z, 1.0, s);
    UpOfInteger(1, s);
    UpPositive(1, s);
    assert z * 1.0 == z;
  }

  /** Shifted to integers, and multiplied by b: what is left to compare is what was missing. */
  lemma {:induction false} MissingDecides(p: int, b: int, t: int, q: int, u: int, s: nat, k: nat)
    requires b > 0 && q * b == p * t
    ensures UpInteger(UpInteger(q, s), k) <= UpInteger(u * t, k) + UpInteger(1, s) <==>
            UpInteger(t * (UpInteger(p, s) - u * b), k) <= UpInteger(b, s)
  {
    var m := UpInteger(p, s);
    UpIntegerTimes(b, UpInteger(q, s), k);
    UpIntegerTimes(b, q, s);
    UpIntegerTimes(t, p, s);
    UpIntegerTimes(b, u * t, k);
    UpIntegerTimes(b, 1, s);
    assert b * q == t * p;
    assert b * UpInteger(q, s) == t * m;
    UpIntegerSum(t * (m - u * b), b * (u * t), k);
    SplitProduct(t, m, u, b);
    TimesPositive(UpInteger(UpInteger(q, s), k), UpInteger(u * t, k), UpInteger(1, s), b);
  }

  lemma SplitProduct(t: int, m: int, u: int, b: int)
    ensures t * (m - u * b) + b * (u * t) == t * m
  {
  }

  lemma TimesPositive(x: int, y: int, z: int, b: int)
    requires b > 0
    ensures x <= y + z <==> b * x <= b * y + b * z
  {
    assert b * (y + z) == b * y + b * z;
    if x <= y + z {
      ProductsOrdered(x, y + z, b);
    } else {
      assert (x - y - z) * b > 0;
    }
  }

  lemma {:induction false} UnitsReach(f: Fraction, t: Extent, s: nat, u: int, q: nat, z: real)
    requires z == f * t as real && Up(f, s) == u as real
    ensures 0.0 <= z
    ensures var k := PlacesOf(u * t, UpInteger(1, s), MOST_PLACES) + 1;
            q as real <= Nearest(z) <==> UpInteger(UpInteger(q, s), k) <= UpInteger(u * t, k) + UpInteger(1, s)
  {
    PartOf(f, t as real);
    ProductInUnits(f, t, z, s, u);
    PlacesInIntegers(z, u * t, UpInteger(1, s), MOST_PLACES);
    ReachesInteger(z, q);
    ReachInIntegers(z, s, u * t, PlacesOf(u * t, UpInteger(1, s), MOST_PLACES) + 1, q);
  }

  /** The product of the fraction by t reaches the whole number q exactly if the condition holds. */
  lemma {:induction false} ProductReaches(p: nat, b: Extent, t: Extent, q: nat, f: Fraction, z: real)
    requires q * b == p * t && z == f * t as real && Up(f, FractionPlaces(p, b)) == Units(p, b) as real
    ensures 0.0 <= z && (q as real <= Nearest(z) <==> MadeUp(p, b, t))
  {
    UnitsReach(f, t, FractionPlaces(p, b), Units(p, b), q, z);
    MissingDecides(p, b, t, q, Units(p, b), FractionPlaces(p, b), ProductPlaces(p, b, t) + 1);
  }

  lemma {:induction false} ReachInIntegers(z: real, s: nat, a: int, k: nat, q: int)
    requires Up(z, s) == a as real
    ensures UpInteger(q, k) as real <= Up(z, k) + 1.0 <==>
            UpInteger(UpInteger(q, s), k) <= UpInteger(a, k) + UpInteger(1, s)
  {
    UpCompares(UpInteger(q, k) as real, Up(z, k) + 1.0, s);
    UpSum(Up(z, k), 1.0, s);
    UpTwice(z, k, s);
    UpOfInteger(a, k);
    UpOfInteger(1, s);
    UpOfInteger(UpInteger(q, k), s);
    UpIntegerTwice(q, k, s);
  }

  // ---------------------------------------------------------------- the condition

  lemma NotAbove(v: nat, b: Extent, t: Extent, k: nat, q: nat, d: nat)
    requires Approximates(v, b, k, d) && v == q * b && q < d
    ensures k <= q
  {
    assert k * b * d == k * d * b && v * d + v == (q * d + q) * b;
    NotMoreCancels(k * d, q * d + q, b);
    assert (q + 1) * d == q * d + d;
    LessCancels(k, q + 1, d);
  }

  lemma FloorReaches(y: real, k: int, q: int)
    requires k == y.Floor && k <= q
    ensures k == q <==> q as real <= y
  {
  }

  lemma ScaleIsFloor(f: Fraction, t: Extent, z: real)
    requires z == f * t as real && 0.0 <= z
    ensures Scale(f, t) == Nearest(z).Floor
  {
  }

  lemma {:induction false} WholeIsReached(p: nat, b: Extent, t: Extent, q: nat, f: Fraction)
    requires 0 < p < b && q * b == p * t && f == Quotient(p, b)
    ensures Scaled(p, b, t) == q <==> MadeUp(p, b, t)
  {
    var z := f * t as real;
    FractionInUnits(p, b);
    ProductReaches(p, b, t, q, f, z);
    ScaleIsFloor(f, t, z);
    AtMostWhole(p, b, t, q);
    FloorReaches(Nearest(z), Scaled(p, b, t), q);
  }

  lemma AtMostWhole(p: nat, b: Extent, t: Extent, q: nat)
    requires p < b && q * b == p * t
    ensures Scaled(p, b, t) <= q
  {
    ScaledBounds(p, b, t);
    QuotientBelow(p, b, t, q);
    NotAbove(p * t, b, t, Scaled(p, b, t), q, PRECISION);
  }

  lemma QuotientBelow(p: nat, b: Extent, t: Extent, q: nat)
    requires p < b && q * b == p * t
    ensures q < t
  {
    ProductBelow(p, b, t);
    assert b * t == t * b;
    LessCancels(q, t, b);
  }

  lemma WholeQuotient(v: nat, b: Extent)
    ensures v % b == 0 <==> v / b * b == v
  {
    var q, r := Divide(v, b);
  }

  lemma MultipleIsWhole(v: nat, b: Extent, k: nat)
    requires k * b == v
    ensures v % b == 0 && k == v / b
  {
    Quotients(v, b, k);
  }

  lemma {:induction false} UpOfZero(n: nat)
    ensures UpInteger(0, n) == 0
  {
    if n > 0 {
      UpOfZero(n - 1);
    }
  }

  lemma {:induction false} NothingMissing(b: Extent)
    ensures Missing(0, b) == 0
  {
    UpOfZero(FractionPlaces(0, b));
  }

  lemma {:induction false} ZeroIsMadeUp(b: Extent, t: Extent)
    ensures MadeUp(0, b, t)
  {
    NothingMissing(b);
    UpOfZero(ProductPlaces(0, b, t) + 1);
    UpPositive(b, FractionPlaces(0, b));
  }

  /** A place is scaled to an exact whole number of pixels if and only if the condition holds, for all sizes. */
  lemma {:induction false} ScaledExactly(p: nat, b: Extent, t: Extent)
    requires p < b
    ensures Scaled(p, b, t) * b == p * t <==> Exact(p, b, t)
  {
    if Scaled(p, b, t) * b == p * t {
      MultipleIsWhole(p * t, b, Scaled(p, b, t));
    }
    if p * t % b == 0 {
      WholeIsScaled(p, b, t, p * t / b);
    }
  }

  lemma {:induction false} WholeIsScaled(p: nat, b: Extent, t: Extent, q: nat)
    requires p < b && p * t % b == 0 && q == p * t / b
    ensures Scaled(p, b, t) * b == p * t <==> MadeUp(p, b, t)
  {
    WholeQuotient(p * t, b);
    if p == 0 {
      ScaledZero(b, t);
      ZeroIsMadeUp(b, t);
    } else {
      WholeIsReached(p, b, t, q, Quotient(p, b));
      SameMultiple(Scaled(p, b, t), q, b);
    }
  }

  lemma SameMultiple(k: int, q: int, b: Extent)
    ensures k * b == q * b <==> k == q
  {
    if k * b == q * b {
      NotMoreCancels(k, q, b);
      NotMoreCancels(q, k, b);
    }
  }

  /** What float64 makes of scaling, on edges whose lengths multiply to at most 2^51: an integer formula. */
  lemma {:induction false} ScaledIs(p: nat, b: Extent, t: Extent)
    requires p < b && b * t <= PRECISION
    ensures Scaled(p, b, t) == p * t / b - if p * t % b == 0 && !MadeUp(p, b, t) then 1 else 0
  {
    ScaledIsOneOfTwo(p, b, t);
    OneOfTwoIs(p * t, b, Scaled(p, b, t));
    ScaledExactly(p, b, t);
    WholeQuotient(p * t, b);
  }
}
