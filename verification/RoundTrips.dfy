/** A place on one screen's edge scaled to the other screen and back. */
module RoundTrips {
  import opened Edges
  import opened Exactness
  import opened Float64
  import opened Integers
  import opened Scaling

  // ---------------------------------------------------------------- there and back

  lemma LittleAbove(v: nat, t: Extent, kb: int, d: nat)
    requires d > 0 && 4 * v <= t * d && kb * d <= v * d + v
    ensures 4 * kb <= 4 * v + t
  {
    assert 4 * kb * d == 4 * (kb * d);
    assert (4 * v + t) * d == 4 * (v * d) + t * d;
    NotMoreCancels(4 * kb, 4 * v + t, d);
  }

  lemma SmallPart(p: nat, t: Extent, d: nat)
    requires 4 * p <= d
    ensures 4 * (p * t) <= t * d
  {
    ProductsOrdered(4 * p, d, t);
    assert 4 * p * t == 4 * (p * t) && d * t == t * d;
  }

  lemma AtLeast(t: Extent, d: nat)
    requires d > 0
    ensures t * d >= t
  {
    assert t * (d - 1) >= 0;
  }

  lemma NoneGained(v: nat, t: Extent, bt: int, kb: int, d: nat)
    requires d > 0 && 4 * v <= t * d && kb * d <= v * d + v && bt * d <= kb * d + kb
    ensures bt < v + t
  {
    LittleAbove(v, t, kb, d);
    AtLeast(t, d);
    assert (v + t) * d == v * d + t * d;
    LessCancels(bt, v + t, d);
  }

  /** The same on the products with d: vd is v * d, and so on. */
  lemma LittleLost(v: int, vd: int, kb: int, kd: int, bd: int, t: int, td: int, btd: int)
    requires 4 * v <= td && bd <= td && 0 < t <= td && 4 * kb <= 4 * v + t && vd - v < kd + bd && kd - kb < btd + td
    ensures vd < btd + 3 * td
  {
  }

  lemma AtMostTwoLost(v: nat, b: Extent, t: Extent, bt: int, kb: int, d: nat)
    requires d > 0 && 4 * v <= t * d && b <= t && kb * d <= v * d + v
    requires v * d - v < kb * d + b * d && kb * d - kb < bt * d + t * d
    ensures v < bt + 3 * t
  {
    LittleAbove(v, t, kb, d);
    AtLeast(t, d);
    ProductsOrdered(b, t, d);
    LittleLost(v, v * d, kb, kb * d, b * d, t, t * d, bt * d);
    assert (bt + 3 * t) * d == bt * d + 3 * (t * d);
    LessCancels(v, bt + 3 * t, d);
  }

  lemma LostPixels(p: nat, b: Extent, t: Extent, k: nat, back: nat)
    requires OneOfTwo(p * t, b, k) && OneOfTwo(k * b, t, back)
    ensures (p - back) * t <= b + t
    ensures t > b ==> p - back <= 1
    ensures p == back <==> k * b == p * t && back * t == k * b
  {
    var lost := p - back;
    assert lost * t == p * t - back * t;
    if t > b {
      LessCancels(lost, 2, t);
    }
    if k * b == p * t && back * t == k * b {
      LessCancels(p, back + 1, t);
      LessCancels(back, p + 1, t);
    }
  }

  lemma NeverGained(p: nat, b: Extent, t: Extent, k: nat, back: nat, d: nat)
    requires d > 0 && 4 * p <= d && Approximates(p * t, b, k, d) && Approximates(k * b, t, back, d)
    ensures back <= p
  {
    SmallPart(p, t, d);
    NoneGained(p * t, t, back * t, k * b, d);
    assert (p + 1) * t == p * t + t;
    LessCancels(back, p + 1, t);
  }

  lemma SeldomLost(p: nat, b: Extent, t: Extent, k: nat, back: nat, d: nat)
    requires d > 0 && 4 * p <= d && b <= t && Approximates(p * t, b, k, d) && Approximates(k * b, t, back, d)
    ensures p - back <= 2
  {
    SmallPart(p, t, d);
    Distribute(k, b, d);
    Distribute(back, t, d);
    AtMostTwoLost(p * t, b, t, back * t, k * b, d);
    assert (back + 3) * t == back * t + 3 * t;
    LessCancels(p, back + 3, t);
  }

  lemma Distribute(k: int, b: int, d: int)
    ensures (k + 1) * b * d == k * b * d + b * d
  {
  }

  /** Every pixel is kept: a condition on p, b and t in integers. */
  predicate Returns(p: nat, b: Extent, t: Extent) {
    Exact(p, b, t) && Exact(p * t / b, t, b)
  }

  /** What is kept of position p on b pixels that becomes k of t pixels, and that `back` again. */
  predicate RoundTrip(p: nat, b: Extent, t: Extent, k: int, back: int) {
    var lost := p - back;
    && 0 <= k < t && 0 <= back && 0 <= lost && (t >= b ==> lost <= 2)
    && (b * t <= PRECISION ==>
          && lost * t <= b + t && (t > b ==> lost <= 1)
          && (lost == 0 <==> Returns(p, b, t)))
  }

  lemma RoundTripOf(p: nat, b: Extent, t: Extent, k: nat, back: nat)
    requires p < b && k < t && Approximates(p * t, b, k, PRECISION) && Approximates(k * b, t, back, PRECISION)
    requires b * t <= PRECISION ==> OneOfTwo(p * t, b, k) && OneOfTwo(k * b, t, back)
    requires Returns(p, b, t) <==> k * b == p * t && back * t == k * b
    ensures RoundTrip(p, b, t, k, back)
  {
    NeverGained(p, b, t, k, back, PRECISION);
    if t >= b {
      SeldomLost(p, b, t, k, back, PRECISION);
    }
    if b * t <= PRECISION {
      LostPixels(p, b, t, k, back);
    }
  }

  lemma Swapped(b: Extent, t: Extent)
    ensures t * b == b * t
  {
  }

  /** The place in pixels is whole and found, and so is the way back from it. */
  lemma BothFound(p: nat, b: Extent, t: Extent, k: nat, back: nat)
    requires Exact(p, b, t) <==> k * b == p * t
    requires Exact(k, t, b) <==> back * t == k * b
    ensures Returns(p, b, t) <==> k * b == p * t && back * t == k * b
  {
    if k * b == p * t {
      MultipleIsWhole(p * t, b, k);
    }
  }

  /** Both scalings are exact exactly if the condition holds of the first and of its result. */
  lemma {:induction false} BothExact(p: nat, b: Extent, t: Extent, k: nat, back: nat)
    requires p < b && k < t && k == Scaled(p, b, t) && back == Scaled(k, t, b)
    ensures Returns(p, b, t) <==> k * b == p * t && back * t == k * b
  {
    ScaledExactly(p, b, t);
    ScaledExactly(k, t, b);
    BothFound(p, b, t, k, back);
  }

  /**
   * A position scaled from b pixels to t and back never grows. On an edge at least as long it loses at
   * most two pixels, on a longer one at most one; which positions lose nothing is decided in integers.
   */
  lemma {:induction false} ScaledThereAndBack(p: nat, b: Extent, t: Extent)
    requires p < b
    ensures RoundTrip(p, b, t, Scaled(p, b, t), Scaled(Scaled(p, b, t), t, b))
  {
    var k := Scaled(p, b, t);
    var back := Scaled(k, t, b);
    ScaledBounds(p, b, t);
    ScaledBounds(k, t, b);
    BothExact(p, b, t, k, back);
    if b * t <= PRECISION {
      Swapped(b, t);
      ScaledIsOneOfTwo(p, b, t);
      ScaledIsOneOfTwo(k, t, b);
    }
    RoundTripOf(p, b, t, k, back);
  }

  /** Between equal edges of n pixels, p is kept exactly if the product makes up for what p / n lost. */
  predicate Kept(p: nat, n: Extent) {
    UpInteger(Missing(p, n), ProductPlaces(p, n, n) + 1) <= UpInteger(1, FractionPlaces(p, n))
  }

  lemma {:induction false} ReturnsOnEqualEdges(p: nat, n: Extent)
    ensures Returns(p, n, n) <==> Kept(p, n)
  {
    MultipleIsWhole(p * n, n, p);
    CommonFactor(Missing(p, n), n, ProductPlaces(p, n, n) + 1, FractionPlaces(p, n));
  }

  lemma {:induction false} CommonFactor(m: int, n: Extent, k: nat, s: nat)
    ensures UpInteger(n * m, k) <= UpInteger(n, s) <==> UpInteger(m, k) <= UpInteger(1, s)
  {
    UpIntegerTimes(n, m, k);
    UpIntegerTimes(n, 1, s);
    FactorCompares(UpInteger(m, k), UpInteger(1, s), n);
  }

  lemma FactorCompares(x: int, y: int, n: Extent)
    ensures n * x <= n * y <==> x <= y
  {
    if x <= y {
      ProductsOrdered(x, y, n);
    } else {
      assert (x - y) * n > 0;
    }
  }

  // ---------------------------------------------------------------- two pixels lost

  /** On 1920 pixels the fraction is m units of 2^-55. */
  lemma FractionOn1920(p: nat, x: real, m: int)
    requires 240 <= p < 250 && 1920.0 * x == p as real && RoundToEven(36028797018963968.0 * x) == m
    ensures 0.0 <= Nearest(x) <= 1.0 && 36028797018963968.0 * Nearest(x) == m as real
  {
    UpByFortyFive(x);
    RoundsTo(x, 55, m);
    UpByFortyFive(Nearest(x));
    RoundKeepsSide(x, 0);
    RoundKeepsSide(x, 1);
  }

  /** And the product r units of 2^-45. */
  lemma ProductOn1920(z: real, r: int)
    requires 240.0 <= z < 250.0 && RoundToEven(35184372088832.0 * z) == r
    ensures 35184372088832.0 * Nearest(z) == r as real
  {
    UpByFortyFive(z);
    RoundsTo(z, 45, r);
    UpByFortyFive(Nearest(z));
  }

  lemma ScaledOn1920(p: int32, m: int, r: int, z: real, k: int)
    requires 240 <= p < 250 && RoundToEven(36028797018963968.0 * (p as real / 1920.0)) == m
    requires 36028797018963968.0 * z == 1920.0 * m as real && 240.0 <= z < 250.0 &&
             RoundToEven(35184372088832.0 * z) == r
    requires 35184372088832 * k <= r < 35184372088832 * (k + 1)
    ensures Scaled(p, 1920, 1920) == k
  {
    var x := p as real / 1920.0;
    FractionOn1920(p, x, m);
    assert Quotient(p, 1920) == Nearest(x);
    assert Nearest(x) * 1920.0 == z;
    ProductOn1920(z, r);
    TruncatedOn1920(Nearest(z), r, k);
  }

  lemma TruncatedOn1920(y: real, r: int, k: int)
    requires 35184372088832.0 * y == r as real && 35184372088832 * k <= r < 35184372088832 * (k + 1)
    ensures y.Floor == k
  {
  }

  lemma OnePixelLost()
    ensures Scaled(246, 1920, 1920) == 245
  {
    ScaledOn1920(246, 4616189618054758, 8655355533852671, 1920.0 * 4616189618054758.0 / 36028797018963968.0, 245);
  }

  lemma AnotherPixelLost()
    ensures Scaled(245, 1920, 1920) == 244
  {
    ScaledOn1920(245, 4597424619607381, 8620171161763839, 1920.0 * 4597424619607381.0 / 36028797018963968.0, 244);
  }

  /** Two pixels can be lost between equal edges: 246 of 1920 becomes 245, and that 244. */
  lemma TwoPixelsLost()
    ensures Scaled(246, 1920, 1920) == 245 && Scaled(245, 1920, 1920) == 244
  {
    OnePixelLost();
    AnotherPixelLost();
  }
}
