/**
 * IEEE 754 double precision with round to nearest, as Go's float64 has it, for magnitudes below 2^53:
 * all that the geometry of screens needs.
 */
module Float64 {
  /** x shifted n binary places to the left. */
  function Up(x: real, n: nat): real
    decreases n
  {
    if n == 0 then x else 2.0 * Up(x, n - 1)
  }

  /** And to the right. */
  function Down(x: real, n: nat): real
    decreases n
  {
    if n == 0 then x else Down(0.5 * x, n - 1)
  }

  const TWO52 := 4503599627370496.0
  const TWO53 := 9007199254740992.0

  /** The smallest doubles have this many binary places. */
  const MOST_PLACES := 1074

  /** How many binary places doubles around x have, if it is no more than n: 53 bits have to do. */
  function Places(x: real, n: nat): nat
    decreases n
  {
    if n == 0 || Up(x, n) < TWO53 then n else Places(x, n - 1)
  }

  function RoundToEven(q: real): int {
    var n := q.Floor;
    var r := q - n as real;
    if r < 0.5 || (r == 0.5 && n % 2 == 0) then n else n + 1
  }

  function Nearest(x: real): real
    requires x >= 0.0
  {
    var n := Places(x, MOST_PLACES);
    Down(RoundToEven(Up(x, n)) as real, n)
  }

  /** The double nearest to x. */
  function Round(x: real): real {
    if x < 0.0 then -Nearest(-x) else Nearest(x)
  }

  // ---------------------------------------------------------------- shifting

  lemma {:induction false} DownUndoesUp(x: real, n: nat)
    ensures Down(Up(x, n), n) == x
    decreases n
  {
    if n > 0 {
      DownUndoesUp(x, n - 1);
    }
  }

  lemma {:induction false} DownIsMonotone(a: real, b: real, n: nat)
    requires a <= b
    ensures Down(a, n) <= Down(b, n)
    decreases n
  {
    if n > 0 {
      DownIsMonotone(0.5 * a, 0.5 * b, n - 1);
    }
  }

  lemma {:induction false} UpIsMonotone(a: real, b: real, n: nat)
    requires a <= b
    ensures Up(a, n) <= Up(b, n)
    decreases n
  {
    if n > 0 {
      UpIsMonotone(a, b, n - 1);
    }
  }

  lemma {:induction false} DownOfSum(a: real, b: real, n: nat)
    ensures Down(a + b, n) == Down(a, n) + Down(b, n)
    decreases n
  {
    if n > 0 {
      DownOfSum(0.5 * a, 0.5 * b, n - 1);
      assert 0.5 * (a + b) == 0.5 * a + 0.5 * b;
    }
  }

  lemma {:induction false} DownKeepsRatio(a: real, q: real, n: nat)
    requires TWO53 * a <= q
    ensures TWO53 * Down(a, n) <= Down(q, n)
    decreases n
  {
    if n > 0 {
      DownKeepsRatio(0.5 * a, 0.5 * q, n - 1);
    }
  }

  function UpInteger(m: int, n: nat): int {
    if n == 0 then m else 2 * UpInteger(m, n - 1)
  }

  lemma {:induction false} UpOfInteger(m: int, n: nat)
    ensures Up(m as real, n) == UpInteger(m, n) as real
  {
    if n > 0 {
      UpOfInteger(m, n - 1);
    }
  }

  // ---------------------------------------------------------------- rounding

  lemma {:induction false} EnoughPlaces(x: real, n: nat)
    requires 0.0 <= x < TWO53
    ensures var k := Places(x, n); k <= n && Up(x, k) < TWO53 && (k < n ==> Up(x, k) >= TWO52)
    decreases n
  {
    if n > 0 && Up(x, n) >= TWO53 {
      EnoughPlaces(x, n - 1);
    }
  }

  /** Rounding to an integer takes the nearest one, and of two equally near the even one. */
  lemma RoundsToNearestEven(q: real, m: int)
    ensures RoundToEven(q) == m <==>
            -0.5 <= q - m as real <= 0.5 && (q - m as real == 0.5 || m as real - q == 0.5 ==> m % 2 == 0)
  {
    var n := q.Floor;
    if m != n && m != n + 1 {
      assert m <= n - 1 || m >= n + 2;
    }
  }

  /** Rounding never crosses an integer. */
  lemma {:induction false} RoundKeepsSide(x: real, m: nat)
    requires x >= 0.0
    ensures m as real <= x ==> m as real <= Nearest(x)
    ensures x <= m as real ==> Nearest(x) <= m as real
  {
    var n := Places(x, MOST_PLACES);
    var q, k := Up(x, n), UpInteger(m, n);
    UpOfInteger(m, n);
    DownUndoesUp(m as real, n);
    if m as real <= x {
      UpIsMonotone(m as real, x, n);
      DownIsMonotone(k as real, RoundToEven(q) as real, n);
    }
    if x <= m as real {
      UpIsMonotone(x, m as real, n);
      DownIsMonotone(RoundToEven(q) as real, k as real, n);
    }
  }

  lemma {:induction false} UpInParts(x: real, k: nat, n: nat)
    ensures Up(x, k + n) == Up(Up(x, k), n)
    decreases n
  {
    if n > 0 {
      UpInParts(x, k, n - 1);
    }
  }

  lemma {:induction false} UpGrows(x: real, k: nat, n: nat)
    requires k <= n && 0.0 <= x
    ensures 0.0 <= Up(x, k) <= Up(x, n)
    decreases n
  {
    if n > 0 {
      UpGrows(x, if k < n then k else n - 1, n - 1);
    }
  }

  lemma UpOfOne()
    ensures Up(1.0, 4) == 16.0 && Up(1.0, 32) == 4294967296.0 && Up(1.0, 52) == TWO52
  {
    assert Up(1.0, 2) == 4.0;
    assert Up(1.0, 4) == 2.0 * (2.0 * Up(1.0, 2));
    UpInParts(1.0, 4, 4);
    assert Up(16.0, 2) == 64.0;
    assert Up(16.0, 4) == 2.0 * (2.0 * Up(16.0, 2));
    UpByEight(1.0, 8);
    UpByEight(1.0, 16);
    UpByEight(1.0, 24);
    UpByEight(1.0, 32);
    UpByEight(1.0, 40);
    assert Up(1.0, 52) == 2.0 * (2.0 * (2.0 * (2.0 * Up(1.0, 48))));
  }

  lemma UpByEight(x: real, n: nat)
    ensures Up(x, n + 8) == 256.0 * Up(x, n)
  {
    assert Up(x, n + 2) == 4.0 * Up(x, n);
    assert Up(x, n + 4) == 4.0 * Up(x, n + 2);
    assert Up(x, n + 6) == 4.0 * Up(x, n + 4);
    assert Up(x, n + 8) == 4.0 * Up(x, n + 6);
  }

  /** Unless it is minute, a double is off by at most one part in 2^53. */
  lemma {:induction false} RelativeError(x: real)
    requires 1.0 <= Up(x, 64) && 0.0 <= x < TWO53
    ensures TWO53 * x - x <= TWO53 * Nearest(x) <= TWO53 * x + x
  {
    var n := Places(x, MOST_PLACES);
    EnoughPlaces(x, MOST_PLACES);
    if n == MOST_PLACES {
      UpInParts(x, 64, 52);
      UpIsMonotone(1.0, Up(x, 64), 52);
      UpOfOne();
      UpGrows(x, 64 + 52, MOST_PLACES);
    }
    ErrorBelow(x, Up(x, n), RoundToEven(Up(x, n)), n);
  }

  /** An error of half a unit in at least 2^52 units, whatever the unit. */
  lemma {:induction false} ErrorBelow(x: real, q: real, r: int, n: nat)
    requires q == Up(x, n) && q >= TWO52 && -0.5 <= r as real - q <= 0.5
    ensures TWO53 * x - x <= TWO53 * Down(r as real, n) <= TWO53 * x + x
  {
    DownUndoesUp(x, n);
    DownKeepsRatio(0.5, q, n);
    DownIsMonotone(r as real, q + 0.5, n);
    DownOfSum(q, 0.5, n);
    DownIsMonotone(q, r as real + 0.5, n);
    DownOfSum(r as real, 0.5, n);
  }

  lemma {:induction false} PlacesAtLeast(x: real, k: nat, n: nat)
    requires k <= n && Up(x, k) < TWO53
    ensures Places(x, n) >= k
    decreases n
  {
    if k < n {
      PlacesAtLeast(x, k, n - 1);
    }
  }

  /** The minute stays below 1. */
  lemma {:induction false} MinuteRoundsBelowOne(x: real)
    requires 0.0 <= x && Up(x, 64) < 1.0
    ensures Nearest(x) < 1.0
  {
    var n := Places(x, MOST_PLACES);
    PlacesAtLeast(x, 64, MOST_PLACES);
    UpGrows(x, 1, 64);
    var q := Up(x, n);
    DownUndoesUp(x, n);
    DownIsMonotone(RoundToEven(q) as real, q + 0.5, n);
    DownOfSum(q, 0.5, n);
    DownShrinks(0.5, n - 1);
    DownOfSum(0.25, 0.25, n - 1);
    DownShrinks(0.25, n - 1);
  }

  lemma {:induction false} DownShrinks(x: real, n: nat)
    requires 0.0 <= x
    ensures 0.0 <= Down(x, n) <= x
    decreases n
  {
    if n > 0 {
      DownShrinks(0.5 * x, n - 1);
    }
  }

  lemma UpByThirtyTwo(x: real)
    ensures Up(x, 32) == 4294967296.0 * x
  {
    UpByEight(x, 0);
    UpByEight(x, 8);
    UpByEight(x, 16);
    UpByEight(x, 24);
  }

  /** The same for any number that is not minute. */
  lemma ErrorAbove(x: real)
    requires 1.0 <= 4294967296.0 * x && x < TWO53
    ensures TWO53 * x - x <= TWO53 * Nearest(x) <= TWO53 * x + x
  {
    UpByThirtyTwo(x);
    UpGrows(x, 32, 64);
    RelativeError(x);
  }

  lemma {:induction false} UpUndoesDown(x: real, n: nat)
    ensures Up(Down(x, n), n) == x
    decreases n
  {
    if n > 0 {
      UpUndoesDown(0.5 * x, n - 1);
    }
  }

  lemma {:induction false} PlacesIs(x: real, k: nat, n: nat)
    requires k <= n && TWO52 <= Up(x, k) < TWO53 && 0.0 <= x
    ensures Places(x, n) == k
    decreases n
  {
    if k < n {
      UpGrows(x, k + 1, n);
      PlacesIs(x, k, n - 1);
    }
  }

  /** Between two powers of two, the nearest double is the nearest multiple of a unit. */
  lemma {:induction false} RoundsTo(x: real, n: nat, m: int)
    requires n <= MOST_PLACES && 0.0 <= x && TWO52 <= Up(x, n) < TWO53 && RoundToEven(Up(x, n)) == m
    ensures Up(Nearest(x), n) == m as real
  {
    PlacesIs(x, n, MOST_PLACES);
    UpUndoesDown(m as real, n);
  }

  lemma UpByFortyFive(x: real)
    ensures Up(x, 45) == 35184372088832.0 * x && Up(x, 55) == 36028797018963968.0 * x
  {
    UpByThirtyTwo(x);
    UpByEight(x, 32);
    UpByEight(x, 40);
    assert Up(x, 45) == 32.0 * Up(x, 40) by {
      assert Up(x, 42) == 4.0 * Up(x, 40);
      assert Up(x, 44) == 4.0 * Up(x, 42);
    }
    assert Up(x, 55) == 128.0 * Up(x, 48) by {
      assert Up(x, 50) == 4.0 * Up(x, 48);
      assert Up(x, 52) == 4.0 * Up(x, 50);
      assert Up(x, 54) == 4.0 * Up(x, 52);
    }
  }
}
