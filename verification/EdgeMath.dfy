/**
 * The geometry behind edge-triggered switching: cmd/controller/edge_math.go, and edgeCrossed of
 * internal/capture/capture_windows.go.
 */
module EdgeMath {
  import opened Edges
  import opened Integers
  import opened RoundTrips
  import opened Scaling
  import opened Wrappers

  function ClampI(v: int, lo: int, hi: int): (r: int)
    ensures lo <= hi ==> lo <= r <= hi
    ensures lo <= v <= hi ==> r == v
  {
    if v < lo then lo else if v > hi then hi else v
  }

  function ClampTo(s: Size, p: Point): (q: Point)
    ensures s.Contains(q)
    ensures s.Contains(p) ==> q == p
  {
    Point(ClampI(p.x, 0, s.w - 1), ClampI(p.y, 0, s.h - 1))
  }

  /** Where a cursor crossing into entryEdge starts. */
  function EntryPosition(entryEdge: Edge, relPos: Fraction, s: Size): Point {
    match entryEdge
    case Left => Point(0, Scale(relPos, s.h))
    case Right => Point(s.w - 1, Scale(relPos, s.h))
    case Top => Point(Scale(relPos, s.w), 0)
    case Bottom => Point(Scale(relPos, s.w), s.h - 1)
    case Other(_) => Point(0, 0)
  }

  predicate PushesPast(edge: Edge, p: Point, s: Size) {
    match edge
    case Left => p.x < 0
    case Right => p.x > s.w - 1
    case Top => p.y < 0
    case Bottom => p.y > s.h - 1
    case Other(_) => false
  }

  predicate HasMovedAway(edge: Edge, p: Point, s: Size) {
    match edge
    case Left => p.x > 0
    case Right => p.x < s.w - 1
    case Top => p.y > 0
    case Bottom => p.y < s.h - 1
    case Other(_) => false
  }

  function ReleaseRelPos(edge: Edge, p: Point, s: Size): Fraction {
    match edge
    case Left => Quotient(p.y, s.h)
    case Right => Quotient(p.y, s.h)
    case _ => Quotient(p.x, s.w)
  }

  /** Where the controller's own cursor lands when control returns through triggerEdge. */
  function ControllerWarpPosition(triggerEdge: Edge, relPos: Fraction, b: Bounds): Point {
    match triggerEdge
    case Left => Point(Wrap32(b.x + 1), b.y + Scale(relPos, b.size.h))
    case Right => Point(Wrap32(b.x + b.size.w - 2), b.y + Scale(relPos, b.size.h))
    case Top => Point(b.x + Scale(relPos, b.size.w), Wrap32(b.y + 1))
    case Bottom => Point(b.x + Scale(relPos, b.size.w), Wrap32(b.y + b.size.h - 2))
    case Other(_) => Point(b.x, b.y)
  }

  /** Has the cursor reached the edge, and how far along it? */
  function EdgeCrossed(edge: Edge, b: Bounds, p: Point): Option<Fraction> {
    match edge
    case Left => if p.x <= b.x then Some(FractionAt(p.y, b.y, b.size.h)) else None
    case Right => if p.x >= b.x + b.size.w - 1 then Some(FractionAt(p.y, b.y, b.size.h)) else None
    case Top => if p.y <= b.y then Some(FractionAt(p.x, b.x, b.size.w)) else None
    case Bottom => if p.y >= b.y + b.size.h - 1 then Some(FractionAt(p.x, b.x, b.size.w)) else None
    case Other(_) => None
  }

  function FractionAt(v: int32, origin: int32, n: Extent): Fraction {
    Quotient(Wrap32(v - origin), n)
  }

  // ---------------------------------------------------------------- edges

  /** How far inside an edge of a screen a place is: 0 on the edge, negative beyond it. */
  function Distance(edge: Edge, x: int, y: int, s: Size): int {
    match edge
    case Left => x
    case Right => s.w - 1 - x
    case Top => y
    case Bottom => s.h - 1 - y
    case Other(_) => 0
  }

  function Off(a: int, b: int): nat {
    if a < b then b - a else a - b
  }

  /** Clamping moves a point to the nearest one on the screen, on either axis. */
  lemma ClampIsNearest(s: Size, p: Point, q: Point)
    requires s.Contains(q)
    ensures s.Contains(ClampTo(s, p)) && Off(p.x, ClampTo(s, p).x) <= Off(p.x, q.x) &&
            Off(p.y, ClampTo(s, p).y) <= Off(p.y, q.y)
  {
  }

  /** Pushed past an edge is beyond it, moved away is inside it, and in between is on it. */
  lemma SidesOfAnEdge(edge: Edge, p: Point, s: Size)
    ensures PushesPast(edge, p, s) <==> Distance(edge, p.x, p.y, s) < 0
    ensures HasMovedAway(edge, p, s) <==> Distance(edge, p.x, p.y, s) > 0
  {
  }

  /** The edge is crossed exactly by a cursor on or beyond it; the fraction is 1 only past its far end. */
  lemma CrossedOnOrBeyond(edge: Edge, b: Bounds, p: Point)
    requires edge.IsSide()
    ensures EdgeCrossed(edge, b, p).Some? <==> Distance(edge, p.x - b.x, p.y - b.y, b.size) <= 0
    ensures EdgeCrossed(edge, b, p).Some? ==>
              var offset := Wrap32(edge.Along(p) - b.Origin(edge));
              && (EdgeCrossed(edge, b, p).value == 1.0 <==> offset >= b.size.Length(edge))
              && (offset <= 0 ==> EdgeCrossed(edge, b, p).value == 0.0)
  {
  }

  /** A cursor enters exactly on the entry edge, and inside the screen unless it crossed at the very end. */
  lemma EntryOnEdge(entryEdge: Edge, relPos: Fraction, s: Size)
    requires entryEdge.IsSide()
    ensures var p := EntryPosition(entryEdge, relPos, s);
            && Distance(entryEdge, p.x, p.y, s) == 0
            && (s.Contains(p) <==> relPos < 1.0)
  {
  }

  /** Pushed past the edge, the cursor is clamped onto it. */
  lemma PushedIsNotAway(edge: Edge, p: Point, s: Size)
    requires PushesPast(edge, p, s)
    ensures !HasMovedAway(edge, ClampTo(s, p), s)
  {
  }

  /** Where along the controller's edge a cursor lands that crossed at f and came back unmoved. */
  function LandsAt(edge: Edge, b: Bounds, f: Fraction, target: Size): int {
    var at := EntryPosition(edge.Opposite(), f, target);
    edge.Along(ControllerWarpPosition(edge, ReleaseRelPos(edge.Opposite(), at, target), b))
  }

  lemma EntersAlong(edge: Edge, f: Fraction, s: Size)
    requires edge.IsSide()
    ensures edge.Along(EntryPosition(edge.Opposite(), f, s)) == Scale(f, s.Length(edge))
  {
  }

  lemma LeavesAlong(edge: Edge, at: Point, s: Size)
    requires edge.IsSide()
    ensures ReleaseRelPos(edge.Opposite(), at, s) == Quotient(edge.Along(at), s.Length(edge))
  {
  }

  lemma WarpsAlong(edge: Edge, f: Fraction, b: Bounds)
    requires edge.IsSide()
    ensures edge.Along(ControllerWarpPosition(edge, f, b)) == b.Origin(edge) + Scale(f, b.size.Length(edge))
  {
  }

  lemma CrossesAlong(edge: Edge, b: Bounds, p: Point, f: Fraction)
    requires edge.IsSide() && b.Contains(p) && EdgeCrossed(edge, b, p) == Some(f)
    ensures var offset := edge.Along(p) - b.Origin(edge);
            0 <= offset < b.size.Length(edge) && f == Quotient(offset, b.size.Length(edge))
  {
    assert Wrap32(edge.Along(p) - b.Origin(edge)) == edge.Along(p) - b.Origin(edge);
    assert f == FractionAt(edge.Along(p), b.Origin(edge), b.size.Length(edge));
  }

  /** Coming back unmoved is scaling there and back. */
  lemma LandsScaled(edge: Edge, b: Bounds, f: Fraction, target: Size) returns (k: int32, back: int32)
    requires edge.IsSide()
    ensures k == Scale(f, target.Length(edge)) && back == Scale(Quotient(k, target.Length(edge)), b.size.Length(edge))
    ensures edge.Along(EntryPosition(edge.Opposite(), f, target)) == k &&
            LandsAt(edge, b, f, target) == b.Origin(edge) + back
  {
    var at := EntryPosition(edge.Opposite(), f, target);
    EntersAlong(edge, f, target);
    k := edge.Along(at);
    LeavesAlong(edge, at, target);
    WarpsAlong(edge, ReleaseRelPos(edge.Opposite(), at, target), b);
    back := Scale(Quotient(k, target.Length(edge)), b.size.Length(edge));
  }

  lemma ScaledFraction(offset: nat, b: Extent, t: Extent, f: Fraction, k: int32, back: int32)
    requires offset < b && f == Quotient(offset, b) && k == Scale(f, t) && back == Scale(Quotient(k, t), b)
    ensures RoundTrip(offset, b, t, k, back)
  {
    ScaledThereAndBack(offset, b, t);
  }

  lemma RoundTripFrom(edge: Edge, b: Bounds, offset: nat, f: Fraction, target: Size) returns (k: int32, back: int32)
    requires edge.IsSide() && offset < b.size.Length(edge) && f == Quotient(offset, b.size.Length(edge))
    ensures edge.Along(EntryPosition(edge.Opposite(), f, target)) == k &&
            LandsAt(edge, b, f, target) == b.Origin(edge) + back
    ensures RoundTrip(offset, b.size.Length(edge), target.Length(edge), k, back)
  {
    k, back := LandsScaled(edge, b, f, target);
    ScaledFraction(offset, b.size.Length(edge), target.Length(edge), f, k, back);
  }

  /**
   * Crossing at p, entering the target, and leaving it again at the same place along the edge never puts
   * the controller's cursor past p. Onto an edge at least as long it lands within two pixels of p, onto a
   * longer one within one; and on p exactly if the offset and the two lengths meet an integer condition.
   */
  lemma CrossingRoundTrip(edge: Edge, b: Bounds, p: Point, f: Fraction, target: Size)
    returns (offset: nat, k: int32, back: int32)
    requires edge.IsSide() && b.Contains(p) && EdgeCrossed(edge, b, p) == Some(f)
    ensures edge.Along(p) == b.Origin(edge) + offset
    ensures edge.Along(EntryPosition(edge.Opposite(), f, target)) == k &&
            LandsAt(edge, b, f, target) == b.Origin(edge) + back
    ensures RoundTrip(offset, b.size.Length(edge), target.Length(edge), k, back)
  {
    offset := edge.Along(p) - b.Origin(edge);
    CrossesAlong(edge, b, p, f);
    k, back := RoundTripFrom(edge, b, offset, f, target);
  }

  /** Between two edges of 1920 pixels, a cursor that crosses at 246 lands at 244. */
  lemma TwoPixelsShort(b: Bounds, p: Point, f: Fraction, target: Size)
    requires b.size.w == target.w == 1920 && p == Point(b.x + 246, b.y) && EdgeCrossed(Top, b, p) == Some(f)
    ensures LandsAt(Top, b, f, target) == b.x + 244
  {
    CrossesAlong(Top, b, p, f);
    LandsShort(b, f, target);
  }

  lemma LandsShort(b: Bounds, f: Fraction, target: Size)
    requires b.size.w == target.w == 1920 && f == Quotient(246, 1920)
    ensures LandsAt(Top, b, f, target) == b.x + 244
  {
    var k, back := LandsScaled(Top, b, f, target);
    TwoPixelsLost();
  }

  /**
   * The point a release warps to lies on the controller's screen exactly when that screen is at least
   * two pixels deep, and is then one pixel inside the edge, which does not count as a crossing: a
   * release cannot re-engage by itself.
   */
  lemma WarpDoesNotCross(edge: Edge, b: Bounds, target: Size, at: Point)
    requires edge.IsSide() && target.Contains(at)
    ensures var warp := ControllerWarpPosition(edge, ReleaseRelPos(edge.Opposite(), at, target), b);
            && (b.Contains(warp) <==> b.size.Depth(edge) >= 2)
            && (b.size.Depth(edge) >= 2 ==> Distance(edge, warp.x - b.x, warp.y - b.y, b.size) == 1)
            && (b.size.Depth(edge) >= 2 ==> EdgeCrossed(edge, b, warp).None?)
  {
    LeavesAlong(edge, at, target);
    WarpsInside(edge, b, ReleaseRelPos(edge.Opposite(), at, target));
  }

  lemma WarpsInside(edge: Edge, b: Bounds, f: Fraction)
    requires edge.IsSide() && f < 1.0
    ensures var warp := ControllerWarpPosition(edge, f, b);
            && (b.Contains(warp) <==> b.size.Depth(edge) >= 2)
            && (b.size.Depth(edge) >= 2 ==> Distance(edge, warp.x - b.x, warp.y - b.y, b.size) == 1)
            && (b.size.Depth(edge) >= 2 ==> EdgeCrossed(edge, b, warp).None?)
  {
  }
}
