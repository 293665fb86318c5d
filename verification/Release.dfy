/** When an engagement ends: the release rule of runEdgeAware, over every run of captured events. */
module Release {
  import opened Capture
  import opened EdgeLoop
  import opened EdgeMath
  import opened Edges
  import opened Integers
  import opened RoundTrips
  import opened Scaling
  import opened Wrappers

  predicate NoCrossing(ds: seq<Delivery>, from: nat, to: nat)
    requires to <= |ds|
  {
    forall i | from <= i < to :: !ds[i].event.EdgeCrossedEvent?
  }

  /** The run starts right after a crossing, and holds no other. */
  predicate OneEngagement(r: LoopRun) {
    && r.start.engaged && !r.start.movedAway
    && !HasMovedAway(r.config.EntryEdge(), r.start.at, r.config.target)
    && NoCrossing(r.deliveries, 0, |r.deliveries|)
  }

  /** Where the first n deliveries put a cursor that is only ever moved and clamped. */
  function PositionAt(r: LoopRun, n: nat): Point
    requires n <= |r.deliveries|
  {
    if n == 0 then r.start.at
    else
      match r.deliveries[n - 1].event
      case MouseMoveEvent(dx, dy) => ClampTo(r.config.target, Shift(PositionAt(r, n - 1), dx, dy))
      case _ => PositionAt(r, n - 1)
  }

  predicate AwayAt(r: LoopRun, n: nat)
    requires n <= |r.deliveries|
  {
    HasMovedAway(r.config.EntryEdge(), PositionAt(r, n), r.config.target)
  }

  predicate PushesOut(r: LoopRun, n: nat)
    requires n < |r.deliveries|
  {
    match r.deliveries[n].event
    case MouseMoveEvent(dx, dy) => PushesPast(r.config.EntryEdge(), Shift(PositionAt(r, n), dx, dy), r.config.target)
    case _ => false
  }

  /** Some one of the first n deliveries has left the cursor off the entry edge. */
  predicate LeftEdge(r: LoopRun, n: nat)
    requires n <= |r.deliveries|
  {
    exists j | 1 <= j <= n :: AwayAt(r, j)
  }

  /** Delivery n pushes out over the entry edge, which an earlier one had left. */
  predicate ReleasesAt(r: LoopRun, n: nat)
    requires n < |r.deliveries|
  {
    PushesOut(r, n) && LeftEdge(r, n)
  }

  /** Where a release by delivery n warps the controller's cursor. */
  function ReleaseWarp(r: LoopRun, n: nat): Point
    requires n < |r.deliveries| && ReleasesAt(r, n)
  {
    var e := r.deliveries[n].event;
    r.config.Warp(Shift(PositionAt(r, n), e.dx, e.dy))
  }

  predicate Unreleased(r: LoopRun, n: nat)
    requires n <= |r.deliveries|
  {
    forall k | 0 <= k < n :: !ReleasesAt(r, k)
  }

  lemma OneMore(r: LoopRun, n: nat)
    requires n < |r.deliveries|
    ensures LeftEdge(r, n + 1) <==> LeftEdge(r, n) || AwayAt(r, n + 1)
    ensures Unreleased(r, n + 1) <==> Unreleased(r, n) && !ReleasesAt(r, n)
  {
  }

  /** A crossing starts an engagement: on the entry edge, wherever along it. */
  lemma CrossingStartsEngagement(c: Config, s: State, d: Delivery, rest: seq<Delivery>)
    requires d.event.EdgeCrossedEvent? && d.tcpOk
    requires forall e | e in rest :: !e.event.EdgeCrossedEvent?
    ensures c.React(s, d).Continue? && OneEngagement(LoopRun(c, c.React(s, d).state, rest))
    ensures c.React(s, d).state.at == EntryPosition(c.EntryEdge(), d.event.relPos, c.target)
  {
    if c.edge.IsSide() {
      EntryOnEdge(c.EntryEdge(), d.event.relPos, c.target);
    }
  }

  /** What one more delivery makes of an engagement, with the cursor where the plain walk has it. */
  predicate Follows(r: LoopRun, n: nat, o: Outcome, o': Outcome)
    requires n < |r.deliveries|
  {
    if !o.state.engaged then
      !o'.state.engaged && o'.warps == o.warps && o'.out == o.out
    else if o.state.movedAway && PushesOut(r, n) then
      && !o'.state.engaged && o'.out == o.out
      && var e := r.deliveries[n].event;
         o'.warps == o.warps + [r.config.Warp(Shift(PositionAt(r, n), e.dx, e.dy))]
    else
      && o'.state.engaged && o'.warps == o.warps
      && o'.state.at == PositionAt(r, n + 1)
      && (o'.state.movedAway <==> o.state.movedAway || AwayAt(r, n + 1))
  }

  lemma {:induction false} OneDelivery(r: LoopRun, n: nat, o: Outcome)
    requires n < |r.deliveries| && !r.deliveries[n].event.EdgeCrossedEvent?
    requires !o.Then(r.config, r.deliveries[n]).lost
    requires o.state.engaged ==> o.state.at == PositionAt(r, n) && (AwayAt(r, n) ==> o.state.movedAway)
    ensures Follows(r, n, o, o.Then(r.config, r.deliveries[n]))
  {
    var e := r.deliveries[n].event;
    if e.MouseMoveEvent? && PushesOut(r, n) {
      PushedIsNotAway(r.config.EntryEdge(), Shift(PositionAt(r, n), e.dx, e.dy), r.config.target);
    }
  }

  /** How an engagement stands after n deliveries, by the release rule. */
  predicate Stands(r: LoopRun, n: nat, o: Outcome)
    requires n <= |r.deliveries|
  {
    && (o.state.engaged <==> Unreleased(r, n))
    && |o.warps| == (if o.state.engaged then 0 else 1)
    && (o.state.engaged ==> o.state.at == PositionAt(r, n))
    && (o.state.engaged ==> (o.state.movedAway <==> LeftEdge(r, n)))
  }

  lemma StandingKept(r: LoopRun, n: nat, o: Outcome, o': Outcome)
    requires n < |r.deliveries| && Stands(r, n, o) && Follows(r, n, o, o')
    ensures Stands(r, n + 1, o')
  {
    OneMore(r, n);
  }

  lemma AwayIsLeft(r: LoopRun, n: nat)
    requires OneEngagement(r) && n <= |r.deliveries|
    ensures AwayAt(r, n) ==> LeftEdge(r, n)
  {
  }

  /**
   * While the connection lasts, the loop is still engaged exactly if no delivery so far releases by
   * the rule above; until then it has the cursor where the plain walk has it.
   */
  lemma {:induction false} EngagedUntilRelease(r: LoopRun, n: nat)
    requires OneEngagement(r) && n <= |r.deliveries| && !r.After(n).lost
    ensures Stands(r, n, r.After(n))
  {
    if n > 0 {
      EngagedUntilRelease(r, n - 1);
      AwayIsLeft(r, n - 1);
      OneDelivery(r, n - 1, r.After(n - 1));
      StandingKept(r, n - 1, r.After(n - 1), r.After(n));
    }
  }

  /** The release happens at the first delivery the rule names, with that move's warp; not before. */
  lemma ReleaseIsExact(r: LoopRun, k: nat)
    requires OneEngagement(r) && k < |r.deliveries| && !r.After(k + 1).lost
    requires ReleasesAt(r, k) && Unreleased(r, k)
    ensures r.After(k).state.engaged && r.After(k).warps == []
    ensures !r.After(k + 1).state.engaged && r.After(k + 1).warps == [ReleaseWarp(r, k)] &&
            r.After(k + 1).out == r.After(k).out
  {
    EngagedUntilRelease(r, k);
    OneDelivery(r, k, r.After(k));
  }

  /** However hard it is pushed, an engagement whose cursor never leaves the entry edge is not released. */
  lemma NeverAwayNeverReleased(r: LoopRun, n: nat)
    requires OneEngagement(r) && n <= |r.deliveries| && !r.After(n).lost
    requires forall j | 1 <= j < n :: !AwayAt(r, j)
    ensures r.After(n).state.engaged && r.After(n).warps == []
  {
    EngagedUntilRelease(r, n);
  }

  // ---------------------------------------------------------------- progress

  /** The sum that should push out over the entry edge exceeds an int32: it wraps to beyond the other side. */
  predicate Wraps(c: Config, s: State, e: Event) {
    e.MouseMoveEvent? &&
    match c.EntryEdge()
    case Right => s.at.x + e.dx > MAX_INT32
    case Bottom => s.at.y + e.dy > MAX_INT32
    case _ => false
  }

  /** How far an event pushes towards, and out over, an edge: negative when it leads away. */
  function Outward(edge: Edge, e: Event): int {
    if !e.MouseMoveEvent? then 0
    else
      var dx: int, dy: int := e.dx, e.dy;
      match edge
      case Left => -dx
      case Right => dx
      case Top => -dy
      case Bottom => dy
      case Other(_) => 0
  }

  /** How far the simulated cursor is from the entry edge. */
  function ToGo(c: Config, s: State): (d: int)
    ensures c.edge.IsSide() && c.target.Contains(s.at) ==> 0 <= d < c.target.Depth(c.edge)
  {
    Distance(c.EntryEdge(), s.at.x, s.at.y, c.target)
  }

  predicate Leaving(r: LoopRun, n: nat)
    requires n <= |r.deliveries|
  {
    var s := r.After(n).state;
    s.engaged && s.movedAway && r.config.target.Contains(s.at) && !r.After(n).lost
  }

  predicate WrapsAt(r: LoopRun, i: nat)
    requires i < |r.deliveries|
  {
    Wraps(r.config, r.After(i).state, r.deliveries[i].event)
  }

  /** No delivery of this stretch wraps. */
  predicate NoneWraps(r: LoopRun, from: nat, to: nat)
    requires to <= |r.deliveries|
  {
    forall i | from <= i < to :: !WrapsAt(r, i)
  }

  /** The cursor came closer to the entry edge by at least what the event pushes. */
  predicate Closer(c: Config, o: Outcome, o': Outcome, e: Event) {
    && o'.state.movedAway && c.target.Contains(o'.state.at)
    && ToGo(c, o'.state) <= ToGo(c, o.state) - Outward(c.EntryEdge(), e)
  }

  lemma EngagedBefore(c: Config, o: Outcome, d: Delivery)
    requires !d.event.EdgeCrossedEvent? && o.Then(c, d).state.engaged && !o.Then(c, d).lost
    ensures o.state.engaged && !o.lost
  {
  }

  /** Clamping at the far side absorbs motion away from the edge, so the distance only shrinks faster. */
  lemma OneStepCloser(c: Config, o: Outcome, d: Delivery)
    requires c.edge.IsSide() && o.state.movedAway && c.target.Contains(o.state.at) && !o.lost
    requires !d.event.EdgeCrossedEvent? && !Wraps(c, o.state, d.event) && o.Then(c, d).state.engaged &&
             !o.Then(c, d).lost
    ensures Closer(c, o, o.Then(c, d), d.event)
  {
  }

  /** The cursor is on its way out, and `sum` pixels of outward motion closer than before. */
  predicate Nearer(c: Config, before: Outcome, o: Outcome, sum: int) {
    && o.state.engaged && o.state.movedAway && c.target.Contains(o.state.at) && !o.lost
    && ToGo(c, o.state) <= ToGo(c, before.state) - sum
  }

  lemma OneStepNearer(c: Config, before: Outcome, o: Outcome, d: Delivery, o': Outcome, sum: int)
    requires c.edge.IsSide() && Nearer(c, before, o, sum) && o' == o.Then(c, d) && o'.state.engaged && !o'.lost
    requires !d.event.EdgeCrossedEvent? && !Wraps(c, o.state, d.event)
    ensures Nearer(c, before, o', sum + Outward(c.EntryEdge(), d.event))
  {
    OneStepCloser(c, o, d);
    assert Closer(c, o, o', d.event);
  }

  /** The outcomes of a stretch of deliveries, one after the other, without crossing or wrapping. */
  predicate Stretch(c: Config, ds: seq<Delivery>, os: seq<Outcome>) {
    |os| == |ds| + 1 && forall i | 0 <= i < |ds| :: Linked(c, ds, os, i)
  }

  predicate Linked(c: Config, ds: seq<Delivery>, os: seq<Outcome>, i: nat)
    requires i < |ds| < |os|
  {
    os[i + 1] == os[i].Then(c, ds[i]) && !ds[i].event.EdgeCrossedEvent? && !Wraps(c, os[i].state, ds[i].event)
  }

  /** The net outward motion of the first n deliveries. */
  function Sum(edge: Edge, ds: seq<Delivery>, n: nat): int
    requires n <= |ds|
  {
    if n == 0 then 0 else Sum(edge, ds, n - 1) + Outward(edge, ds[n - 1].event)
  }

  /** Still engaged, the cursor has come closer by at least the net outward motion. */
  lemma {:induction false} DistanceShrinks(c: Config, ds: seq<Delivery>, os: seq<Outcome>, n: nat)
    requires c.edge.IsSide() && Stretch(c, ds, os) && Nearer(c, os[0], os[0], 0)
    requires n <= |ds| && os[n].state.engaged && !os[n].lost
    ensures Nearer(c, os[0], os[n], Sum(c.EntryEdge(), ds, n))
  {
    if n > 0 {
      assert Linked(c, ds, os, n - 1);
      EngagedBefore(c, os[n - 1], ds[n - 1]);
      DistanceShrinks(c, ds, os, n - 1);
      OneStepNearer(c, os[0], os[n - 1], ds[n - 1], os[n], Sum(c.EntryEdge(), ds, n - 1));
    }
  }

  function OutcomesOf(r: LoopRun, from: nat, to: nat): (os: seq<Outcome>)
    requires from <= to <= |r.deliveries|
    ensures |os| == to - from + 1
  {
    seq(to - from + 1, i requires 0 <= i <= to - from => r.After(from + i))
  }

  lemma {:induction false} StretchOf(r: LoopRun, from: nat, to: nat)
    requires from <= to <= |r.deliveries| && NoCrossing(r.deliveries, from, to) && NoneWraps(r, from, to)
    ensures Stretch(r.config, r.deliveries[from..to], OutcomesOf(r, from, to))
  {
    var ds, os := r.deliveries[from..to], OutcomesOf(r, from, to);
    forall i | 0 <= i < |ds|
      ensures Linked(r.config, ds, os, i)
    {
      assert ds[i] == r.deliveries[from + i] && os[i] == r.After(from + i);
      assert os[i + 1] == r.After(from + i + 1) == r.After(from + i).Then(r.config, r.deliveries[from + i]);
      assert !WrapsAt(r, from + i);
    }
  }

  /**
   * Once the cursor has moved away, any stretch of moves whose net motion out over the entry edge is at
   * least the screen's depth releases, whatever each single move does and however much was absorbed at
   * the far side, unless one of them wraps.
   */
  lemma {:induction false} PushingOutReleases(r: LoopRun, from: nat, to: nat)
    requires from <= to <= |r.deliveries| && r.config.edge.IsSide() && Leaving(r, from)
    requires NoCrossing(r.deliveries, from, to)
    requires Sum(r.config.EntryEdge(), r.deliveries[from..to], to - from) >= r.config.target.Depth(r.config.EntryEdge())
    ensures !r.After(to).state.engaged || r.After(to).lost || !NoneWraps(r, from, to)
  {
    if r.After(to).state.engaged && !r.After(to).lost && NoneWraps(r, from, to) {
      StretchOf(r, from, to);
      DistanceShrinks(r.config, r.deliveries[from..to], OutcomesOf(r, from, to), to - from);
      assert false;
    }
  }

  lemma MovedAwayPushReleases(c: Config, s: State, d: Delivery)
    requires s.engaged && s.movedAway && d.event.MouseMoveEvent?
    ensures c.React(s, d).Release? <==> PushesPast(c.EntryEdge(), Shift(s.at, d.event.dx, d.event.dy), c.target)
  {
  }

  lemma PushUnlessItWraps(c: Config, s: State, e: Event)
    requires c.edge.IsSide() && c.target.Contains(s.at) && e.MouseMoveEvent? && Outward(c.EntryEdge(), e) > ToGo(c, s)
    ensures PushesPast(c.EntryEdge(), Shift(s.at, e.dx, e.dy), c.target) <==> !Wraps(c, s, e)
  {
  }

  /** A move that pushes out over the entry edge releases exactly if it does not wrap. */
  lemma PushReleasesUnlessItWraps(c: Config, s: State, d: Delivery)
    requires c.edge.IsSide() && s.engaged && s.movedAway && c.target.Contains(s.at)
    requires d.event.MouseMoveEvent? && Outward(c.EntryEdge(), d.event) > ToGo(c, s)
    ensures c.React(s, d).Release? <==> !Wraps(c, s, d.event)
  {
    MovedAwayPushReleases(c, s, d);
    PushUnlessItWraps(c, s, d.event);
  }

  // ---------------------------------------------------------------- there and back

  /** No motion along the edge. */
  predicate Still(edge: Edge, e: Event) {
    e.MouseMoveEvent? ==> (if edge.Vertical() then e.dy == 0 else e.dx == 0)
  }

  predicate AllStill(r: LoopRun) {
    forall d | d in r.deliveries :: Still(r.config.edge, d.event)
  }

  lemma {:induction false} StaysAlong(r: LoopRun, n: nat)
    requires n <= |r.deliveries| && AllStill(r) && r.config.target.Contains(r.start.at)
    ensures r.config.target.Contains(PositionAt(r, n))
    ensures r.config.edge.Along(PositionAt(r, n)) == r.config.edge.Along(r.start.at)
  {
    if n > 0 {
      StaysAlong(r, n - 1);
      assert r.deliveries[n - 1] in r.deliveries;
    }
  }

  lemma WarpsWhereItEntered(c: Config, f: Fraction, p: Point)
    requires c.edge.IsSide()
    requires c.edge.Along(ClampTo(c.target, p)) == c.edge.Along(EntryPosition(c.EntryEdge(), f, c.target))
    ensures c.edge.Along(c.Warp(p)) == LandsAt(c.edge, c.bounds, f, c.target)
  {
  }

  /** The crossing was at p, nothing moves along the edge, and delivery k releases. */
  predicate Unmoved(r: LoopRun, k: nat, p: Point, f: Fraction) {
    && AllStill(r) && r.config.edge.IsSide() && r.config.bounds.Contains(p)
    && EdgeCrossed(r.config.edge, r.config.bounds, p) == Some(f)
    && k < |r.deliveries| && ReleasesAt(r, k)
  }

  /** From where the cursor crossed, `offset` pixels along the edge, to where it is warped, `back` along it. */
  predicate CameBack(c: Config, p: Point, warp: Point, offset: nat, entered: int32, back: int32) {
    && c.edge.Along(p) == c.bounds.Origin(c.edge) + offset
    && RoundTrip(offset, c.bounds.size.Length(c.edge), c.target.Length(c.edge), entered, back)
    && c.edge.Along(warp) == c.bounds.Origin(c.edge) + back
  }

  lemma {:induction false} UnmovedComesBack(r: LoopRun, k: nat, p: Point, f: Fraction)
    returns (offset: nat, entered: int32, back: int32)
    requires Unmoved(r, k, p, f) && r.start.at == EntryPosition(r.config.EntryEdge(), f, r.config.target)
    ensures CameBack(r.config, p, ReleaseWarp(r, k), offset, entered, back)
  {
    var c, e := r.config, r.deliveries[k].event;
    offset, entered, back := CrossingRoundTrip(c.edge, c.bounds, p, f, c.target);
    CrossesAlong(c.edge, c.bounds, p, f);
    EntryOnEdge(c.EntryEdge(), f, c.target);
    StaysAlong(r, k);
    assert r.deliveries[k] in r.deliveries;
    WarpsWhereItEntered(c, f, Shift(PositionAt(r, k), e.dx, e.dy));
  }

  /** An engagement entered at p that moves a pixel in and two back out. */
  function InAndOut(c: Config, p: Point): LoopRun {
    LoopRun(c, State(true, false, p, None),
            [Delivery(MouseMoveEvent(1, 0), true, true), Delivery(MouseMoveEvent(-2, 0), true, true)])
  }

  lemma {:induction false} InAndOutByTheRule(c: Config, p: Point)
    requires c.edge == Right && c.target.w >= 2 && c.target.Contains(p) && p.x == 0
    ensures ReleasesAt(InAndOut(c, p), 1) && Unreleased(InAndOut(c, p), 1)
  {
    var r := InAndOut(c, p);
    assert PositionAt(r, 0) == p && PositionAt(r, 1) == Point(1, p.y);
    assert AwayAt(r, 1) && !PushesOut(r, 0);
  }

  lemma {:induction false} InAndOutIsServed(c: Config, p: Point)
    requires c.edge == Right && c.target.w >= 2 && c.target.Contains(p) && p.x == 0
    ensures !InAndOut(c, p).After(2).lost
  {
    var r := InAndOut(c, p);
    assert r.After(0).Then(c, r.deliveries[0]).state == State(true, true, Point(1, p.y), None);
    assert r.After(1).state.movedAway && !r.After(1).lost;
  }

  /** Sessions that are released exist: this one is, by its second move. */
  lemma {:induction false} InAndOutReleases(c: Config, f: Fraction, p: Point)
    requires c.edge == Right && c.target.w >= 2 && f < 1.0 && p == EntryPosition(c.EntryEdge(), f, c.target)
    ensures var r := InAndOut(c, p);
            OneEngagement(r) && AllStill(r) && ReleasesAt(r, 1) && Unreleased(r, 1) && !r.After(2).lost
  {
    EntryOnEdge(c.EntryEdge(), f, c.target);
    InAndOutByTheRule(c, p);
    InAndOutIsServed(c, p);
  }
}
