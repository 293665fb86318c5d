/**
 * The target's cursor, rebuilt from what the controller sends. The target (cmd/target/main.go) warps on
 * Engage, applies deltas, and applies a UDP position only if its sequence number is newer than the last.
 * Its cursor is pixel-exact and stays on its screen, as an operating system keeps it.
 */
module Replication {
  import opened Capture
  import opened EdgeLoop
  import opened EdgeMath
  import opened Edges
  import opened Integers
  import opened Release
  import opened Wrappers

  datatype Target = Target(at: Point, lastSeq: uint64) {
    function Receive(s: Size, m: Outgoing): Target {
      match m
      case Engage(edge, relPos) => this.(at := ClampTo(s, EntryPosition(edge.Opposite(), relPos, s)))
      case MouseMove(dx, dy) => this.(at := Moved(s, at, dx, dy))
      case Position(n, p) => if n > lastSeq then Target(ClampTo(s, p), n) else this
      case _ => this
    }

    function Replay(s: Size, ms: seq<Outgoing>): Target {
      if ms == [] then this else Replay(s, ms[..|ms| - 1]).Receive(s, ms[|ms| - 1])
    }
  }

  /** A relative move on a screen, in exact arithmetic. */
  function Moved(s: Size, p: Point, dx: int32, dy: int32): Point {
    Point(ClampI(p.x + dx, 0, s.w - 1), ClampI(p.y + dy, 0, s.h - 1))
  }

  lemma ReplayOneMore(t: Target, s: Size, ms: seq<Outgoing>, m: Outgoing)
    ensures t.Replay(s, ms + [m]) == t.Replay(s, ms).Receive(s, m)
  {
    assert (ms + [m])[..|ms|] == ms;
  }

  lemma Reassociated(a: seq<Outgoing>, b: seq<Outgoing>)
    requires b != []
    ensures a + b == a + b[..|b| - 1] + [b[|b| - 1]]
  {
  }

  lemma {:induction false} ReplayInParts(t: Target, s: Size, a: seq<Outgoing>, b: seq<Outgoing>)
    ensures t.Replay(s, a + b) == t.Replay(s, a).Replay(s, b)
  {
    if b == [] {
      assert a + b == a;
    } else {
      var init := b[..|b| - 1];
      ReplayInParts(t, s, a, init);
      Reassociated(a, b);
      ReplayOneMore(t, s, a + init, b[|b| - 1]);
    }
  }

  /** Whatever arrives, the target's cursor stays on its screen. */
  lemma {:induction false} StaysOnScreen(t: Target, s: Size, ms: seq<Outgoing>)
    requires s.Contains(t.at)
    ensures s.Contains(t.Replay(s, ms).at)
  {
    if ms != [] {
      StaysOnScreen(t, s, ms[..|ms| - 1]);
    }
  }

  // ---------------------------------------------------------------- exact conditions, step by step

  /** The two sides agree on where an engagement starts exactly if it did not cross at the very end. */
  lemma EntryAgrees(c: Config, relPos: Fraction, t: Target)
    requires c.edge.IsSide()
    ensures t.Receive(c.target, Engage(c.edge, relPos)).at == EntryPosition(c.EntryEdge(), relPos, c.target) <==>
            relPos < 1.0
  {
    EntryOnEdge(c.EntryEdge(), relPos, c.target);
  }

  predicate Overflows(v: int32, d: int32) {
    v + d > MAX_INT32
  }

  /** From a common position on the screen they agree on a move exactly if neither int32 sum overflows
      on an axis more than one pixel long. */
  lemma MoveAgrees(s: Size, p: Point, dx: int32, dy: int32)
    requires s.Contains(p)
    ensures ClampTo(s, Shift(p, dx, dy)) == Moved(s, p, dx, dy) <==>
            (Overflows(p.x, dx) ==> s.w == 1) && (Overflows(p.y, dy) ==> s.h == 1)
  {
    AxisAgrees(p.x, dx, s.w);
    AxisAgrees(p.y, dy, s.h);
  }

  lemma AxisAgrees(v: int32, d: int32, n: Extent)
    requires 0 <= v < n
    ensures ClampI(Wrap32(v + d), 0, n - 1) == ClampI(v + d, 0, n - 1) <==> (Overflows(v, d) ==> n == 1)
  {
  }

  /** A crossing at the very end leaves the two cursors a pixel apart after the next move back. */
  lemma CrossingAtTheEndDrifts(c: Config, t: Target, dy: int32)
    requires c.edge == Right && c.target.h >= 2 && dy == -1
    ensures var d := (e: Event) => Delivery(e, true, true);
            var o := LoopRun(c, Initial(false), [d(EdgeCrossedEvent(1.0)), d(MouseMoveEvent(0, dy))]).After(2);
            && o.out == [Engage(Right, 1.0), MouseMove(0, dy)]
            && o.state.at == Point(0, c.target.h - 1)
            && t.Replay(c.target, o.out).at == Point(0, c.target.h - 2)
  {
    var d := (e: Event) => Delivery(e, true, true);
    var r := LoopRun(c, Initial(false), [d(EdgeCrossedEvent(1.0)), d(MouseMoveEvent(0, dy))]);
    assert r.After(1).out == [Engage(Right, 1.0)];
    assert r.After(1).state.at == Point(0, c.target.h);
    ReplayOneMore(t, c.target, [], Engage(Right, 1.0));
    ReplayOneMore(t, c.target, [Engage(Right, 1.0)], MouseMove(0, dy));
    assert [] + [Engage(Right, 1.0)] == [Engage(Right, 1.0)];
    assert r.After(2).out == [Engage(Right, 1.0)] + [MouseMove(0, dy)];
  }

  // ---------------------------------------------------------------- one delivery

  function Last(out: seq<Outgoing>): Outgoing
    requires out != []
  {
    out[|out| - 1]
  }

  /** What a message says about the loop's variables before and after it was sent for an event. */
  predicate Sends(c: Config, before: State, after: State, e: Event, m: Outgoing) {
    match m
    case Engage(edge, relPos) =>
      && e == EdgeCrossedEvent(relPos) && edge == c.edge
      && after.at == EntryPosition(c.EntryEdge(), relPos, c.target) && after.udp == before.udp
    case MouseMove(dx, dy) =>
      && e == MouseMoveEvent(dx, dy) && before.engaged
      && after.at == ClampTo(c.target, Shift(before.at, dx, dy)) && after.udp.None?
    case Position(n, p) =>
      && before.engaged && before.udp.Some? && n == NextSeq(before.udp.value) && after.udp == Some(n)
      && p == after.at && c.target.Contains(p)
    case _ => before.engaged && after.at == before.at && after.udp == before.udp
  }

  predicate StepOf(c: Config, o: Outcome, o': Outcome, e: Event) {
    if o'.out == o.out then
      o'.state.at == o.state.at && o'.state.udp == o.state.udp && (o'.state.engaged ==> o.state.engaged)
    else
      |o'.out| == |o.out| + 1 && o'.out == o.out + [Last(o'.out)] && Sends(c, o.state, o'.state, e, Last(o'.out))
  }

  /** While the connection lasts, a delivery sends one message or changes nothing a target could see. */
  lemma OneStep(c: Config, o: Outcome, d: Delivery)
    requires !o.lost && !o.Then(c, d).lost
    ensures StepOf(c, o, o.Then(c, d), d.event)
  {
  }

  // ---------------------------------------------------------------- whole runs, nothing lost

  predicate HasEngaged(out: seq<Outgoing>) {
    exists m | m in out :: m.Engage?
  }

  /** Once it has engaged, replaying everything sent gives the controller's simulated cursor. */
  predicate Agrees(c: Config, t: Target, o: Outcome) {
    o.lost || (HasEngaged(o.out) ==> t.Replay(c.target, o.out).at == o.state.at)
  }

  /** The message is an Engage before the very end of the edge, or a delta whose sums overflow on no axis
      of more than a pixel from where the cursor is, or neither of the two. */
  predicate Followable(c: Config, at: Point, m: Outgoing) {
    match m
    case Engage(_, relPos) => relPos < 1.0
    case MouseMove(dx, dy) => (Overflows(at.x, dx) ==> c.target.w == 1) && (Overflows(at.y, dy) ==> c.target.h == 1)
    case _ => true
  }

  predicate FollowableStep(c: Config, o: Outcome, o': Outcome) {
    o'.out != [] && o'.out != o.out ==> Followable(c, o.state.at, Last(o'.out))
  }

  /** What holds of both sides whether they agree on the cursor or not. */
  predicate Paired(c: Config, t: Target, o: Outcome, n: nat) {
    && (o.state.engaged ==> HasEngaged(o.out))
    && (o.state.udp.Some? ==> t.Replay(c.target, o.out).lastSeq == o.state.udp.value <= n)
    && (HasEngaged(o.out) ==> c.target.Contains(t.Replay(c.target, o.out).at))
  }

  lemma {:induction false} PairedKept(c: Config, t: Target, o: Outcome, o': Outcome, e: Event, n: nat)
    requires StepOf(c, o, o', e) && Paired(c, t, o, n) && n < 0xFFFF_FFFF_FFFF_FFFF
    requires o'.state.engaged ==> o.state.engaged || e.EdgeCrossedEvent?
    requires e.EdgeCrossedEvent? ==> o'.out != o.out && Last(o'.out).Engage?
    ensures Paired(c, t, o', n + 1)
  {
    if o'.out != o.out {
      var m := Last(o'.out);
      ReplayOneMore(t, c.target, o.out, m);
      assert m in o'.out;
      assert HasEngaged(o'.out) <==> HasEngaged(o.out) || m.Engage?;
    }
  }

  /** If the two agreed before a message, they agree after it exactly if it can be followed. */
  lemma {:induction false} AgreesOneMore(c: Config, t: Target, o: Outcome, o': Outcome, e: Event, n: nat)
    requires c.edge.IsSide() && StepOf(c, o, o', e) && Paired(c, t, o, n) && n < 0xFFFF_FFFF_FFFF_FFFF
    requires !o.lost && !o'.lost && Agrees(c, t, o)
    ensures Agrees(c, t, o') <==> FollowableStep(c, o, o')
  {
    if o'.out != o.out {
      var m := Last(o'.out);
      ReplayOneMore(t, c.target, o.out, m);
      assert m in o'.out;
      assert HasEngaged(o'.out) <==> HasEngaged(o.out) || m.Engage?;
      match m {
        case Engage(_, relPos) => EntryAgrees(c, relPos, t.Replay(c.target, o.out));
        case MouseMove(dx, dy) => MoveAgrees(c.target, o.state.at, dx, dy);
        case _ =>
      }
    }
  }

  predicate AgreesAt(r: LoopRun, t: Target, k: nat)
    requires k <= |r.deliveries|
  {
    Agrees(r.config, t, r.After(k))
  }

  predicate AgreesUpTo(r: LoopRun, t: Target, n: nat)
    requires n <= |r.deliveries|
  {
    AgreesAt(r, t, n) && (n > 0 ==> AgreesUpTo(r, t, n - 1))
  }

  predicate FollowableAt(r: LoopRun, k: nat)
    requires k < |r.deliveries|
  {
    FollowableStep(r.config, r.After(k), r.After(k + 1))
  }

  predicate FollowableUpTo(r: LoopRun, n: nat)
    requires n <= |r.deliveries|
  {
    n > 0 ==> FollowableAt(r, n - 1) && FollowableUpTo(r, n - 1)
  }

  /** A whole session, with fewer than 2^64 events. */
  predicate Session(r: LoopRun, udp: bool) {
    r.config.edge.IsSide() && r.start == Initial(udp) && |r.deliveries| <= 0xFFFF_FFFF_FFFF_FFFF
  }

  lemma EngagingSends(c: Config, o: Outcome, d: Delivery, o': Outcome)
    requires o' == o.Then(c, d) && !o.lost && !o'.lost
    ensures o'.state.engaged ==> o.state.engaged || d.event.EdgeCrossedEvent?
    ensures d.event.EdgeCrossedEvent? ==> |o'.out| == |o.out| + 1 && Last(o'.out).Engage?
  {
  }

  lemma LosingSendsNothing(c: Config, o: Outcome, d: Delivery, o': Outcome)
    requires o' == o.Then(c, d) && o'.lost
    ensures o'.out == o.out
  {
  }

  lemma {:induction false} PairedAlways(r: LoopRun, udp: bool, t: Target, n: nat)
    requires Session(r, udp) && t.lastSeq == 0 && n <= |r.deliveries| && !r.After(n).lost
    ensures Paired(r.config, t, r.After(n), n)
  {
    if n > 0 {
      PairedAlways(r, udp, t, n - 1);
      var o, d := r.After(n - 1), r.deliveries[n - 1];
      OneStep(r.config, o, d);
      EngagingSends(r.config, o, d, r.After(n));
      PairedKept(r.config, t, o, r.After(n), d.event, n - 1);
    }
  }

  lemma {:induction false} OneMoreDelivery(r: LoopRun, udp: bool, t: Target, k: nat)
    requires Session(r, udp) && t.lastSeq == 0 && k < |r.deliveries| && AgreesAt(r, t, k)
    ensures AgreesAt(r, t, k + 1) <==> FollowableAt(r, k)
  {
    var o, d := r.After(k), r.deliveries[k];
    if r.After(k + 1).lost {
      LosingSendsNothing(r.config, o, d, r.After(k + 1));
    } else {
      PairedAlways(r, udp, t, k);
      OneStep(r.config, o, d);
      AgreesOneMore(r.config, t, o, r.After(k + 1), d.event, k);
    }
  }

  /**
   * Over TCP, over UDP and across the fallback, replaying everything sent gives exactly the controller's
   * simulated cursor after every delivery of a session, if and only if every message could be followed:
   * no Engage at the very end of the edge, and no delta that overflows an int32 where it matters.
   */
  lemma {:induction false} TargetFollows(r: LoopRun, udp: bool, t: Target, n: nat)
    requires Session(r, udp) && t.lastSeq == 0 && n <= |r.deliveries|
    ensures AgreesUpTo(r, t, n) <==> FollowableUpTo(r, n)
  {
    if n > 0 {
      TargetFollows(r, udp, t, n - 1);
      if AgreesAt(r, t, n - 1) {
        OneMoreDelivery(r, udp, t, n - 1);
      }
    }
  }

  /** A crossing before the very end of the edge, or a delta that overflows from nowhere on the screen. */
  predicate Plain(s: Size, e: Event) {
    match e
    case EdgeCrossedEvent(relPos) => relPos < 1.0
    case MouseMoveEvent(dx, dy) => s.w - 1 + dx <= MAX_INT32 && s.h - 1 + dy <= MAX_INT32
    case _ => true
  }

  lemma {:induction false} PlainIsFollowable(c: Config, t: Target, o: Outcome, o': Outcome, e: Event, n: nat)
    requires StepOf(c, o, o', e) && Paired(c, t, o, n) && !o.lost && Agrees(c, t, o) && Plain(c.target, e)
    ensures FollowableStep(c, o, o')
  {
  }

  /** In a session of such events only, the target follows after every delivery. */
  lemma {:induction false} PlainSessionsAgree(r: LoopRun, udp: bool, t: Target, n: nat)
    requires Session(r, udp) && t.lastSeq == 0 && n <= |r.deliveries|
    requires forall d | d in r.deliveries :: Plain(r.config.target, d.event)
    ensures AgreesUpTo(r, t, n)
  {
    if n > 0 {
      PlainSessionsAgree(r, udp, t, n - 1);
      var o, d := r.After(n - 1), r.deliveries[n - 1];
      OneMoreDelivery(r, udp, t, n - 1);
      if r.After(n).lost {
        LosingSendsNothing(r.config, o, d, r.After(n));
      } else {
        PairedAlways(r, udp, t, n - 1);
        OneStep(r.config, o, d);
        PlainIsFollowable(r.config, t, o, r.After(n), d.event, n - 1);
      }
    }
  }

  /** And where it does, the cursor is on the target's screen. */
  lemma AgreedIsOnScreen(r: LoopRun, udp: bool, t: Target, n: nat)
    requires Session(r, udp) && t.lastSeq == 0 && n <= |r.deliveries| && !r.After(n).lost
    requires AgreesAt(r, t, n) && HasEngaged(r.After(n).out)
    ensures r.config.target.Contains(r.After(n).state.at)
  {
    PairedAlways(r, udp, t, n);
  }

  // ---------------------------------------------------------------- UDP: loss, duplication, reordering

  function MaxSeq(from: uint64, ms: seq<Outgoing>): uint64 {
    if ms == [] then from
    else
      var m, rest := ms[|ms| - 1], MaxSeq(from, ms[..|ms| - 1]);
      if m.Position? && m.seqNo > rest then m.seqNo else rest
  }

  lemma {:induction false} MaxSeqBounds(from: uint64, ms: seq<Outgoing>)
    ensures MaxSeq(from, ms) >= from && forall m | m in ms && m.Position? :: m.seqNo <= MaxSeq(from, ms)
    ensures MaxSeq(from, ms) == from || exists m | m in ms :: m.Position? && m.seqNo == MaxSeq(from, ms)
  {
    if ms != [] {
      MaxSeqBounds(from, ms[..|ms| - 1]);
      assert ms == ms[..|ms| - 1] + [ms[|ms| - 1]];
    }
  }

  /** Whatever arrives in whatever order, the last sequence number is the highest that arrived. */
  lemma {:induction false} LastSeqIsHighest(t: Target, s: Size, arrived: seq<Outgoing>)
    ensures t.Replay(s, arrived).lastSeq == MaxSeq(t.lastSeq, arrived)
  {
    if arrived != [] {
      LastSeqIsHighest(t, s, arrived[..|arrived| - 1]);
    }
  }

  /** After a position, nothing but an Engage, a delta or a newer position moves the target. */
  lemma {:induction false} OlderPositionsIgnored(t: Target, s: Size, arrived: seq<Outgoing>)
    requires forall m | m in arrived :: !m.Engage? && !m.MouseMove? && (m.Position? ==> m.seqNo <= t.lastSeq)
    ensures t.Replay(s, arrived) == t
  {
    if arrived != [] {
      OlderPositionsIgnored(t, s, arrived[..|arrived| - 1]);
    }
  }

  predicate SeqsIncrease(out: seq<Outgoing>) {
    forall i, j | 0 <= i < j < |out| && out[i].Position? && out[j].Position? :: out[i].seqNo < out[j].seqNo
  }

  /** Position k is the newest one sent, and was sent in the last engagement. */
  predicate NewestPosition(out: seq<Outgoing>, k: nat) {
    k < |out| && out[k].Position? && forall i | k < i < |out| :: !out[i].Position? && !out[i].Engage?
  }

  /** What the UDP channel keeps true of everything sent, as long as it is up. */
  predicate OverUdp(o: Outcome, s: Size, n: nat) {
    && o.state.udp.Some? && o.state.udp.value <= n
    && SeqsIncrease(o.out)
    && (forall m | m in o.out && m.Position? :: 0 < m.seqNo <= o.state.udp.value)
    && (forall m | m in o.out :: !m.MouseMove?)
    && (forall k | 0 <= k < |o.out| && NewestPosition(o.out, k) :: o.out[k].at == o.state.at && s.Contains(o.state.at))
  }

  /**
   * Sequence numbers strictly increase over the whole session, engagements included, and the newest
   * position of the current engagement is the simulated cursor: for fewer than 2^64 captured events.
   */
  lemma {:induction false} PositionsAreOrdered(r: LoopRun, n: nat)
    requires r.start == Initial(true) && |r.deliveries| <= 0xFFFF_FFFF_FFFF_FFFF
    requires n <= |r.deliveries| && !r.After(n).lost && r.After(n).state.udp.Some?
    ensures OverUdp(r.After(n), r.config.target, n)
  {
    if n > 0 {
      PositionsAreOrdered(r, n - 1);
      OneStep(r.config, r.After(n - 1), r.deliveries[n - 1]);
      OverUdpKept(r.config, r.After(n - 1), r.After(n), r.deliveries[n - 1].event, n - 1);
    }
  }

  lemma OverUdpKept(c: Config, o: Outcome, o': Outcome, e: Event, n: nat)
    requires OverUdp(o, c.target, n) && n < 0xFFFF_FFFF_FFFF_FFFF && StepOf(c, o, o', e) && o'.state.udp.Some?
    ensures OverUdp(o', c.target, n + 1)
  {
    if o'.out != o.out {
      var m := Last(o'.out);
      forall k | 0 <= k < |o'.out| && NewestPosition(o'.out, k)
        ensures o'.out[k].at == o'.state.at && c.target.Contains(o'.state.at)
      {
        if k < |o.out| {
          assert o'.out[|o.out|] == m;
          assert forall i | 0 <= i < |o.out| :: o'.out[i] == o.out[i];
          assert NewestPosition(o.out, k);
        }
      }
    }
  }

  /** The target has applied a later packet: an earlier one that arrives after it changes nothing. */
  lemma OlderEngagementNeverOverrides(r: LoopRun, n: nat, t: Target, arrived: seq<Outgoing>, i: nat, j: nat)
    requires r.start == Initial(true) && |r.deliveries| <= 0xFFFF_FFFF_FFFF_FFFF
    requires n <= |r.deliveries| && !r.After(n).lost && r.After(n).state.udp.Some?
    requires i < j < |r.After(n).out| && r.After(n).out[i].Position? && r.After(n).out[j].Position?
    requires r.After(n).out[j] in arrived
    ensures var s := r.config.target;
            t.Replay(s, arrived + [r.After(n).out[i]]) == t.Replay(s, arrived)
  {
    PositionsAreOrdered(r, n);
    LastSeqIsHighest(t, r.config.target, arrived);
    MaxSeqBounds(t.lastSeq, arrived);
    ReplayOneMore(t, r.config.target, arrived, r.After(n).out[i]);
  }

  /** No two positions with one sequence number. */
  predicate OnePerSeq(ms: seq<Outgoing>) {
    forall m, m' | m in ms && m' in ms && m.Position? && m'.Position? && m.seqNo == m'.seqNo :: m == m'
  }

  /** The position with this sequence number, if it is there, is where the cursor is. */
  predicate SettledOn(s: Size, at: Point, ms: seq<Outgoing>, hi: uint64) {
    forall m | m in ms && m.Position? && m.seqNo == hi :: at == ClampTo(s, m.at)
  }

  /** Where positions leave the cursor, in whatever order they arrive: at the newest of them, if it is
      newer than all before, else where it was. */
  lemma {:induction false} WherePositionsLead(t: Target, s: Size, ms: seq<Outgoing>)
    requires OnePerSeq(ms) && forall m | m in ms :: !m.Engage? && !m.MouseMove?
    ensures var hi, at := MaxSeq(t.lastSeq, ms), t.Replay(s, ms).at;
            if hi == t.lastSeq then at == t.at else SettledOn(s, at, ms, hi)
  {
    if ms != [] {
      var init, last := ms[..|ms| - 1], ms[|ms| - 1];
      assert ms == init + [last];
      WherePositionsLead(t, s, init);
      LastSeqIsHighest(t, s, init);
      MaxSeqBounds(t.lastSeq, init);
      LastArrival(t, s, init, last);
    }
  }

  lemma LastArrival(t: Target, s: Size, init: seq<Outgoing>, last: Outgoing)
    requires OnePerSeq(init + [last]) && !last.Engage? && !last.MouseMove?
    requires t.Replay(s, init).lastSeq == MaxSeq(t.lastSeq, init) >= t.lastSeq
    requires MaxSeq(t.lastSeq, init) == t.lastSeq || exists m | m in init ::
             m.Position? && m.seqNo == MaxSeq(t.lastSeq, init)
    requires forall m | m in init && m.Position? :: m.seqNo <= MaxSeq(t.lastSeq, init)
    requires var hi, at := MaxSeq(t.lastSeq, init), t.Replay(s, init).at;
             if hi == t.lastSeq then at == t.at else SettledOn(s, at, init, hi)
    ensures var ms := init + [last];
            var hi, at := MaxSeq(t.lastSeq, ms), t.Replay(s, ms).at;
            if hi == t.lastSeq then at == t.at else SettledOn(s, at, ms, hi)
  {
    var ms := init + [last];
    assert ms[..|ms| - 1] == init;
    assert last in ms;
    assert forall m | m in init :: m in ms;
  }

  /**
   * Convergence: whatever was lost, duplicated or reordered, once the newest position of the last
   * engagement has arrived, the target is where the controller has it if that position arrived after the
   * last Engage, and still at that Engage's entry point if it had overtaken it.
   */
  lemma TargetConverges(r: LoopRun, n: nat, t: Target, before: seq<Outgoing>, e: Outgoing, after: seq<Outgoing>, k: nat)
    requires r.start == Initial(true) && |r.deliveries| <= 0xFFFF_FFFF_FFFF_FFFF && t.lastSeq == 0
    requires n <= |r.deliveries| && !r.After(n).lost && r.After(n).state.udp.Some?
    requires e.Engage? && forall m | m in before + after :: m in r.After(n).out
    requires forall m | m in after :: !m.Engage?
    requires NewestPosition(r.After(n).out, k) && r.After(n).out[k] in before + after
    ensures t.Replay(r.config.target, before + [e] + after).at ==
            if r.After(n).out[k] !in before then r.After(n).state.at
            else ClampTo(r.config.target, EntryPosition(e.edge.Opposite(), e.relPos, r.config.target))
  {
    PositionsAreOrdered(r, n);
    ArrivalSettles(r.config.target, r.After(n), n, t, before, e, after, k);
  }

  lemma ArrivalSettles(s: Size, o: Outcome, n: nat, t: Target, before: seq<Outgoing>, e: Outgoing,
      after: seq<Outgoing>, k: nat)
    requires OverUdp(o, s, n) && t.lastSeq == 0 && e.Engage? && NewestPosition(o.out, k) && o.out[k] in before + after
    requires forall m | m in before + after :: m in o.out
    requires forall m | m in after :: !m.Engage?
    ensures t.Replay(s, before + [e] + after).at ==
            if o.out[k] in before then ClampTo(s, EntryPosition(e.edge.Opposite(), e.relPos, s)) else o.state.at
  {
    assert forall m | m in before :: m in before + after;
    assert forall m | m in after :: m in before + after;
    NewestIsHighest(o, s, n, k);
    MaxSeqBounds(0, before);
    LastSeqIsHighest(t, s, before);
    ReplayOneMore(t, s, before, e);
    var entered := t.Replay(s, before + [e]);
    ReplayInParts(t, s, before + [e], after);
    MaxSeqBounds(entered.lastSeq, after);
    WherePositionsLead(entered, s, after);
  }

  lemma NewestIsHighest(o: Outcome, s: Size, n: nat, k: nat)
    requires OverUdp(o, s, n) && NewestPosition(o.out, k)
    ensures OnePerSeq(o.out) && o.out[k].seqNo > 0 && o.out[k].at == o.state.at && s.Contains(o.state.at)
    ensures forall m | m in o.out && m.Position? :: m == o.out[k] || m.seqNo < o.out[k].seqNo
    ensures forall m | m in o.out :: !m.MouseMove?
  {
    assert o.out[k] in o.out;
  }
}
