/**
 * In every interleaving the loop's side is a run of the sequential loop, so what holds of every LoopRun
 * (Release, Replication) holds of the two threads together.
 */
module HandoverRefinement {
  import opened Capture
  import opened CaptureWindows
  import opened EdgeLoop
  import opened EdgeMath
  import opened Edges
  import opened Handover
  import opened HandoverSafety
  import opened Replication
  import opened Wrappers

  /** What the loop has taken off the channel in the first n steps. */
  function TakenIn(states: seq<System>, steps: seq<Step>, n: nat): seq<Delivery>
    requires Run(states, steps) && n < |states|
  {
    if n == 0 then []
    else if steps[n - 1].LoopTake? then
      assert StepAt(states, steps, n - 1);
      TakenIn(states, steps, n - 1) + [DeliveryOf(states[n - 1], steps[n - 1])]
    else TakenIn(states, steps, n - 1)
  }

  function DeliveryOf(s: System, step: Step): Delivery
    requires step.LoopTake? && Enabled(s, step)
  {
    Delivery(s.queue[0].event, step.tcpOk, step.udpOk)
  }

  function Messages(wire: seq<Wired>): (ms: seq<Outgoing>)
    ensures |ms| == |wire|
  {
    seq(|wire|, i requires 0 <= i < |wire| => wire[i].message)
  }

  /** The warps made and the one under way. */
  function WarpsStarted(s: System): seq<Point> {
    match s.pc
    case BeforeStore(warp) => s.warps + [warp]
    case BeforeWarp(warp) => s.warps + [warp]
    case _ => s.warps
  }

  /** The loop's variables, with a Disengage under way already completed. */
  function Settled(s: System): State {
    if s.pc.Waiting? || s.pc.Stopped? then s.loop else s.loop.(engaged := false)
  }

  /** The system's loop has done what the sequential loop has. */
  predicate Simulates(s: System, o: Outcome) {
    && Messages(s.wire) == o.out
    && WarpsStarted(s) == o.warps
    && Settled(s) == o.state
    && (s.pc.Stopped? <==> o.lost)
  }

  lemma TakeSimulates(s: System, d: Delivery, o: Outcome)
    requires s.pc.Waiting? && s.queue != [] && s.queue[0].id < |s.calls| && d.event == s.queue[0].event &&
             Simulates(s, o)
    ensures Simulates(Taken(s, s.config.React(s.loop, d)), o.Then(s.config, d))
  {
    var r := s.config.React(s.loop, d);
    if r.Continue? {
      assert Messages(Taken(s, r).wire) == Messages(s.wire) + r.out;
    }
  }

  lemma OtherStepSimulates(s: System, step: Step, o: Outcome)
    requires Enabled(s, step) && !step.LoopTake? && Simulates(s, o)
    ensures Simulates(Apply(s, step), o)
  {
  }

  lemma {:induction false} LongerRunAgrees(r: LoopRun, d: Delivery, n: nat)
    requires n <= |r.deliveries|
    ensures r.(deliveries := r.deliveries + [d]).After(n) == r.After(n)
  {
    if n > 0 {
      LongerRunAgrees(r, d, n - 1);
    }
  }

  lemma TakeRefines(s: System, d: Delivery, r: LoopRun)
    requires s.pc.Waiting? && s.queue != [] && s.queue[0].id < |s.calls| && d.event == s.queue[0].event
    requires r.config == s.config && Simulates(s, r.After(|r.deliveries|))
    ensures var longer := r.(deliveries := r.deliveries + [d]);
            Simulates(Taken(s, s.config.React(s.loop, d)), longer.After(|longer.deliveries|))
  {
    TakeSimulates(s, d, r.After(|r.deliveries|));
    LongerRunAgrees(r, d, |r.deliveries|);
  }

  lemma ConfigKept(s: System, step: Step)
    requires Enabled(s, step)
    ensures Apply(s, step).config == s.config
  {
  }

  function SequentialRun(states: seq<System>, steps: seq<Step>, n: nat, udp: bool): LoopRun
    requires Run(states, steps) && n < |states|
  {
    LoopRun(states[0].config, Initial(udp), TakenIn(states, steps, n))
  }

  /**
   * Refinement: whatever the hook thread does in between, after n steps the messages on the wire, the
   * warps, the loop's variables and whether it has stopped are those of the sequential loop on what was
   * taken off the channel.
   */
  lemma {:induction false} LoopRefines(states: seq<System>, steps: seq<Step>, n: nat, udp: bool)
    requires Run(states, steps) && n < |states| && states[0] == Start(states[0].config, udp)
    ensures var r := SequentialRun(states, steps, n, udp); Simulates(states[n], r.After(|r.deliveries|))
    ensures states[n].config == states[0].config
  {
    if n > 0 {
      LoopRefines(states, steps, n - 1, udp);
      var r := SequentialRun(states, steps, n - 1, udp);
      var s, step := states[n - 1], steps[n - 1];
      assert StepAt(states, steps, n - 1);
      ConfigKept(s, step);
      if step.LoopTake? {
        TakeRefines(s, DeliveryOf(s, step), r);
      } else {
        OtherStepSimulates(s, step, r.After(|r.deliveries|));
      }
    }
  }

  // ---------------------------------------------------------------- what follows

  /** A point on the controller's screen that does not count as a crossing. */
  predicate SafeWarp(c: Config, p: Point) {
    c.bounds.Contains(p) && EdgeCrossed(c.edge, c.bounds, p).None?
  }

  predicate AllSafe(c: Config, warps: seq<Point>) {
    forall w | w in warps :: SafeWarp(c, w)
  }

  lemma {:induction false} WarpsAreSafe(r: LoopRun, n: nat)
    requires r.config.edge.IsSide() && r.config.bounds.size.Depth(r.config.edge) >= 2 && n <= |r.deliveries|
    ensures AllSafe(r.config, r.After(n).warps)
  {
    if n > 0 {
      WarpsAreSafe(r, n - 1);
      StaysSafe(r.config, r.After(n - 1), r.deliveries[n - 1], r.After(n));
    }
  }

  lemma StaysSafe(c: Config, o: Outcome, d: Delivery, o': Outcome)
    requires c.edge.IsSide() && c.bounds.size.Depth(c.edge) >= 2 && o' == o.Then(c, d) && AllSafe(c, o.warps)
    ensures AllSafe(c, o'.warps)
  {
    if o'.warps != o.warps {
      var p := Shift(o.state.at, d.event.dx, d.event.dy);
      OneSafeWarp(c, p);
      assert o'.warps == o.warps + [c.Warp(p)];
    }
  }

  lemma OneSafeWarp(c: Config, p: Point)
    requires c.edge.IsSide() && c.bounds.size.Depth(c.edge) >= 2
    ensures SafeWarp(c, c.Warp(p))
  {
    WarpDoesNotCross(c.edge, c.bounds, c.target, ClampTo(c.target, p));
  }

  /** Every release of every interleaving warps the cursor to where it cannot re-engage by itself. */
  lemma NoWarpReengages(states: seq<System>, steps: seq<Step>, n: nat, w: Point)
    requires Run(states, steps) && n < |states| && w in states[n].warps
    requires states[0].config.bounds.size.Depth(states[0].config.edge) >= 2
    ensures SafeWarp(states[0].config, w)
  {
    var udp :| states[0] == Start(states[0].config, udp);
    LoopRefines(states, steps, n, udp);
    var r := SequentialRun(states, steps, n, udp);
    WarpsAreSafe(r, |r.deliveries|);
  }

  /** A target that replays what is on the wire has its cursor where the loop's simulation has it. */
  predicate WireAgrees(s: System, t: Target) {
    s.pc.Stopped? || (HasEngaged(Messages(s.wire)) ==> t.Replay(s.config.target, Messages(s.wire)).at == s.loop.at)
  }

  predicate WireAgreesUpTo(states: seq<System>, t: Target, n: nat)
    requires n < |states|
  {
    WireAgrees(states[n], t) && (n > 0 ==> WireAgreesUpTo(states, t, n - 1))
  }

  lemma {:induction false} SimulatedAgrees(s: System, t: Target, o: Outcome)
    requires Simulates(s, o)
    ensures WireAgrees(s, t) <==> Agrees(s.config, t, o)
  {
  }

  lemma {:induction false} LongerRunAgreesAt(r: LoopRun, d: Delivery, t: Target, k: nat)
    requires k <= |r.deliveries|
    ensures AgreesAt(r.(deliveries := r.deliveries + [d]), t, k) <==> AgreesAt(r, t, k)
  {
    LongerRunAgrees(r, d, k);
  }

  /** Two runs that agree with the target on the same deliveries. */
  predicate Alike(r: LoopRun, longer: LoopRun, t: Target, k: nat) {
    k <= |r.deliveries| <= |longer.deliveries| && (AgreesAt(longer, t, k) <==> AgreesAt(r, t, k))
  }

  lemma {:induction false} AlikeUpTo(r: LoopRun, longer: LoopRun, t: Target, k: nat)
    requires k <= |r.deliveries| <= |longer.deliveries|
    requires forall i | 0 <= i <= k :: Alike(r, longer, t, i)
    ensures AgreesUpTo(longer, t, k) <==> AgreesUpTo(r, t, k)
  {
    assert Alike(r, longer, t, k);
    if k > 0 {
      AlikeUpTo(r, longer, t, k - 1);
    }
  }

  lemma {:induction false} LongerRunAgreesUpTo(r: LoopRun, d: Delivery, t: Target)
    ensures var longer, k := r.(deliveries := r.deliveries + [d]), |r.deliveries|;
            AgreesUpTo(longer, t, k) <==> AgreesUpTo(r, t, k)
  {
    var longer, k := r.(deliveries := r.deliveries + [d]), |r.deliveries|;
    forall i | 0 <= i <= k
      ensures Alike(r, longer, t, i)
    {
      LongerRunAgreesAt(r, d, t, i);
    }
    AlikeUpTo(r, longer, t, k);
  }

  lemma {:induction false} LastAgrees(states: seq<System>, steps: seq<Step>, n: nat, udp: bool, t: Target)
    requires Run(states, steps) && n < |states| && states[0] == Start(states[0].config, udp)
    ensures var r := SequentialRun(states, steps, n, udp); WireAgrees(states[n], t) <==> AgreesAt(r, t, |r.deliveries|)
  {
    var r := SequentialRun(states, steps, n, udp);
    LoopRefines(states, steps, n, udp);
    SimulatedAgrees(states[n], t, r.After(|r.deliveries|));
  }

  lemma {:induction false} RunAgreesOneMore(states: seq<System>, steps: seq<Step>, n: nat, udp: bool, t: Target)
    requires Run(states, steps) && 0 < n < |states|
    ensures var before, r := SequentialRun(states, steps, n - 1, udp), SequentialRun(states, steps, n, udp);
            AgreesUpTo(r, t, |r.deliveries|) <==>
                AgreesUpTo(before, t, |before.deliveries|) && AgreesAt(r, t, |r.deliveries|)
  {
    if steps[n - 1].LoopTake? {
      assert StepAt(states, steps, n - 1);
      LongerRunAgreesUpTo(SequentialRun(states, steps, n - 1, udp), DeliveryOf(states[n - 1], steps[n - 1]), t);
    }
  }

  /** Up to state n the wire agrees exactly if the run does. */
  predicate Matches(states: seq<System>, t: Target, n: nat, r: LoopRun)
    requires n < |states|
  {
    WireAgreesUpTo(states, t, n) <==> AgreesUpTo(r, t, |r.deliveries|)
  }

  lemma {:induction false} MatchesOneMore(states: seq<System>, t: Target, n: nat, before: LoopRun, r: LoopRun)
    requires 0 < n < |states| && Matches(states, t, n - 1, before)
    requires WireAgrees(states[n], t) <==> AgreesAt(r, t, |r.deliveries|)
    requires AgreesUpTo(r, t, |r.deliveries|) <==>
             AgreesUpTo(before, t, |before.deliveries|) && AgreesAt(r, t, |r.deliveries|)
    ensures Matches(states, t, n, r)
  {
  }

  lemma {:induction false} MatchesFirst(states: seq<System>, t: Target, r: LoopRun)
    requires |states| > 0 && r.deliveries == [] && (WireAgrees(states[0], t) <==> AgreesAt(r, t, 0))
    ensures Matches(states, t, 0, r)
  {
  }

  lemma {:induction false} WireAgreesAsRun(states: seq<System>, steps: seq<Step>, n: nat, udp: bool, t: Target)
    requires Run(states, steps) && n < |states| && states[0] == Start(states[0].config, udp)
    ensures Matches(states, t, n, SequentialRun(states, steps, n, udp))
  {
    var r := SequentialRun(states, steps, n, udp);
    LastAgrees(states, steps, n, udp, t);
    if n == 0 {
      MatchesFirst(states, t, r);
    } else {
      WireAgreesAsRun(states, steps, n - 1, udp, t);
      RunAgreesOneMore(states, steps, n, udp, t);
      MatchesOneMore(states, t, n, SequentialRun(states, steps, n - 1, udp), r);
    }
  }

  /**
   * In every interleaving, a target that replays what is on the wire has its cursor where the loop's
   * simulation has it, in every state up to this one, if and only if every message could be followed.
   */
  lemma TargetFollowsTheWire(states: seq<System>, steps: seq<Step>, n: nat, udp: bool, t: Target)
    requires Run(states, steps) && n < |states| && states[0] == Start(states[0].config, udp)
    requires t.lastSeq == 0 && |TakenIn(states, steps, n)| <= 0xFFFF_FFFF_FFFF_FFFF
    ensures var r := SequentialRun(states, steps, n, udp);
            WireAgreesUpTo(states, t, n) <==> FollowableUpTo(r, |r.deliveries|)
  {
    var r := SequentialRun(states, steps, n, udp);
    WireAgreesAsRun(states, steps, n, udp, t);
    TargetFollows(r, udp, t, |r.deliveries|);
  }
}
