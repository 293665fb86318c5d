/** The engagements of a whole session: each is a run of its own, from its crossing up to the next one. */
module Engagements {
  import opened Capture
  import opened EdgeLoop
  import opened EdgeMath
  import opened Edges
  import opened Integers
  import opened Release

  /** What was done first, and then from the variables it left. */
  function Appended(o: Outcome, o': Outcome): Outcome {
    Outcome(o'.state, o.out + o'.out, o.warps + o'.warps, o.pastes + o'.pastes, o'.lost)
  }

  lemma NothingAppended(o: Outcome)
    requires !o.lost
    ensures Appended(o, Outcome(o.state, [], [], [], false)) == o
  {
  }

  lemma AppendedThen(c: Config, o: Outcome, o': Outcome, d: Delivery)
    ensures Appended(o, o').Then(c, d) == Appended(o, o'.Then(c, d))
  {
    var next := Appended(o, o').Then(c, d);
    assert next.out == Appended(o, o'.Then(c, d)).out;
    assert next.warps == Appended(o, o'.Then(c, d)).warps;
    assert next.pastes == Appended(o, o'.Then(c, d)).pastes;
  }

  // ---------------------------------------------------------------- a session, outcome by outcome

  /** The deliveries of a session, and the outcome before each of them and after the last. */
  datatype Record = Record(config: Config, deliveries: seq<Delivery>, outcomes: seq<Outcome>) {
    predicate Leads(i: nat)
      requires i < |deliveries| < |outcomes|
    {
      outcomes[i + 1] == outcomes[i].Then(config, deliveries[i])
    }

    predicate Valid() {
      |outcomes| == |deliveries| + 1 && forall i | 0 <= i < |deliveries| :: Leads(i)
    }

    /** Deliveries n up to e, run from the variables that the first n leave. */
    function Between(n: nat, e: nat): LoopRun
      requires n <= e <= |deliveries| < |outcomes|
    {
      LoopRun(config, outcomes[n].state, deliveries[n..e])
    }

    /** Of the first n deliveries, c is the latest crossing. */
    predicate Latest(c: nat, n: nat)
      requires n <= |deliveries|
    {
      c < n && deliveries[c].event.EdgeCrossedEvent? && NoCrossing(deliveries, c + 1, n)
    }

    predicate HasCrossed(n: nat)
      requires n <= |deliveries|
    {
      exists c: nat | c < n :: Latest(c, n)
    }

    /** No delivery since crossing c has released. */
    predicate UnreleasedSince(c: nat, n: nat)
      requires c < n <= |deliveries| < |outcomes|
    {
      Unreleased(Between(c + 1, n), n - c - 1)
    }
  }

  function RecordOf(r: LoopRun): Record {
    Record(r.config, r.deliveries, seq(|r.deliveries| + 1, i requires 0 <= i <= |r.deliveries| => r.After(i)))
  }

  /** Every session has its record, made of what the fold makes of its deliveries. */
  lemma RecordIsValid(r: LoopRun, n: nat)
    requires n <= |r.deliveries|
    ensures RecordOf(r).Valid() && RecordOf(r).outcomes[n] == r.After(n)
  {
    var h := RecordOf(r);
    forall i | 0 <= i < |h.deliveries|
      ensures h.Leads(i)
    {
      assert h.outcomes[i + 1] == r.After(i + 1) == r.After(i).Then(r.config, r.deliveries[i]);
    }
  }

  lemma SplitNext(h: Record, n: nat, m: nat, g: LoopRun, o: Outcome, s: Outcome)
    requires h.Valid() && n + m < |h.deliveries| && m < |g.deliveries| && g.config == h.config
    requires g.deliveries[m] == h.deliveries[n + m] && s == g.After(m) && h.outcomes[n + m] == Appended(o, s)
    ensures h.outcomes[n + m + 1] == Appended(o, g.After(m + 1))
  {
    assert h.Leads(n + m);
    AppendedThen(h.config, o, s, g.deliveries[m]);
  }

  /** A session can be split anywhere before the connection is lost: n + m deliveries do what n do, and
      then what the m after them do from there. */
  lemma {:induction false} SplitAt(h: Record, n: nat, e: nat, m: nat, g: LoopRun)
    requires h.Valid() && n <= e <= |h.deliveries| && m <= e - n
    requires g == h.Between(n, e) && !h.outcomes[n].lost
    ensures h.outcomes[n + m] == Appended(h.outcomes[n], g.After(m))
  {
    if m == 0 {
      NothingAppended(h.outcomes[n]);
    } else {
      SplitAt(h, n, e, m - 1, g);
      SplitNext(h, n, m - 1, g, h.outcomes[n], g.After(m - 1));
    }
  }

  lemma {:induction false} NotLostBefore(h: Record, k: nat, n: nat)
    requires h.Valid() && k <= n <= |h.deliveries| && !h.outcomes[n].lost
    ensures !h.outcomes[k].lost
  {
    if k < n {
      assert h.Leads(n - 1);
      NotLostBefore(h, k, n - 1);
    }
  }

  // ---------------------------------------------------------------- every engagement

  lemma CrossedNow(c: Config, o: Outcome, d: Delivery)
    requires d.event.EdgeCrossedEvent? && !o.lost && !o.Then(c, d).lost
    ensures d.tcpOk && c.React(o.state, d).Continue? && o.Then(c, d).state == c.React(o.state, d).state
  {
  }

  /** What follows a crossing, up to the next one, is one engagement, and starts where the crossing enters. */
  lemma {:induction false} LatestStarts(h: Record, c: nat, e: nat)
    requires h.Valid() && e <= |h.deliveries| && h.Latest(c, e) && !h.outcomes[c + 1].lost
    ensures OneEngagement(h.Between(c + 1, e))
    ensures h.outcomes[c + 1].state.at ==
            EntryPosition(h.config.EntryEdge(), h.deliveries[c].event.relPos, h.config.target)
  {
    NotLostBefore(h, c, c + 1);
    assert h.Leads(c);
    CrossedNow(h.config, h.outcomes[c], h.deliveries[c]);
    CrossingStartsEngagement(h.config, h.outcomes[c].state, h.deliveries[c], h.deliveries[c + 1..e]);
  }

  /** How the session stands j deliveries into an engagement that began with outcome o. */
  predicate StandsIn(g: LoopRun, j: nat, o: Outcome, o': Outcome)
    requires j <= |g.deliveries|
  {
    && (o'.state.engaged <==> Unreleased(g, j))
    && |o'.warps| == |o.warps| + (if o'.state.engaged then 0 else 1) && o.warps <= o'.warps
    && (o'.state.engaged ==> o'.state.at == PositionAt(g, j) && (o'.state.movedAway <==> LeftEdge(g, j)))
  }

  lemma AppendedStands(g: LoopRun, j: nat, o: Outcome, s: Outcome)
    requires j <= |g.deliveries| && Stands(g, j, s)
    ensures StandsIn(g, j, o, Appended(o, s))
  {
  }

  lemma EngagementFrom(g: LoopRun, j: nat, o: Outcome)
    requires OneEngagement(g) && j <= |g.deliveries| && !g.After(j).lost
    ensures StandsIn(g, j, o, Appended(o, g.After(j)))
  {
    EngagedUntilRelease(g, j);
    AppendedStands(g, j, o, g.After(j));
  }

  /**
   * Every engagement of a session, from its crossing c up to the next one at e: j deliveries on, the loop
   * is engaged exactly if none of them releases, and has warped the cursor once if one did.
   */
  lemma {:induction false} EveryEngagement(h: Record, c: nat, e: nat, j: nat, g: LoopRun)
    requires h.Valid() && e <= |h.deliveries| && h.Latest(c, e) && g == h.Between(c + 1, e)
    requires j < e - c && !h.outcomes[c + 1 + j].lost
    ensures StandsIn(g, j, h.outcomes[c + 1], h.outcomes[c + 1 + j])
  {
    NotLostBefore(h, c + 1, c + 1 + j);
    LatestStarts(h, c, e);
    SplitAt(h, c + 1, e, j, g);
    EngagementFrom(g, j, h.outcomes[c + 1]);
  }

  /** Delivery j of an engagement released it, with that move's warp, and nothing was sent for it. */
  predicate ReleasedBy(g: LoopRun, j: nat, o: Outcome, o': Outcome)
    requires j < |g.deliveries| && ReleasesAt(g, j)
  {
    o.state.engaged && !o'.state.engaged && o'.out == o.out && o'.warps == o.warps + [ReleaseWarp(g, j)]
  }

  lemma {:induction false} ReleasesNow(g: LoopRun, j: nat, o: Outcome, o': Outcome)
    requires j < |g.deliveries| && ReleasesAt(g, j) && !o.lost && o' == o.Then(g.config, g.deliveries[j])
    requires o.state.engaged && o.state.movedAway && o.state.at == PositionAt(g, j)
    ensures ReleasedBy(g, j, o, o')
  {
  }

  /** It is released by the first delivery that the rule names. */
  lemma {:induction false} EveryRelease(h: Record, c: nat, e: nat, j: nat, g: LoopRun)
    requires h.Valid() && e <= |h.deliveries| && h.Latest(c, e) && g == h.Between(c + 1, e)
    requires j < e - c - 1 && !h.outcomes[c + 1 + j].lost && ReleasesAt(g, j) && Unreleased(g, j)
    ensures ReleasedBy(g, j, h.outcomes[c + 1 + j], h.outcomes[c + 1 + j + 1])
  {
    EveryEngagement(h, c, e, j, g);
    assert h.Leads(c + 1 + j);
    ReleasesNow(g, j, h.outcomes[c + 1 + j], h.outcomes[c + 1 + j + 1]);
  }

  lemma {:induction false} IdleWithoutCrossing(h: Record, n: nat)
    requires h.Valid() && n <= |h.deliveries| && !h.outcomes[0].state.engaged && NoCrossing(h.deliveries, 0, n)
    ensures !h.outcomes[n].state.engaged
  {
    if n > 0 {
      IdleWithoutCrossing(h, n - 1);
      assert h.Leads(n - 1) && !h.deliveries[n - 1].event.EdgeCrossedEvent?;
    }
  }

  lemma {:induction false} LatestExists(h: Record, n: nat)
    requires n <= |h.deliveries|
    ensures NoCrossing(h.deliveries, 0, n) || h.HasCrossed(n)
  {
    if n > 0 {
      if h.deliveries[n - 1].event.EdgeCrossedEvent? {
        assert h.Latest(n - 1, n);
      } else {
        LatestExists(h, n - 1);
        if h.HasCrossed(n - 1) {
          var c: nat :| c < n - 1 && h.Latest(c, n - 1);
          assert h.Latest(c, n);
        }
      }
    }
  }

  lemma {:induction false} EngagedSinceLatest(h: Record, c: nat, n: nat)
    requires h.Valid() && n <= |h.deliveries| && h.Latest(c, n) && !h.outcomes[n].lost
    ensures h.outcomes[n].state.engaged <==> h.UnreleasedSince(c, n)
  {
    EveryEngagement(h, c, n, n - c - 1, h.Between(c + 1, n));
  }

  /** At any point of a session, the loop is engaged exactly if no delivery since the latest crossing released. */
  lemma {:induction false} EngagedSinceCrossing(h: Record, n: nat)
    requires h.Valid() && n <= |h.deliveries| && !h.outcomes[0].state.engaged && !h.outcomes[n].lost
    ensures h.outcomes[n].state.engaged <==> exists c: nat | c < n :: h.Latest(c, n) && h.UnreleasedSince(c, n)
  {
    forall c: nat | c < n && h.Latest(c, n)
      ensures h.outcomes[n].state.engaged <==> h.UnreleasedSince(c, n)
    {
      EngagedSinceLatest(h, c, n);
    }
    LatestExists(h, n);
    if NoCrossing(h.deliveries, 0, n) {
      IdleWithoutCrossing(h, n);
    }
  }

  // ---------------------------------------------------------------- there and back

  /**
   * An engagement that crossed at p, never moved along the edge, and is released by delivery j, warps the
   * cursor back to within the bounds of a round trip from p.
   */
  lemma {:induction false} UnmovedSessionRoundTrip(h: Record, c: nat, e: nat, j: nat, p: Point, g: LoopRun)
    returns (offset: nat, entered: int32, back: int32)
    requires h.Valid() && e <= |h.deliveries| && h.Latest(c, e) && g == h.Between(c + 1, e)
    requires j < |g.deliveries| && !h.outcomes[c + 1 + j].lost && Unreleased(g, j)
    requires Unmoved(g, j, p, h.deliveries[c].event.relPos)
    ensures CameBack(h.config, p, ReleaseWarp(g, j), offset, entered, back)
    ensures ReleasedBy(g, j, h.outcomes[c + 1 + j], h.outcomes[c + 1 + j + 1])
  {
    NotLostBefore(h, c + 1, c + 1 + j);
    LatestStarts(h, c, e);
    EveryRelease(h, c, e, j, g);
    offset, entered, back := UnmovedComesBack(g, j, p, h.deliveries[c].event.relPos);
  }
}
