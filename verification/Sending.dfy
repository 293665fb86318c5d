/**
 * Which message each delivery sends, over which channel, and when a session ends: of one delivery, and of
 * whole sessions.
 */
module Sending {
  import opened Capture
  import opened EdgeLoop
  import opened EdgeMath
  import opened Edges
  import opened Engagements
  import opened Integers
  import opened Wrappers

  /** The motion hands control back: it pushes out over the entry edge, which the cursor had left. */
  predicate HandsBack(c: Config, s: State, e: Event) {
    && s.engaged && s.movedAway && e.MouseMoveEvent?
    && PushesPast(c.EntryEdge(), Shift(s.at, e.dx, e.dy), c.target)
  }

  /** The event is a motion that is forwarded. */
  predicate Moves(c: Config, s: State, e: Event) {
    s.engaged && e.MouseMoveEvent? && !HandsBack(c, s, e)
  }

  /** A motion goes over UDP while that channel is up and the write to it succeeds. */
  predicate GoesOverUdp(c: Config, s: State, d: Delivery) {
    Moves(c, s, d.event) && s.udp.Some? && d.udpOk
  }

  /** The message that needs the main connection, if there is one. */
  function OverTcp(c: Config, s: State, d: Delivery): Option<Outgoing> {
    match d.event
    case EdgeCrossedEvent(relPos) => Some(Engage(c.edge, relPos))
    case KeyEvent(key, down) => if s.engaged then Some(Key(key, down)) else None
    case MouseButtonEvent(button, down) => if s.engaged then Some(MouseButton(button, down)) else None
    case MouseWheelEvent(amount) => if s.engaged then Some(MouseWheel(amount)) else None
    case MouseMoveEvent(dx, dy) =>
      if Moves(c, s, d.event) && !GoesOverUdp(c, s, d) then Some(MouseMove(dx, dy)) else None
    case HotkeyPasteEvent => None
  }

  /** A uint64, one up. */
  function Next(n: uint64): uint64 {
    (n + 1) % 0x1_0000_0000_0000_0000
  }

  /** The messages that a delivery sends, in the state before it and with the cursor after it. */
  function SentFor(c: Config, s: State, d: Delivery, at: Point): seq<Outgoing> {
    if GoesOverUdp(c, s, d) then [Position(Next(s.udp.value), at)]
    else if OverTcp(c, s, d).Some? && d.tcpOk then [OverTcp(c, s, d).value]
    else []
  }

  /** What one delivery sends, whether it ends the session, and what else it does. */
  predicate Exactly(c: Config, o: Outcome, d: Delivery, o': Outcome) {
    var s, e := o.state, d.event;
    && o'.out == o.out + SentFor(c, s, d, o'.state.at)
    && (o'.lost <==> OverTcp(c, s, d).Some? && !d.tcpOk)
    && o'.pastes == o.pastes + (if e.HotkeyPasteEvent? && c.clipboard then [s.engaged] else [])
    && |o'.warps| == |o.warps| + (if HandsBack(c, s, e) then 1 else 0)
    && (o'.state.engaged <==> e.EdgeCrossedEvent? || (s.engaged && !HandsBack(c, s, e)))
    && o'.state.udp == if GoesOverUdp(c, s, d) then Some(Next(s.udp.value)) else if Moves(c, s, e) then None else s.udp
  }

  lemma MotionSendsExactly(c: Config, o: Outcome, d: Delivery)
    requires !o.lost && d.event.MouseMoveEvent?
    ensures Exactly(c, o, d, o.Then(c, d))
  {
  }

  /** One delivery sends exactly what it should: each event its own message, on the channel that is due. */
  lemma SendsExactly(c: Config, o: Outcome, d: Delivery)
    requires !o.lost
    ensures Exactly(c, o, d, o.Then(c, d))
  {
    if d.event.MouseMoveEvent? {
      MotionSendsExactly(c, o, d);
    }
  }

  // ---------------------------------------------------------------- whole sessions

  /** Delivery i needs the main connection, and the write to it fails. */
  predicate FailsAt(h: Record, i: nat)
    requires i < |h.deliveries| < |h.outcomes|
  {
    OverTcp(h.config, h.outcomes[i].state, h.deliveries[i]).Some? && !h.deliveries[i].tcpOk
  }

  predicate FailsBefore(h: Record, n: nat)
    requires n <= |h.deliveries| < |h.outcomes|
  {
    exists i | 0 <= i < n :: FailsAt(h, i)
  }

  lemma Stays(c: Config, o: Outcome, d: Delivery)
    requires o.lost
    ensures o.Then(c, d) == o
  {
  }

  /** A session is lost exactly once a delivery needed the main connection and the write to it failed. */
  lemma {:induction false} LostExactly(h: Record, n: nat)
    requires h.Valid() && n <= |h.deliveries| && !h.outcomes[0].lost
    ensures h.outcomes[n].lost <==> FailsBefore(h, n)
  {
    if n > 0 {
      LostExactly(h, n - 1);
      assert h.Leads(n - 1);
      var o, d := h.outcomes[n - 1], h.deliveries[n - 1];
      if o.lost {
        Stays(h.config, o, d);
      } else {
        SendsExactly(h.config, o, d);
      }
      assert FailsBefore(h, n) <==> FailsBefore(h, n - 1) || FailsAt(h, n - 1);
    }
  }

  /** Delivery i is a forwarded motion whose write to the UDP channel would fail. */
  predicate DropsUdpAt(h: Record, i: nat)
    requires i < |h.deliveries| < |h.outcomes|
  {
    Moves(h.config, h.outcomes[i].state, h.deliveries[i].event) && !h.deliveries[i].udpOk
  }

  predicate DropsUdpBefore(h: Record, n: nat)
    requires n <= |h.deliveries| < |h.outcomes|
  {
    exists i | 0 <= i < n :: DropsUdpAt(h, i)
  }

  /** The UDP channel, once negotiated, is up exactly until the first motion that it fails to take. */
  lemma {:induction false} UdpIsUpUntilItFails(h: Record, n: nat)
    requires h.Valid() && n <= |h.deliveries| && !h.outcomes[n].lost && h.outcomes[0].state.udp.Some?
    ensures h.outcomes[n].state.udp.Some? <==> !DropsUdpBefore(h, n)
  {
    if n > 0 {
      NotLostBefore(h, n - 1, n);
      UdpIsUpUntilItFails(h, n - 1);
      assert h.Leads(n - 1);
      SendsExactly(h.config, h.outcomes[n - 1], h.deliveries[n - 1]);
      assert DropsUdpBefore(h, n) <==> DropsUdpBefore(h, n - 1) || DropsUdpAt(h, n - 1);
    }
  }

  /** How many positions these messages hold. */
  function Positions(ms: seq<Outgoing>): nat {
    if ms == [] then 0 else Positions(ms[..|ms| - 1]) + if ms[|ms| - 1].Position? then 1 else 0
  }

  /** The i-th message, if it is a position, carries its number among the positions. */
  predicate CountedAt(ms: seq<Outgoing>, i: nat)
    requires i < |ms|
  {
    ms[i].Position? ==> ms[i].seqNo == Positions(ms[..i + 1])
  }

  predicate Counted(ms: seq<Outgoing>) {
    forall i | 0 <= i < |ms| :: CountedAt(ms, i)
  }

  lemma CountOneMore(ms: seq<Outgoing>, m: Outgoing)
    requires Counted(ms) && (m.Position? ==> m.seqNo == Positions(ms) + 1)
    ensures Counted(ms + [m]) && Positions(ms + [m]) == Positions(ms) + if m.Position? then 1 else 0
  {
    var more := ms + [m];
    assert more[..|ms|] == ms && more[..|more|] == more;
    forall i | 0 <= i < |more|
      ensures CountedAt(more, i)
    {
      if i < |ms| {
        assert CountedAt(ms, i);
        assert more[..i + 1] == ms[..i + 1];
      }
    }
  }

  /** The positions are numbered from 1; the channel's number, while it is up, is that of the latest one. */
  predicate InSequence(o: Outcome, n: nat) {
    Counted(o.out) && (o.state.udp.Some? ==> o.state.udp.value == Positions(o.out) <= n)
  }

  lemma SequenceKept(c: Config, o: Outcome, d: Delivery, o': Outcome, n: nat)
    requires Exactly(c, o, d, o') && InSequence(o, n) && n < 0xFFFF_FFFF_FFFF_FFFF
    ensures InSequence(o', n + 1)
  {
    var sent := SentFor(c, o.state, d, o'.state.at);
    if sent == [] {
      assert o'.out == o.out;
    } else {
      CountOneMore(o.out, sent[0]);
    }
  }

  /** In a session of fewer than 2^64 events the positions sent are numbered 1, 2, 3 and so on. */
  lemma {:induction false} PositionsAreNumbered(h: Record, n: nat)
    requires h.Valid() && n <= |h.deliveries| <= 0xFFFF_FFFF_FFFF_FFFF
    requires h.outcomes[0].out == [] && h.outcomes[0].state.udp == Some(0)
    ensures InSequence(h.outcomes[n], n)
  {
    if n > 0 {
      PositionsAreNumbered(h, n - 1);
      assert h.Leads(n - 1);
      var o, d := h.outcomes[n - 1], h.deliveries[n - 1];
      if o.lost {
        Stays(h.config, o, d);
      } else {
        SendsExactly(h.config, o, d);
        SequenceKept(h.config, o, d, h.outcomes[n], n - 1);
      }
    }
  }
}
