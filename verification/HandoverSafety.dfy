/** What every step of the handover keeps, and what follows for every interleaving. */
module HandoverSafety {
  import opened Capture
  import opened CaptureWindows
  import opened EdgeLoop
  import opened EdgeMath
  import opened Edges
  import opened Handover
  import opened Wrappers

  // ---------------------------------------------------------------- what a reaction can be

  /** The message is what the loop makes of the event, on either channel. */
  predicate MadeFrom(m: Outgoing, e: Event) {
    match e
    case KeyEvent(key, down) => m == Key(key, down)
    case MouseButtonEvent(button, down) => m == MouseButton(button, down)
    case MouseWheelEvent(amount) => m == MouseWheel(amount)
    case MouseMoveEvent(dx, dy) => m == MouseMove(dx, dy) || m.Position?
    case _ => false
  }

  predicate Shape(c: Config, s: State, e: Event, r: Reaction) {
    match r
    case Continue(t, out) =>
      if e.EdgeCrossedEvent? then t.engaged && out == [Engage(c.edge, e.relPos)]
      else
        && t.engaged == s.engaged
        && if s.engaged && !e.HotkeyPasteEvent? then |out| == 1 && MadeFrom(out[0], e) else out == []
    case Release(_) => s.engaged && e.MouseMoveEvent?
    case Paste(_) => e.HotkeyPasteEvent?
    case ConnectionLost(t) => t.engaged && !e.HotkeyPasteEvent? && (s.engaged || e.EdgeCrossedEvent?)
  }

  lemma ReactShape(c: Config, s: State, d: Delivery)
    ensures Shape(c, s, d.event, c.React(s, d))
  {
  }

  // ---------------------------------------------------------------- flags

  lemma FlagsKept(s: System, step: Step)
    requires Flags(s) && Enabled(s, step)
    ensures Flags(Apply(s, step))
  {
    match step {
      case HookSend => SendKeepsFlags(s);
      case LoopTake(tcpOk, udpOk) =>
        var d := Delivery(s.queue[0].event, tcpOk, udpOk);
        ReactShape(s.config, s.loop, d);
        TakeKeepsFlags(s, s.config.React(s.loop, d));
      case _ =>
    }
  }

  lemma SendKeepsFlags(s: System)
    requires Flags(s) && Enabled(s, HookSend)
    ensures Flags(Sent(s))
  {
    var t := Sent(s);
    if |s.queue| < CAPACITY {
      assert t.queue[|s.queue|].event == s.hook.decision.emit.value;
      assert forall i | 0 <= i < |s.queue| :: t.queue[i] == s.queue[i];
      assert CrossingQueued(t) <==> CrossingPending(s) by {
        if CrossingQueued(s) {
          var i :| 0 <= i < |s.queue| && s.queue[i].event.EdgeCrossedEvent?;
          assert t.queue[i].event.EdgeCrossedEvent?;
        }
      }
    }
  }

  lemma TakeKeepsFlags(s: System, r: Reaction)
    requires Flags(s) && s.pc.Waiting? && s.queue != [] && s.queue[0].id < |s.calls|
    requires Shape(s.config, s.loop, s.queue[0].event, r)
    ensures Flags(Taken(s, r))
  {
    var t := Taken(s, r);
    assert forall i | 0 <= i < |t.queue| :: t.queue[i] == s.queue[i + 1];
    assert CrossingQueued(s) <==> s.queue[0].event.EdgeCrossedEvent? || CrossingQueued(t) by {
      if i :| 1 <= i < |s.queue| && s.queue[i].event.EdgeCrossedEvent? {
        assert t.queue[i - 1].event.EdgeCrossedEvent?;
      }
    }
  }

  // ---------------------------------------------------------------- epochs

  lemma EpochsKept(s: System, step: Step)
    requires Flags(s) && Epochs(s) && Enabled(s, step)
    ensures Epochs(Apply(s, step))
  {
    match step {
      case HookCall(input) =>
          CallKeepsEpochs(s, input, Decide(s.config.edge, s.config.bounds, s.engaged, s.chord, input));
      case HookSend => SendKeepsEpochs(s);
      case LoopTake(tcpOk, udpOk) =>
        var d := Delivery(s.queue[0].event, tcpOk, udpOk);
        ReactShape(s.config, s.loop, d);
        TakeKeepsQueueEpochs(s, s.config.React(s.loop, d));
        TakeKeepsWireEpochs(s, s.config.React(s.loop, d));
      case _ => FlagStepKeepsEpochs(s, step);
    }
  }

  // The steps that touch neither the queue nor the wire, one by one.

  lemma FlagStepKeepsEpochs(s: System, step: Step)
    requires Flags(s) && Epochs(s) && Enabled(s, step)
    requires !step.HookCall? && !step.HookSend? && !step.LoopTake?
    ensures Epochs(Apply(s, step))
  {
    match step {
      case HookStore => StoreKeepsEpochs(s);
      case HookReturn => ReturnKeepsEpochs(s);
      case LoopStore => DisengageKeepsEpochs(s);
      case _ => LateStepKeepsEpochs(s, step);
    }
  }

  lemma StoreKeepsEpochs(s: System)
    requires Flags(s) && Epochs(s) && Enabled(s, HookStore)
    ensures Epochs(Apply(s, HookStore))
  {
    assert CrossingQueued(Apply(s, HookStore)) == CrossingQueued(s);
  }

  /** The same to the invariant of the epochs. */
  predicate SameEpochs(s: System, t: System) {
    && t.queue == s.queue && t.wire == s.wire && t.epoch == s.epoch && t.closed == s.closed
    && t.crossingLost == s.crossingLost && t.pc == s.pc && t.loop == s.loop
    && (CrossingInHook(t) <==> CrossingInHook(s))
  }

  lemma EpochsCarryOver(s: System, t: System)
    requires Epochs(s) && SameEpochs(s, t)
    ensures Epochs(t)
  {
    assert CrossingQueued(t) == CrossingQueued(s);
  }

  lemma ReturnKeepsEpochs(s: System)
    requires Epochs(s) && Enabled(s, HookReturn)
    ensures Epochs(Returned(s))
  {
    assert SameEpochs(s, Returned(s));
    EpochsCarryOver(s, Returned(s));
  }

  lemma DisengageKeepsEpochs(s: System)
    requires Flags(s) && Epochs(s) && Enabled(s, LoopStore)
    ensures Epochs(Apply(s, LoopStore))
  {
  }

  lemma LateStepKeepsEpochs(s: System, step: Step)
    requires Flags(s) && Epochs(s) && Enabled(s, step) && (step.LoopWarp? || step.LoopClear?)
    ensures Epochs(Apply(s, step))
  {
    assert CrossingQueued(Apply(s, step)) == CrossingQueued(s);
  }

  lemma CallKeepsEpochs(s: System, input: Input, d: Decision)
    requires Epochs(s) && s.hook.Idle?
    ensures Epochs(Called(s, input, d))
  {
    assert SameEpochs(s, Called(s, input, d));
    EpochsCarryOver(s, Called(s, input, d));
  }

  lemma SendKeepsEpochs(s: System)
    requires Flags(s) && Epochs(s) && Enabled(s, HookSend)
    ensures Epochs(Sent(s))
  {
    var t := Sent(s);
    if |s.queue| < CAPACITY {
      assert t.queue[|s.queue|].epoch == s.epoch;
      assert forall i | 0 <= i < |s.queue| :: t.queue[i] == s.queue[i];
    }
  }

  lemma TakeKeepsQueueEpochs(s: System, r: Reaction)
    requires Flags(s) && QueueEpochs(s) && s.pc.Waiting? && s.queue != [] && s.queue[0].id < |s.calls|
    requires Shape(s.config, s.loop, s.queue[0].event, r)
    ensures QueueEpochs(Taken(s, r))
  {
    var t := Taken(s, r);
    assert forall i | 0 <= i < |t.queue| :: t.queue[i] == s.queue[i + 1];
    if !Active(t) {
      assert !s.queue[0].event.EdgeCrossedEvent?;
      forall i | 0 <= i < |t.queue| && NoCrossingUpTo(t.queue, i)
        ensures Over(t, t.queue[i].epoch)
      {
        assert NoCrossingUpTo(s.queue, i + 1);
      }
    }
  }

  lemma WireGrows(wire: seq<Wired>, w: Wired)
    requires NothingStale(wire) && (w.message.Engage? || LastEngage(wire) == Some(w.epoch))
    ensures NothingStale(wire + [w])
    ensures LastEngage(wire + [w]) == if w.message.Engage? then Some(w.epoch) else LastEngage(wire)
  {
    assert (wire + [w])[..|wire|] == wire;
    assert forall i | 0 <= i < |wire| :: (wire + [w])[..i] == wire[..i];
  }

  lemma TakeKeepsWireEpochs(s: System, r: Reaction)
    requires Flags(s) && Epochs(s) && s.pc.Waiting? && s.queue != [] && s.queue[0].id < |s.calls|
    requires Shape(s.config, s.loop, s.queue[0].event, r)
    ensures WireEpochs(Taken(s, r))
  {
    var t, head := Taken(s, r), s.queue[0];
    if r.Continue? && r.out != [] {
      assert t.wire == s.wire + [Wired(r.out[0], head.epoch, head.id)];
      WireGrows(s.wire, Wired(r.out[0], head.epoch, head.id));
    } else if r.Continue? {
      assert t.wire == s.wire;
    }
  }

  // ---------------------------------------------------------------- fates

  /** What a decision can be in edge mode. */
  predicate Sound(s: System, input: Input, d: Decision) {
    && (d.crossed ==> !s.engaged && d.emit.Some?)
    && (d.emit.Some? ==> !d.passedOn && Means(s.config, input, d.emit.value)
                         && (d.crossed <==> d.emit.value.EdgeCrossedEvent?))
    && (d.emit == Some(HotkeyPasteEvent) ==> s.chord.Takes(input))
    && (d.emit.None? && !d.passedOn ==>
          Justified(s, Call(input, s.engaged, s.epoch, s.chord, InHook), SilentReason(input)))
  }

  lemma DecideIsSound(s: System, input: Input)
    requires s.config.edge.IsSide()
    ensures Sound(s, input, Decide(s.config.edge, s.config.bounds, s.engaged, s.chord, input))
  {
  }

  // The places: the queue, the wire and the local system.

  /** A change of fate matters only to the places that hold the old fate or the new one. */
  lemma SettleElsewhere(c: Config, calls: seq<Call>, id: nat, fate: Fate, queue: seq<Tagged>, wire: seq<Wired>,
      local: seq<nat>)
    requires id < |calls|
    ensures QueueFates(c, calls, queue) && calls[id].fate != Queued && fate != Queued ==>
            QueueFates(c, Settle(calls, id, fate), queue)
    ensures WireFates(c, calls, wire) && calls[id].fate != OnWire && fate != OnWire ==>
            WireFates(c, Settle(calls, id, fate), wire)
    ensures LocalFates(calls, local) && calls[id].fate != PassedOn && fate != PassedOn ==>
            LocalFates(Settle(calls, id, fate), local)
  {
  }

  lemma QueueGrows(c: Config, calls: seq<Call>, queue: seq<Tagged>, t: Tagged)
    requires QueueFates(c, calls, queue) && t.id == |calls| - 1 && calls[t.id].fate == InHook && Tags(c, calls[t.id], t)
    ensures QueueFates(c, Settle(calls, t.id, Queued), queue + [t])
  {
    assert t in queue + [t];
    assert forall u | u in queue :: u in queue + [t];
  }

  lemma QueueShrinks(c: Config, calls: seq<Call>, queue: seq<Tagged>, fate: Fate)
    requires QueueFates(c, calls, queue) && queue != [] && fate != Queued && queue[0].id < |calls|
    ensures QueueFates(c, Settle(calls, queue[0].id, fate), queue[1..])
    ensures calls[queue[0].id].fate == Queued && Tags(c, calls[queue[0].id], queue[0])
  {
    assert queue[0] in queue;
    assert queue == [queue[0]] + queue[1..];
  }

  lemma WireFateGrows(c: Config, calls: seq<Call>, queue: seq<Tagged>, wire: seq<Wired>, w: Wired)
    requires WireFates(c, calls, wire) && FirstInFirstOut(wire, queue) && queue != [] && w.id == queue[0].id
    requires w.id < |calls| && calls[w.id].fate != OnWire && Wires(c, calls[w.id], w)
    ensures WireFates(c, Settle(calls, w.id, OnWire), wire + [w])
  {
    assert queue[0] in queue;
    assert w in wire + [w];
    assert forall v | v in wire :: v in wire + [w] && v.id < w.id;
  }

  lemma OrderAfterTake(c: Config, calls: seq<Call>, queue: seq<Tagged>, wire: seq<Wired>, w: Wired)
    requires QueueFates(c, calls, queue) && FirstInFirstOut(wire, queue) && queue != [] && w.id == queue[0].id
    ensures FirstInFirstOut(wire, queue[1..]) && FirstInFirstOut(wire + [w], queue[1..])
  {
    assert forall t | t in queue[1..] :: t in queue;
  }

  lemma OrderAfterSend(c: Config, calls: seq<Call>, queue: seq<Tagged>, wire: seq<Wired>, t: Tagged)
    requires WireFates(c, calls, wire) && FirstInFirstOut(wire, queue) && t.id == |calls| - 1 &&
             calls[t.id].fate == InHook
    ensures FirstInFirstOut(wire, queue + [t])
  {
  }

  lemma LocalGrows(calls: seq<Call>, local: seq<nat>, id: nat)
    requires LocalFates(calls, local) && id == |calls| - 1 && calls[id].fate == InHook
    ensures LocalFates(Settle(calls, id, PassedOn), local + [id])
  {
    assert id in local + [id];
    assert forall i | i in local :: i in local + [id];
    forall i | 0 <= i < |local|
      ensures local[i] < id
    {
      assert local[i] in local && local[i] != id;
    }
  }

  lemma NewCallElsewhere(c: Config, calls: seq<Call>, call: Call, queue: seq<Tagged>, wire: seq<Wired>, local: seq<nat>)
    requires call.fate == InHook
    ensures QueueFates(c, calls, queue) ==> QueueFates(c, calls + [call], queue)
    ensures WireFates(c, calls, wire) ==> WireFates(c, calls + [call], wire)
    ensures LocalFates(calls, local) ==> LocalFates(calls + [call], local)
  {
  }

  lemma CallKeepsPlaces(s: System, input: Input, d: Decision)
    requires Places(s)
    ensures Places(Called(s, input, d))
  {
    NewCallElsewhere(s.config, s.calls, Call(input, s.engaged, s.epoch, s.chord, InHook), s.queue, s.wire, s.local);
  }

  lemma SendKeepsPlaces(s: System)
    requires HookShape(s) && HookFate(s) && Places(s) && Enabled(s, HookSend)
    ensures Places(Sent(s))
  {
    var id := s.hook.id;
    SettleElsewhere(s.config, s.calls, id, Sent(s).calls[id].fate, s.queue, s.wire, s.local);
    if |s.queue| < CAPACITY {
      var tagged := Tagged(s.hook.decision.emit.value, s.epoch, id);
      QueueGrows(s.config, s.calls, s.queue, tagged);
      OrderAfterSend(s.config, s.calls, s.queue, s.wire, tagged);
    }
  }

  lemma ReturnKeepsPlaces(s: System)
    requires HookShape(s) && HookFate(s) && Places(s) && Enabled(s, HookReturn)
    ensures Places(Returned(s))
  {
    var id := s.hook.id;
    SettleElsewhere(s.config, s.calls, id, Returned(s).calls[id].fate, s.queue, s.wire, s.local);
    if s.hook.passedOn {
      LocalGrows(s.calls, s.local, id);
    }
  }

  lemma TakeKeepsPlaces(s: System, r: Reaction)
    requires Places(s) && s.queue != [] && s.queue[0].id < |s.calls|
    requires Shape(s.config, s.loop, s.queue[0].event, r)
    ensures Places(Taken(s, r))
  {
    var t, head := Taken(s, r), s.queue[0];
    QueueShrinks(s.config, s.calls, s.queue, t.calls[head.id].fate);
    SettleElsewhere(s.config, s.calls, head.id, t.calls[head.id].fate, s.queue, s.wire, s.local);
    if r.Continue? && r.out != [] {
      var w := Wired(r.out[0], head.epoch, head.id);
      assert t.wire == s.wire + [w];
      WireFateGrows(s.config, s.calls, s.queue, s.wire, w);
      OrderAfterTake(s.config, s.calls, s.queue, s.wire, w);
    } else {
      assert t.wire == s.wire;
      OrderAfterTake(s.config, s.calls, s.queue, s.wire, Wired(Engage(s.config.edge, 0.0), 0, head.id));
    }
  }

  lemma PlacesKept(s: System, step: Step)
    requires HookShape(s) && HookFate(s) && Places(s) && Enabled(s, step)
    ensures Places(Apply(s, step))
  {
    match step {
      case HookCall(input) =>
          CallKeepsPlaces(s, input, Decide(s.config.edge, s.config.bounds, s.engaged, s.chord, input));
      case HookSend => SendKeepsPlaces(s);
      case HookReturn => ReturnKeepsPlaces(s);
      case LoopTake(tcpOk, udpOk) =>
        var d := Delivery(s.queue[0].event, tcpOk, udpOk);
        ReactShape(s.config, s.loop, d);
        TakeKeepsPlaces(s, s.config.React(s.loop, d));
      case _ =>
    }
  }

  // The hook call in progress.

  lemma HookFateKept(s: System, step: Step)
    requires Flags(s) && HookFate(s) && Places(s) && Enabled(s, step)
    ensures HookShape(Apply(s, step)) && HookFate(Apply(s, step))
  {
    FlagsKept(s, step);
    match step {
      case HookCall(input) =>
        DecideIsSound(s, input);
        CallKeepsHookFate(s, input, Decide(s.config.edge, s.config.bounds, s.engaged, s.chord, input));
      case LoopTake(tcpOk, udpOk) =>
        assert s.queue[0] in s.queue;
        TakeKeepsHookFate(s, s.config.React(s.loop, Delivery(s.queue[0].event, tcpOk, udpOk)));
      case _ => OtherStepKeepsHookFate(s, step);
    }
  }

  lemma OtherStepKeepsHookFate(s: System, step: Step)
    requires HookShape(s) && HookFate(s) && Enabled(s, step) && !step.HookCall? && !step.LoopTake?
    requires HookShape(Apply(s, step))
    ensures HookFate(Apply(s, step))
  {
    if step.HookSend? || step.HookReturn? {
      assert forall i | 0 <= i < |s.calls| && i != s.hook.id :: Apply(s, step).calls[i] == s.calls[i];
    }
  }

  lemma CallKeepsHookFate(s: System, input: Input, d: Decision)
    requires HookShape(s) && HookFate(s) && s.hook.Idle? && Sound(s, input, d) && HookShape(Called(s, input, d))
    ensures HookFate(Called(s, input, d))
  {
  }

  lemma TakeKeepsHookFate(s: System, r: Reaction)
    requires HookShape(s) && HookFate(s) && s.queue != [] && s.queue[0].id < |s.calls| && HookShape(Taken(s, r))
    requires s.calls[s.queue[0].id].fate == Queued
    ensures HookFate(Taken(s, r))
  {
    var t := Taken(s, r);
    assert forall i | 0 <= i < |s.calls| && i != s.queue[0].id :: t.calls[i] == s.calls[i];
  }

  // The reasons given.

  /** An epoch that is over stays over, and a dead connection dead. */
  predicate Later(s: System, t: System) {
    && s.closed <= t.closed
    && (s.crossingLost ==> t.crossingLost && t.epoch == s.epoch)
    && (s.pc.Stopped? ==> t.pc.Stopped?)
  }

  lemma EveryStepIsLater(s: System, step: Step)
    requires Flags(s) && s.closed <= s.epoch && Enabled(s, step)
    ensures Later(s, Apply(s, step))
  {
  }

  /** A history that only adds justified reasons. */
  lemma ReasonsCarryOver(s: System, t: System)
    requires Reasons(s) && Later(s, t) && |s.calls| <= |t.calls|
    requires forall id | 0 <= id < |t.calls| && t.calls[id].fate.Withheld? ::
               (id < |s.calls| && t.calls[id] == s.calls[id]) || Justified(t, t.calls[id], t.calls[id].fate.reason)
    ensures Reasons(t)
  {
    forall id | 0 <= id < |t.calls| && t.calls[id].fate.Withheld?
      ensures Justified(t, t.calls[id], t.calls[id].fate.reason)
    {
      if id < |s.calls| && t.calls[id] == s.calls[id] {
        assert Justified(s, s.calls[id], s.calls[id].fate.reason);
      }
    }
  }

  lemma ReasonsKept(s: System, step: Step)
    requires Flags(s) && Epochs(s) && Fates(s) && Enabled(s, step)
    ensures Reasons(Apply(s, step))
  {
    EveryStepIsLater(s, step);
    match step {
      case HookCall(input) =>
          CallGivesReason(s, input, Decide(s.config.edge, s.config.bounds, s.engaged, s.chord, input));
      case HookSend => SendGivesReason(s);
      case HookReturn => ReturnGivesReason(s);
      case LoopTake(tcpOk, udpOk) =>
        var d := Delivery(s.queue[0].event, tcpOk, udpOk);
        ReactShape(s.config, s.loop, d);
        assert s.queue[0] in s.queue;
        assert !s.loop.engaged && !s.queue[0].event.EdgeCrossedEvent? ==> Over(s, s.queue[0].epoch) by {
          if !s.loop.engaged && !s.queue[0].event.EdgeCrossedEvent? {
            assert NoCrossingUpTo(s.queue, 0);
          }
        }
        TakeGivesReason(s, s.config.React(s.loop, d));
      case _ => ReasonsCarryOver(s, Apply(s, step));
    }
  }

  lemma CallGivesReason(s: System, input: Input, d: Decision)
    requires Reasons(s) && Later(s, Called(s, input, d))
    ensures Reasons(Called(s, input, d))
  {
    ReasonsCarryOver(s, Called(s, input, d));
  }

  lemma SendGivesReason(s: System)
    requires Reasons(s) && Enabled(s, HookSend) && Later(s, Sent(s))
    ensures Reasons(Sent(s))
  {
    ReasonsCarryOver(s, Sent(s));
  }

  lemma ReturnGivesReason(s: System)
    requires HookShape(s) && HookFate(s) && Reasons(s) && Enabled(s, HookReturn) && Later(s, Returned(s))
    ensures Reasons(Returned(s))
  {
    ReasonsCarryOver(s, Returned(s));
  }

  lemma TakeGivesReason(s: System, r: Reaction)
    requires Reasons(s) && s.pc.Waiting? && s.queue != [] && s.queue[0].id < |s.calls| && Later(s, Taken(s, r))
    requires Shape(s.config, s.loop, s.queue[0].event, r) && Tags(s.config, s.calls[s.queue[0].id], s.queue[0])
    requires !s.loop.engaged && !s.queue[0].event.EdgeCrossedEvent? ==> Over(s, s.queue[0].epoch)
    ensures Reasons(Taken(s, r))
  {
    ReasonsCarryOver(s, Taken(s, r));
  }

  lemma FatesKept(s: System, step: Step)
    requires Flags(s) && Epochs(s) && Fates(s) && Enabled(s, step)
    ensures Fates(Apply(s, step))
  {
    PlacesKept(s, step);
    HookFateKept(s, step);
    ReasonsKept(s, step);
  }

  // ---------------------------------------------------------------- every interleaving

  predicate Safe(s: System) {
    Flags(s) && Epochs(s) && Fates(s)
  }

  lemma StartIsSafe(c: Config, udp: bool)
    requires c.edge.IsSide()
    ensures Safe(Start(c, udp))
  {
  }

  lemma SafeKept(s: System, step: Step, t: System)
    requires Safe(s) && Enabled(s, step) && t == Apply(s, step)
    ensures Safe(t)
  {
    FlagsKept(s, step);
    EpochsKept(s, step);
    FatesKept(s, step);
  }

  lemma {:induction false} Always(states: seq<System>, steps: seq<Step>, n: nat)
    requires Run(states, steps) && n < |states|
    ensures Safe(states[n])
  {
    if n == 0 {
      var udp :| states[0] == Start(states[0].config, udp);
      StartIsSafe(states[0].config, udp);
    } else {
      Always(states, steps, n - 1);
      assert StepAt(states, steps, n - 1);
      SafeKept(states[n - 1], steps[n - 1], states[n]);
    }
  }

  lemma AlwaysFlags(states: seq<System>, steps: seq<Step>, n: nat)
    requires Run(states, steps) && n < |states|
    ensures Flags(states[n])
  {
    Always(states, steps, n);
  }

  /**
   * The loop is engaged without the hook only between Disengage's store and the loop's clear; at most
   * one crossing is ever queued; and, outside that window, the hook is engaged exactly when the loop is
   * or a crossing is on its way to it, if and only if no crossing has been lost to a full channel.
   */
  lemma FlagsAgree(states: seq<System>, steps: seq<Step>, n: nat)
    requires Run(states, steps) && n < |states|
    ensures var s := states[n];
            var window := s.pc.BeforeWarp? || s.pc.BeforeClear?;
            && (s.loop.engaged && !s.engaged ==> window)
            && OneCrossing(s)
            && (!window ==> ((s.engaged <==> s.loop.engaged || CrossingPending(s)) <==> !s.crossingLost))
  {
    AlwaysFlags(states, steps, n);
  }

  /** A lost crossing is never recovered from: the hook keeps suppressing and nothing more is sent. */
  lemma LostCrossingIsForever(states: seq<System>, steps: seq<Step>, n: nat, m: nat)
    requires Run(states, steps) && n <= m < |states| && states[n].crossingLost
    ensures states[m].crossingLost && states[m].engaged && !Active(states[m])
    ensures states[m].wire == states[n].wire
  {
    LostCrossingStays(states, steps, n, m);
    AlwaysFlags(states, steps, m);
  }

  lemma {:induction false} LostCrossingStays(states: seq<System>, steps: seq<Step>, n: nat, m: nat)
    requires Run(states, steps) && n <= m < |states| && states[n].crossingLost
    ensures states[m].crossingLost && states[m].wire == states[n].wire
  {
    if n < m {
      LostCrossingStays(states, steps, n, m - 1);
      AlwaysFlags(states, steps, m - 1);
      assert StepAt(states, steps, m - 1);
      LostStepSendsNothing(states[m - 1], steps[m - 1]);
    }
  }

  lemma LostStepSendsNothing(s: System, step: Step)
    requires Flags(s) && Enabled(s, step) && s.crossingLost
    ensures Apply(s, step).crossingLost && Apply(s, step).wire == s.wire
  {
    if step.LoopTake? {
      var d := Delivery(s.queue[0].event, step.tcpOk, step.udpOk);
      ReactShape(s.config, s.loop, d);
      assert CrossingQueued(s) || !s.queue[0].event.EdgeCrossedEvent?;
    }
  }

  lemma {:induction false} LastEngageIsBefore(wire: seq<Wired>)
    requires LastEngage(wire).Some?
    ensures exists j | 0 <= j < |wire| :: LatestEngage(wire, j, |wire|) && wire[j].epoch == LastEngage(wire).value
  {
    var last := |wire| - 1;
    if wire[last].message.Engage? {
      assert LatestEngage(wire, last, |wire|);
    } else {
      var init := wire[..last];
      LastEngageIsBefore(init);
      var j :| 0 <= j < |init| && LatestEngage(init, j, last) && init[j].epoch == LastEngage(init).value;
      assert LatestEngage(wire, j, |wire|);
    }
  }

  predicate LatestEngage(wire: seq<Wired>, j: nat, i: nat) {
    j < i <= |wire| && wire[j].message.Engage? && forall k | j < k < i :: !wire[k].message.Engage?
  }

  lemma NotStale(wire: seq<Wired>, i: nat)
    requires NothingStale(wire) && i < |wire| && !wire[i].message.Engage?
    ensures exists j | 0 <= j < i :: LatestEngage(wire, j, i) && wire[j].epoch == wire[i].epoch
  {
    var before := wire[..i];
    LastEngageIsBefore(before);
    var j :| 0 <= j < |before| && LatestEngage(before, j, i) && before[j].epoch == wire[i].epoch;
    assert LatestEngage(wire, j, i);
  }

  lemma AlwaysOnWire(states: seq<System>, steps: seq<Step>, n: nat)
    requires Run(states, steps) && n < |states|
    ensures var s := states[n]; NothingStale(s.wire) && WireFates(s.config, s.calls, s.wire)
  {
    Always(states, steps, n);
  }

  /** Message j is the latest Engage before message i, and i was captured in the engagement j started. */
  predicate SameEngagement(s: System, j: nat, i: nat) {
    && LatestEngage(s.wire, j, i) && i < |s.wire| && s.wire[j].id < |s.calls| && s.wire[i].id < |s.calls|
    && s.calls[s.wire[i].id].epoch == s.calls[s.wire[j].id].epoch + 1
  }

  /**
   * No stale input: every move, key, button or wheel message was captured in the epoch of the latest
   * Engage sent before it, whatever leftovers were queued and whatever was dropped; messages go out in
   * the order their inputs were captured, none twice, each saying what its input said.
   */
  lemma NoStaleInput(states: seq<System>, steps: seq<Step>, n: nat, i: nat)
    requires Run(states, steps) && n < |states| && i < |states[n].wire|
    ensures var s := states[n];
            && s.wire[i].id < |s.calls| && Carries(s.config, s.calls[s.wire[i].id].input, s.wire[i].message)
            && (forall k | 0 <= k < i :: s.wire[k].id < s.wire[i].id)
            && (!s.wire[i].message.Engage? ==> exists j | 0 <= j < i :: SameEngagement(s, j, i))
  {
    AlwaysOnWire(states, steps, n);
    var s := states[n];
    assert s.wire[i] in s.wire;
    if !s.wire[i].message.Engage? {
      NotStale(s.wire, i);
      var j :| 0 <= j < i && LatestEngage(s.wire, j, i) && s.wire[j].epoch == s.wire[i].epoch;
      assert s.wire[j] in s.wire;
      assert SameEngagement(s, j, i);
    }
  }
}
