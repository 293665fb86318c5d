/** The history that the handover keeps is what the hook thread did, and what it says of every input. */
module HandoverHistory {
  import opened Capture
  import opened CaptureWindows
  import opened EdgeLoop
  import opened Handover
  import opened HandoverSafety
  import HookRules
  import Hotkey
  import opened Wrappers

  /** The hook calls of the first n steps, with the flag each of them loaded. */
  function CallsIn(states: seq<System>, steps: seq<Step>, n: nat): seq<Hotkey.Call>
    requires Run(states, steps) && n < |states|
  {
    if n == 0 then []
    else if steps[n - 1].HookCall? then
      CallsIn(states, steps, n - 1) + [Hotkey.Call(steps[n - 1].input, states[n - 1].engaged)]
    else CallsIn(states, steps, n - 1)
  }

  function HookTrace(states: seq<System>, steps: seq<Step>, n: nat): Hotkey.Trace
    requires Run(states, steps) && n < |states|
  {
    Hotkey.Trace(states[0].config.edge, states[0].config.bounds, CallsIn(states, steps, n))
  }

  /** The recorded calls are the trace's, with the chord states the automaton went through. */
  predicate Follows(s: System, t: Hotkey.Trace) {
    && (t.edge, t.bounds) == (s.config.edge, s.config.bounds)
    && |t.calls| == |s.calls|
    && (forall id | 0 <= id < |s.calls| :: Recorded(s.calls[id], t, id))
    && s.chord == t.ChordAt(|t.calls|)
  }

  predicate Recorded(call: Call, t: Hotkey.Trace, id: nat)
    requires id < |t.calls|
  {
    (call.input, call.engaged) == (t.calls[id].input, t.calls[id].engaged) && call.chord == t.ChordAt(id)
  }

  lemma {:induction false} LongerTraceAgrees(t: Hotkey.Trace, call: Hotkey.Call, i: nat)
    requires i <= |t.calls|
    ensures t.(calls := t.calls + [call]).ChordAt(i) == t.ChordAt(i)
  {
    if i > 0 {
      LongerTraceAgrees(t, call, i - 1);
    }
  }

  lemma {:induction false} CallFollows(s: System, input: Input, t: Hotkey.Trace)
    requires Follows(s, t) && s.hook.Idle?
    ensures Follows(Apply(s, HookCall(input)), t.(calls := t.calls + [Hotkey.Call(input, s.engaged)]))
  {
    var call := Hotkey.Call(input, s.engaged);
    var t', s' := t.(calls := t.calls + [call]), Apply(s, HookCall(input));
    LongerTraceAgrees(t, call, |t.calls|);
    assert t'.ChordAt(|t'.calls|) == t'.DecisionAt(|t.calls|).chord;
    forall id | 0 <= id < |s'.calls|
      ensures Recorded(s'.calls[id], t', id)
    {
      if id < |s.calls| {
        assert Recorded(s.calls[id], t, id);
        LongerTraceAgrees(t, call, id);
      }
    }
  }

  /** The same calls, whatever has become of them. */
  predicate SameCalls(s: System, s': System) {
    && s'.chord == s.chord && s'.config == s.config && |s'.calls| == |s.calls|
    && forall id | 0 <= id < |s.calls| ::
        (s'.calls[id].input, s'.calls[id].engaged, s'.calls[id].chord) ==
        (s.calls[id].input, s.calls[id].engaged, s.calls[id].chord)
  }

  lemma OtherStepKeepsCalls(s: System, step: Step)
    requires Enabled(s, step) && !step.HookCall?
    ensures SameCalls(s, Apply(s, step))
  {
  }

  lemma SameCallsFollow(s: System, s': System, t: Hotkey.Trace)
    requires SameCalls(s, s') && Follows(s, t)
    ensures Follows(s', t)
  {
    forall id | 0 <= id < |s'.calls|
      ensures Recorded(s'.calls[id], t, id)
    {
      assert Recorded(s.calls[id], t, id);
    }
  }

  /** In every interleaving the hook thread goes through the states of the hotkey automaton. */
  lemma {:induction false} HookRefines(states: seq<System>, steps: seq<Step>, n: nat)
    requires Run(states, steps) && n < |states|
    ensures Follows(states[n], HookTrace(states, steps, n))
  {
    if n > 0 {
      HookRefines(states, steps, n - 1);
      assert StepAt(states, steps, n - 1);
      if steps[n - 1].HookCall? {
        CallFollows(states[n - 1], steps[n - 1].input, HookTrace(states, steps, n - 1));
      } else {
        OtherStepKeepsCalls(states[n - 1], steps[n - 1]);
        SameCallsFollow(states[n - 1], states[n], HookTrace(states, steps, n - 1));
      }
    }
  }

  /** The send of this call, at step i, found the channel full. */
  predicate FullAt(states: seq<System>, steps: seq<Step>, i: nat, id: nat)
    requires i < |steps| && |states| == |steps| + 1
  {
    steps[i].HookSend? && states[i].hook.Sending? && states[i].hook.id == id && |states[i].queue| == 2048
  }

  predicate IsFull(f: Fate) {
    f.Withheld? && f.reason.ChannelFull?
  }

  lemma OnlySendsMeetFullChannel(s: System, step: Step, t: System, id: nat)
    requires Enabled(s, step) && t == Apply(s, step) && id < |t.calls| && IsFull(t.calls[id].fate)
    ensures || (id < |s.calls| && IsFull(s.calls[id].fate))
            || (step.HookSend? && s.hook.Sending? && s.hook.id == id && |s.queue| >= CAPACITY)
  {
  }

  lemma QueueStaysBounded(s: System, step: Step)
    requires Enabled(s, step) && |s.queue| <= 2048
    ensures |Apply(s, step).queue| <= 2048
  {
  }

  /** The events channel never holds more than 2048 events. */
  lemma {:induction false} QueueIsBounded(states: seq<System>, steps: seq<Step>, n: nat)
    requires Run(states, steps) && n < |states|
    ensures |states[n].queue| <= 2048
  {
    if n > 0 {
      QueueIsBounded(states, steps, n - 1);
      assert StepAt(states, steps, n - 1);
      QueueStaysBounded(states[n - 1], steps[n - 1]);
    }
  }

  lemma {:induction false} FullWasMet(states: seq<System>, steps: seq<Step>, n: nat, id: nat)
    requires Run(states, steps) && n < |states| && id < |states[n].calls| && IsFull(states[n].calls[id].fate)
    ensures exists i | 0 <= i < n :: FullAt(states, steps, i, id)
  {
    if n > 0 {
      assert StepAt(states, steps, n - 1);
      QueueIsBounded(states, steps, n - 1);
      OnlySendsMeetFullChannel(states[n - 1], steps[n - 1], states[n], id);
      if id < |states[n - 1].calls| && IsFull(states[n - 1].calls[id].fate) {
        FullWasMet(states, steps, n - 1, id);
      } else {
        assert FullAt(states, steps, n - 1, id);
      }
    }
  }

  // ---------------------------------------------------------------- what the local machine gets

  function DecisionOf(c: Config, call: Call): Decision {
    Decide(c.edge, c.bounds, call.engaged, call.chord, call.input)
  }

  /** A call whose fate is settled was passed on exactly if that was decided. */
  predicate SettledAs(c: Config, call: Call) {
    call.fate != InHook ==> (call.fate == PassedOn <==> DecisionOf(c, call).passedOn)
  }

  /** The hook thread is carrying out what was decided for its call. */
  predicate CarriesOut(s: System) {
    match s.hook
    case Idle => true
    case Storing(d, id) => id < |s.calls| && d == DecisionOf(s.config, s.calls[id])
    case Sending(d, id) => id < |s.calls| && d == DecisionOf(s.config, s.calls[id])
    case Returning(passedOn, _, id) => id < |s.calls| && passedOn == DecisionOf(s.config, s.calls[id]).passedOn
  }

  predicate Obeys(s: System) {
    CarriesOut(s) && forall id | 0 <= id < |s.calls| :: SettledAs(s.config, s.calls[id])
  }

  lemma CallObeys(s: System, input: Input)
    requires Obeys(s) && s.hook.Idle?
    ensures Obeys(Apply(s, HookCall(input)))
  {
  }

  /** One call changes its fate, and no other. */
  predicate Settles(s: System, t: System, id: nat) {
    && t.config == s.config && |t.calls| == |s.calls| && id < |s.calls|
    && t.calls[id] == s.calls[id].(fate := t.calls[id].fate)
    && forall i | 0 <= i < |s.calls| && i != id :: t.calls[i] == s.calls[i]
  }

  lemma SettlingObeys(s: System, t: System, id: nat)
    requires Obeys(s) && Settles(s, t, id) && SettledAs(t.config, t.calls[id])
    requires t.hook == s.hook || t.hook.Idle? ||
             (&& t.hook.Returning? && s.hook.Sending? && t.hook.id == s.hook.id
              && t.hook.passedOn == s.hook.decision.passedOn)
    ensures Obeys(t)
  {
    if !t.hook.Idle? && t.hook.id < |s.calls| {
      assert DecisionOf(t.config, t.calls[t.hook.id]) == DecisionOf(s.config, s.calls[t.hook.id]);
    }
  }

  lemma SendObeys(s: System)
    requires HookShape(s) && Obeys(s) && Enabled(s, HookSend)
    ensures Obeys(Sent(s))
  {
    SettlingObeys(s, Sent(s), s.hook.id);
  }

  lemma ReturnObeys(s: System)
    requires HookShape(s) && HookFate(s) && Obeys(s) && Enabled(s, HookReturn)
    ensures Obeys(Returned(s))
  {
    SettlingObeys(s, Returned(s), s.hook.id);
  }

  lemma TakeObeys(s: System, r: Reaction)
    requires Places(s) && Obeys(s) && s.queue != [] && s.queue[0].id < |s.calls|
    ensures Obeys(Taken(s, r))
  {
    assert s.queue[0] in s.queue;
    assert SettledAs(s.config, s.calls[s.queue[0].id]);
    SettlingObeys(s, Taken(s, r), s.queue[0].id);
  }

  lemma OtherStepObeys(s: System, step: Step)
    requires Obeys(s) && Enabled(s, step) && (step.HookStore? || step.LoopStore? || step.LoopWarp? || step.LoopClear?)
    ensures Obeys(Apply(s, step))
  {
    var t := Apply(s, step);
    assert t.calls == s.calls && t.config == s.config;
  }

  lemma StepObeys(s: System, step: Step)
    requires Safe(s) && Obeys(s) && Enabled(s, step)
    ensures Obeys(Apply(s, step))
  {
    match step {
      case HookCall(input) => CallObeys(s, input);
      case HookSend => SendObeys(s);
      case HookReturn => ReturnObeys(s);
      case LoopTake(tcpOk, udpOk) => TakeObeys(s, s.config.React(s.loop, Delivery(s.queue[0].event, tcpOk, udpOk)));
      case _ => OtherStepObeys(s, step);
    }
  }

  lemma {:induction false} AlwaysObeys(states: seq<System>, steps: seq<Step>, n: nat)
    requires Run(states, steps) && n < |states|
    ensures Obeys(states[n])
  {
    if n > 0 {
      AlwaysObeys(states, steps, n - 1);
      Always(states, steps, n - 1);
      assert StepAt(states, steps, n - 1);
      StepObeys(states[n - 1], steps[n - 1]);
    }
  }

  // ---------------------------------------------------------------- every input

  predicate IsLocal(s: System, id: nat) {
    id in s.local
  }

  predicate IsSent(s: System, id: nat) {
    exists w | w in s.wire :: w.id == id
  }

  predicate IsQueued(s: System, id: nat) {
    exists t | t in s.queue :: t.id == id
  }

  predicate InOnePlace(s: System, id: nat)
    requires id < |s.calls|
  {
    var withheld := s.calls[id].fate.Withheld?;
    && (IsLocal(s, id) || IsSent(s, id) || IsQueued(s, id) || withheld)
    && !(IsLocal(s, id) && IsSent(s, id)) && !(IsLocal(s, id) && IsQueued(s, id)) && !(IsSent(s, id) && IsQueued(s, id))
    && (withheld ==> !IsLocal(s, id) && !IsSent(s, id) && !IsQueued(s, id))
  }

  lemma PlacedOnce(s: System, id: nat)
    requires HookShape(s) && HookFate(s) && Places(s) && id < |s.calls| && (s.hook.Idle? || s.hook.id != id)
    ensures InOnePlace(s, id)
  {
  }

  /** What became of a call, in terms of the inputs of the whole run. */
  predicate Accounted(states: seq<System>, steps: seq<Step>, n: nat, id: nat)
    requires Run(states, steps) && n < |states| && id < |states[n].calls|
  {
    var s, t, fate := states[n], HookTrace(states, steps, n), states[n].calls[id].fate;
    && InOnePlace(s, id) && |t.calls| == |s.calls| && t.calls[id].input == s.calls[id].input
    && (IsLocal(s, id) <==> HookRules.GoesLocal(t, id))
    && (fate.Withheld? ==>
          && Justified(s, s.calls[id], fate.reason) && s.calls[id].engaged == t.calls[id].engaged
          && (fate.reason.HotkeyKey? ==> t.IsHotkey(id))
          && (fate.reason.ChannelFull? ==> exists i | 0 <= i < n :: FullAt(states, steps, i, id)))
  }

  lemma {:induction false} LocalByTheRule(s: System, t: Hotkey.Trace, id: nat)
    requires Safe(s) && Obeys(s) && Follows(s, t) && id < |s.calls| && (s.hook.Idle? || s.hook.id != id)
    ensures IsLocal(s, id) <==> HookRules.GoesLocal(t, id)
  {
    assert Recorded(s.calls[id], t, id);
    assert SettledAs(s.config, s.calls[id]);
    HookRules.PassedOnExactly(t, id);
  }

  lemma {:induction false} HotkeyByTheTrace(s: System, t: Hotkey.Trace, id: nat)
    requires Follows(s, t) && id < |s.calls| && s.calls[id].chord.Takes(s.calls[id].input)
    ensures t.IsHotkey(id)
  {
    assert Recorded(s.calls[id], t, id);
    Hotkey.TakesHotkey(t, id);
  }

  /**
   * Every input whose hook call has returned is in exactly one place: passed on to the local system,
   * sent to the target, still queued, or withheld. The local system gets it exactly by the rule of
   * HookRules. A withheld input is the hotkey's by the trace, an unknown key or a cursor position in an
   * engagement, raw input of no use, one whose send found the channel full, one captured in an engagement
   * that is over, the move that released, or one that met a dead connection.
   */
  lemma {:induction false} EveryInputIsAccountedFor(states: seq<System>, steps: seq<Step>, n: nat, id: nat)
    requires Run(states, steps) && n < |states| && id < |states[n].calls|
    requires states[n].hook.Idle? || states[n].hook.id != id
    ensures Accounted(states, steps, n, id)
  {
    var s, t := states[n], HookTrace(states, steps, n);
    Always(states, steps, n);
    AlwaysObeys(states, steps, n);
    HookRefines(states, steps, n);
    PlacedOnce(s, id);
    LocalByTheRule(s, t, id);
    assert Recorded(s.calls[id], t, id);
    if s.calls[id].fate == Withheld(HotkeyKey) {
      HotkeyByTheTrace(s, t, id);
    }
    if IsFull(s.calls[id].fate) {
      FullWasMet(states, steps, n, id);
    }
  }
}
