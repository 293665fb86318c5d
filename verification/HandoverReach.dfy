/** A crossing can be lost: with the loop idle, the hotkey alone fills the channel. */
module HandoverReach {
  import opened Capture
  import opened CaptureWindows
  import opened EdgeLoop
  import opened EdgeMath
  import opened Edges
  import opened Handover
  import opened Wrappers

  function Last(states: seq<System>): System
    requires states != []
  {
    states[|states| - 1]
  }

  /** A run from the start of a session of this configuration. */
  predicate RunOf(c: Config, states: seq<System>, steps: seq<Step>) {
    Run(states, steps) && states[0].config == c
  }

  lemma Extend(c: Config, states: seq<System>, steps: seq<Step>, step: Step, t: System)
    returns (states': seq<System>, steps': seq<Step>)
    requires RunOf(c, states, steps) && Enabled(Last(states), step) && t == Apply(Last(states), step)
    ensures RunOf(c, states', steps') && Last(states') == t
  {
    states', steps' := states + [t], steps + [step];
    forall i | 0 <= i < |steps'|
      ensures StepAt(states', steps', i)
    {
      assert i < |steps| ==> StepAt(states, steps, i);
    }
  }

  function Key(key: KeyName, down: bool): Step {
    HookCall(Keyboard(false, Some(key), down))
  }

  const CHORD := Chord(true, true, false)

  /** Disengaged, with this chord, k events queued and the hook between calls. */
  predicate Resting(s: System, c: Config, chord: Chord, k: nat) {
    && s.config == c && !s.engaged && |s.queue| == k && s.chord == chord
    && s.hook.Idle? && s.pc.Waiting? && !s.crossingLost
  }

  lemma ModifierPressed(s: System, c: Config, key: KeyName)
    requires c.edge.IsSide() && key in {ControlLeft, AltLeft} && Resting(s, c, s.chord, 0)
    ensures Enabled(s, Key(key, true))
    ensures var s' := Apply(s, Key(key, true));
            Enabled(s', HookReturn) && Resting(Apply(s', HookReturn), c, s.chord.Track(Some(key), true), 0)
  {
  }

  lemma Modifier(c: Config, states: seq<System>, steps: seq<Step>, key: KeyName)
    returns (states': seq<System>, steps': seq<Step>)
    requires RunOf(c, states, steps) && c.edge.IsSide() && key in {ControlLeft, AltLeft}
    requires Resting(Last(states), c, Last(states).chord, 0)
    ensures RunOf(c, states', steps') && Resting(Last(states'), c, Last(states).chord.Track(Some(key), true), 0)
  {
    var s := Last(states);
    var s1 := Apply(s, Key(key, true));
    ModifierPressed(s, c, key);
    states', steps' := Extend(c, states, steps, Key(key, true), s1);
    states', steps' := Extend(c, states', steps', HookReturn, Apply(s1, HookReturn));
  }

  lemma HotkeyDown(s: System, c: Config, k: nat) returns (s': System)
    requires c.edge.IsSide() && Resting(s, c, CHORD, k)
    ensures Enabled(s, Key(V, true)) && s' == Apply(s, Key(V, true))
    ensures Enabled(s', HookSend) && s'.hook.decision.emit == Some(HotkeyPasteEvent) && !s'.hook.decision.passedOn
    ensures Resting(s'.(hook := Idle), c, Chord(true, true, true), k)
  {
    s' := Apply(s, Key(V, true));
  }

  lemma HotkeySent(s: System, c: Config, k: nat) returns (s': System)
    requires k < CAPACITY && Enabled(s, HookSend) && s.hook.decision.emit == Some(HotkeyPasteEvent) &&
             !s.hook.decision.passedOn
    requires Resting(s.(hook := Idle), c, Chord(true, true, true), k)
    ensures Enabled(Sent(s), HookReturn) && s' == Apply(Sent(s), HookReturn) &&
            Resting(s', c, Chord(true, true, true), k + 1)
  {
    s' := Apply(Sent(s), HookReturn);
  }

  lemma HotkeyUp(s: System, c: Config, k: nat) returns (s': System)
    requires c.edge.IsSide() && Resting(s, c, Chord(true, true, true), k)
    ensures Enabled(s, Key(V, false)) && Enabled(Apply(s, Key(V, false)), HookReturn)
    ensures s' == Apply(Apply(s, Key(V, false)), HookReturn) && Resting(s', c, CHORD, k)
  {
    s' := Apply(Apply(s, Key(V, false)), HookReturn);
  }

  /** One press of the hotkey queues one event. */
  lemma OnePress(c: Config, states: seq<System>, steps: seq<Step>, k: nat)
    returns (states': seq<System>, steps': seq<Step>)
    requires RunOf(c, states, steps) && c.edge.IsSide() && k < CAPACITY && Resting(Last(states), c, CHORD, k)
    ensures RunOf(c, states', steps') && Resting(Last(states'), c, CHORD, k + 1)
  {
    var down := HotkeyDown(Last(states), c, k);
    var sent := HotkeySent(down, c, k);
    var up := HotkeyUp(sent, c, k + 1);
    states', steps' := Extend(c, states, steps, Key(V, true), down);
    states', steps' := Extend(c, states', steps', HookSend, Sent(down));
    states', steps' := Extend(c, states', steps', HookReturn, sent);
    states', steps' := Extend(c, states', steps', Key(V, false), Apply(sent, Key(V, false)));
    states', steps' := Extend(c, states', steps', HookReturn, up);
  }

  lemma {:induction false} Presses(c: Config, udp: bool, k: nat) returns (states: seq<System>, steps: seq<Step>)
    requires c.edge.IsSide() && k <= CAPACITY
    ensures RunOf(c, states, steps) && Resting(Last(states), c, CHORD, k)
  {
    if k == 0 {
      states, steps := [Start(c, udp)], [];
      assert states[0] == Start(states[0].config, udp);
      states, steps := Modifier(c, states, steps, ControlLeft);
      states, steps := Modifier(c, states, steps, AltLeft);
    } else {
      states, steps := Presses(c, udp, k - 1);
      states, steps := OnePress(c, states, steps, k - 1);
    }
  }

  /** A place on the edge. */
  function OnEdge(edge: Edge, b: Bounds): (p: Point)
    requires edge.IsSide()
    ensures EdgeCrossed(edge, b, p).Some?
  {
    if edge.Left? || edge.Top? then Point(b.x, b.y) else Point(b.x + b.size.w - 1, b.y + b.size.h - 1)
  }

  lemma CrossingMeetsFullChannel(s: System, c: Config)
    requires c.edge.IsSide() && Resting(s, c, CHORD, CAPACITY)
    ensures var call := HookCall(CursorMove(false, OnEdge(c.edge, c.bounds)));
            && Enabled(s, call) && Enabled(Apply(s, call), HookStore)
            && Enabled(Apply(Apply(s, call), HookStore), HookSend)
            && Sent(Apply(Apply(s, call), HookStore)).crossingLost
  {
  }

  /** Ctrl and Alt held, V pressed 2048 times while the loop is idle, then a crossing: it is lost. */
  lemma CrossingCanBeLost(c: Config, udp: bool) returns (states: seq<System>, steps: seq<Step>)
    requires c.edge.IsSide()
    ensures RunOf(c, states, steps) && Last(states).crossingLost
  {
    states, steps := Presses(c, udp, CAPACITY);
    var s, call := Last(states), HookCall(CursorMove(false, OnEdge(c.edge, c.bounds)));
    CrossingMeetsFullChannel(s, c);
    var s1 := Apply(s, call);
    var s2 := Apply(s1, HookStore);
    states, steps := Extend(c, states, steps, call, s1);
    states, steps := Extend(c, states, steps, HookStore, s2);
    states, steps := Extend(c, states, steps, HookSend, Sent(s2));
  }
}
