/** The Ctrl+Alt+V automaton of keyboardProc, over every trace of hook inputs. */
module Hotkey {
  import opened Capture
  import opened CaptureWindows
  import opened Edges
  import opened Wrappers

  /** One hook call, with the value of the engaged flag that it would load. */
  datatype Call = Call(input: Input, engaged: bool) {
    predicate IsV(down: bool) {
      input.Keyboard? && !input.injected && input.key == Some(V) && input.down == down
    }
  }

  const CTRL_KEYS := {ControlLeft, ControlRight}
  const ALT_KEYS := {AltLeft, AltRight}

  /** A hook thread's configuration and everything it has been called with since it started. */
  datatype Trace = Trace(edge: Edge, bounds: Bounds, calls: seq<Call>) {
    /** The chord state before call i. */
    function ChordAt(i: nat): Chord
      requires i <= |calls|
      decreases i, 0
    {
      if i == 0 then NO_CHORD else DecisionAt(i - 1).chord
    }

    function DecisionAt(i: nat): Decision
      requires i < |calls|
      decreases i, 1
    {
      Decide(edge, bounds, calls[i].engaged, ChordAt(i), calls[i].input)
    }

    predicate Fires(i: nat)
      requires i < |calls|
    {
      DecisionAt(i).emit == Some(HotkeyPasteEvent)
    }

    /** Call i is one of these keys going down or up, typed by hand. */
    predicate Touches(i: nat, keys: set<KeyName>)
      requires i < |calls|
    {
      var input := calls[i].input;
      input.Keyboard? && !input.injected && input.key.Some? && input.key.value in keys
    }

    predicate LatestTouch(j: nat, i: nat, keys: set<KeyName>)
      requires j < i <= |calls|
    {
      Touches(j, keys) && forall k | j < k < i :: !Touches(k, keys)
    }

    /** The latest call of these keys before call i was a down. */
    predicate HeldAt(i: nat, keys: set<KeyName>)
      requires i <= |calls|
    {
      exists j | 0 <= j < i :: LatestTouch(j, i, keys) && calls[j].input.down
    }

    /** Ctrl and Alt are held. */
    predicate BothHeldAt(i: nat)
      requires i <= |calls|
    {
      HeldAt(i, CTRL_KEYS) && HeldAt(i, ALT_KEYS)
    }

    /** V goes down, or repeats, while Ctrl and Alt are held. */
    predicate Chorded(i: nat)
      requires i < |calls|
    {
      calls[i].IsV(true) && BothHeldAt(i)
    }

    /** V has been chorded, and not released since. */
    predicate Pending(i: nat)
      requires i <= |calls|
    {
      exists j | 0 <= j < i :: Chorded(j) && NoReleaseIn(j, i)
    }

    /** Call i is the hotkey's: its down, a repeat of it, or its up. */
    predicate IsHotkey(i: nat)
      requires i < |calls|
    {
      Chorded(i) || (calls[i].IsV(false) && Pending(i))
    }

    predicate NoReleaseIn(from: nat, to: nat)
      requires to <= |calls|
    {
      forall k | from <= k < to :: !calls[k].IsV(false)
    }

    /** Every V pressed before call i has been released. */
    predicate VIsUp(i: nat)
      requires i <= |calls|
    {
      forall j | 0 <= j < i && calls[j].IsV(true) :: !NoReleaseIn(j + 1, i)
    }

    /** Calls from..to are one press of V: down, repeats among other inputs, and the release at `to`. */
    predicate Press(from: nat, to: nat) {
      && from < to < |calls|
      && VIsUp(from) && calls[from].IsV(true)
      && NoReleaseIn(from, to) && calls[to].IsV(false)
    }

    predicate ChordedIn(from: nat, to: nat)
      requires to <= |calls|
    {
      exists i | from <= i < to :: Chorded(i)
    }

    /** Call i is handled like any other key's: forwarded while engaged, else passed on; both without an edge. */
    predicate Ordinary(i: nat)
      requires i < |calls| && calls[i].input.Keyboard?
    {
      var d, engaged := DecisionAt(i), calls[i].engaged;
      && (d.passedOn <==> edge == LEGACY || !engaged)
      && d.emit == if edge == LEGACY || engaged then Some(KeyEvent(V, calls[i].input.down)) else None
    }

    /** Call i reaches neither the local system nor the channel as a key. */
    predicate Swallowed(i: nat)
      requires i < |calls|
    {
      !DecisionAt(i).passedOn && (DecisionAt(i).emit.None? || Fires(i))
    }
  }

  lemma HeldOneMore(t: Trace, i: nat, keys: set<KeyName>)
    requires i < |t.calls|
    ensures t.HeldAt(i + 1, keys) <==> if t.Touches(i, keys) then t.calls[i].input.down else t.HeldAt(i, keys)
  {
    if t.Touches(i, keys) {
      assert t.LatestTouch(i, i + 1, keys);
    } else {
      assert forall j | 0 <= j < i :: t.LatestTouch(j, i + 1, keys) <==> t.LatestTouch(j, i, keys);
    }
  }

  /** The chord state after a call, from the one before it. */
  predicate Leads(call: Call, before: Chord, after: Chord) {
    var typed := call.input.Keyboard? && !call.input.injected;
    && (typed && call.input.key in {Some(ControlLeft), Some(ControlRight)} ==> after.ctrlHeld == call.input.down)
    && (typed && call.input.key in {Some(AltLeft), Some(AltRight)} ==> after.altHeld == call.input.down)
    && (!typed || call.input.key !in {Some(ControlLeft), Some(ControlRight)} ==> after.ctrlHeld == before.ctrlHeld)
    && (!typed || call.input.key !in {Some(AltLeft), Some(AltRight)} ==> after.altHeld == before.altHeld)
    && (after.hotkeyVDown <==> (call.IsV(true) && before.Held()) || (before.hotkeyVDown && !call.IsV(false)))
  }

  lemma KeyLeads(edge: Edge, call: Call, chord: Chord)
    requires call.input.Keyboard? && !call.input.injected
    ensures Leads(call, chord, DecideKey(edge, call.engaged, chord, call.input.key, call.input.down).chord)
  {
  }

  lemma DecisionLeads(edge: Edge, bounds: Bounds, call: Call, chord: Chord)
    ensures Leads(call, chord, Decide(edge, bounds, call.engaged, chord, call.input).chord)
  {
    if call.input.Keyboard? && !call.input.injected {
      KeyLeads(edge, call, chord);
    } else {
      assert Decide(edge, bounds, call.engaged, chord, call.input).chord == chord;
    }
  }

  /** The flags of Ctrl and Alt say whether the latest call of either key of that name was a down. */
  lemma {:induction false} HeldFlags(t: Trace, i: nat, chord: Chord)
    requires i <= |t.calls| && chord == t.ChordAt(i)
    ensures chord.ctrlHeld <==> t.HeldAt(i, CTRL_KEYS)
    ensures chord.altHeld <==> t.HeldAt(i, ALT_KEYS)
  {
    if i > 0 {
      var before := t.ChordAt(i - 1);
      HeldFlags(t, i - 1, before);
      DecisionLeads(t.edge, t.bounds, t.calls[i - 1], before);
      HeldOneMore(t, i - 1, CTRL_KEYS);
      HeldOneMore(t, i - 1, ALT_KEYS);
      HeldNext(t, i - 1, before, chord);
    }
  }

  lemma HeldNext(t: Trace, i: nat, before: Chord, after: Chord)
    requires i < |t.calls| && Leads(t.calls[i], before, after)
    ensures after.ctrlHeld == if t.Touches(i, CTRL_KEYS) then t.calls[i].input.down else before.ctrlHeld
    ensures after.altHeld == if t.Touches(i, ALT_KEYS) then t.calls[i].input.down else before.altHeld
  {
  }

  lemma PendingOneMore(t: Trace, i: nat)
    requires i < |t.calls|
    ensures t.Pending(i + 1) <==> t.Chorded(i) || (t.Pending(i) && !t.calls[i].IsV(false))
  {
    if t.Chorded(i) {
      assert t.NoReleaseIn(i, i + 1);
    }
    assert forall j | 0 <= j < i :: t.NoReleaseIn(j, i + 1) <==> t.NoReleaseIn(j, i) && !t.calls[i].IsV(false);
  }

  /** The pending flag is set exactly while V, once chorded, has not been released. */
  lemma {:induction false} PendingFlag(t: Trace, i: nat, chord: Chord)
    requires i <= |t.calls| && chord == t.ChordAt(i)
    ensures chord.hotkeyVDown <==> t.Pending(i)
  {
    if i > 0 {
      var before := t.ChordAt(i - 1);
      PendingFlag(t, i - 1, before);
      HeldFlags(t, i - 1, before);
      DecisionLeads(t.edge, t.bounds, t.calls[i - 1], before);
      PendingOneMore(t, i - 1);
    }
  }

  lemma FiringDecision(edge: Edge, bounds: Bounds, call: Call, chord: Chord)
    ensures Decide(edge, bounds, call.engaged, chord, call.input).emit == Some(HotkeyPasteEvent) <==>
            call.IsV(true) && chord.Held() && !chord.hotkeyVDown
  {
  }

  /** The automaton takes exactly the hotkey's calls, and fires at the first down that is chorded. */
  lemma TakesHotkey(t: Trace, i: nat)
    requires i < |t.calls|
    ensures t.ChordAt(i).Takes(t.calls[i].input) <==> t.IsHotkey(i)
    ensures t.Fires(i) <==> t.Chorded(i) && !t.Pending(i)
  {
    var chord := t.ChordAt(i);
    HeldFlags(t, i, chord);
    PendingFlag(t, i, chord);
    FiringDecision(t.edge, t.bounds, t.calls[i], chord);
  }

  /** Until V is released, a paste is pending exactly if it was, or if V has been chorded since. */
  lemma PendingUntilRelease(t: Trace, from: nat, to: nat)
    requires from <= to <= |t.calls| && t.NoReleaseIn(from, to)
    ensures t.Pending(to) <==> t.Pending(from) || t.ChordedIn(from, to)
  {
    forall j | 0 <= j < to && t.Chorded(j)
      ensures t.NoReleaseIn(j, to) <==> j >= from || t.NoReleaseIn(j, from)
    {
    }
  }

  /** With V up, no paste is pending. */
  lemma NothingPending(t: Trace, i: nat)
    requires i <= |t.calls| && t.VIsUp(i)
    ensures !t.Pending(i)
  {
    forall j | 0 <= j < i && t.calls[j].IsV(true)
      ensures !t.NoReleaseIn(j, i)
    {
      assert !t.NoReleaseIn(j + 1, i);
    }
  }

  /** Two firings of the hotkey have a release of V between them. */
  lemma FiringsAreSeparated(t: Trace, i: nat, j: nat)
    requires i < j < |t.calls| && t.Fires(i) && t.Fires(j)
    ensures exists k | i < k < j :: t.calls[k].IsV(false)
  {
    TakesHotkey(t, i);
    TakesHotkey(t, j);
    assert !t.NoReleaseIn(i, j);
  }

  /** A call of V is swallowed if it is the hotkey's, and ordinary if not. */
  lemma CallOfV(t: Trace, i: nat)
    requires i < |t.calls| && (t.calls[i].IsV(true) || t.calls[i].IsV(false))
    ensures if t.IsHotkey(i) then t.Swallowed(i) else t.Ordinary(i)
  {
    HeldFlags(t, i, t.ChordAt(i));
    PendingFlag(t, i, t.ChordAt(i));
  }

  /**
   * A press of V fires, once, exactly if some down or repeat of it came with Ctrl and Alt held; each
   * such down is swallowed and every other one is an ordinary key; and the release is swallowed
   * exactly if the press fired.
   */
  lemma PressOutcome(t: Trace, from: nat, to: nat)
    requires t.Press(from, to)
    ensures t.ChordedIn(from, to) <==> exists i | from <= i < to :: t.Fires(i)
    ensures forall i, j | from <= i < j < to :: !(t.Fires(i) && t.Fires(j))
    ensures forall i | from <= i < to && t.calls[i].IsV(true) :: if t.Chorded(i) then t.Swallowed(i) else t.Ordinary(i)
    ensures if t.ChordedIn(from, to) then t.Swallowed(to) else t.Ordinary(to)
  {
    NothingPending(t, from);
    PendingUntilRelease(t, from, to);
    CallOfV(t, to);
    if t.ChordedIn(from, to) {
      FirstChordFires(t, from, to);
    }
    forall i | from <= i < to
      ensures t.Fires(i) ==> t.Chorded(i)
      ensures t.calls[i].IsV(true) ==> if t.Chorded(i) then t.Swallowed(i) else t.Ordinary(i)
    {
      TakesHotkey(t, i);
      if t.calls[i].IsV(true) {
        CallOfV(t, i);
      }
    }
    FiresOnce(t, from, to);
  }

  lemma FiresOnce(t: Trace, from: nat, to: nat)
    requires from <= to <= |t.calls| && t.NoReleaseIn(from, to)
    ensures forall i, j | from <= i < j < to :: !(t.Fires(i) && t.Fires(j))
  {
    forall i, j | from <= i < j < to && t.Fires(i) && t.Fires(j)
      ensures false
    {
      FiringsAreSeparated(t, i, j);
    }
  }

  lemma {:induction false} FirstChordFires(t: Trace, from: nat, to: nat)
    requires from <= to <= |t.calls| && t.NoReleaseIn(from, to) && !t.Pending(from) && t.ChordedIn(from, to)
    ensures exists i | from <= i < to :: t.Fires(i)
  {
    if t.ChordedIn(from, to - 1) {
      FirstChordFires(t, from, to - 1);
    } else {
      PendingUntilRelease(t, from, to - 1);
      TakesHotkey(t, to - 1);
      assert t.Fires(to - 1);
    }
  }

  /**
   * With Ctrl and Alt unchanged throughout, a press is swallowed whole, with exactly one firing, or
   * handled whole as an ordinary key.
   */
  lemma SteadyPress(t: Trace, from: nat, to: nat)
    requires t.Press(from, to)
    requires forall i | from <= i <= to :: t.BothHeldAt(i) == t.BothHeldAt(from)
    ensures if t.BothHeldAt(from)
            then && (forall i | from <= i <= to && t.calls[i].IsV(i != to) :: t.Swallowed(i))
                 && (forall i | from <= i < to :: t.Fires(i) <==> i == from)
            else && (forall i | from <= i <= to && t.calls[i].IsV(i != to) :: t.Ordinary(i))
                 && (forall i | from <= i < to :: !t.Fires(i))
    ensures !t.Fires(to)
  {
    PressOutcome(t, from, to);
    NothingPending(t, from);
    TakesHotkey(t, from);
    TakesHotkey(t, to);
    assert t.BothHeldAt(from) ==> t.Chorded(from);
  }

  /** No call is handled in both ways. */
  lemma SwallowedOrOrdinary(t: Trace, i: nat)
    requires i < |t.calls| && (t.calls[i].IsV(true) || t.calls[i].IsV(false))
    ensures !(t.Swallowed(i) && t.Ordinary(i))
  {
  }

  /** Every down of a press, or else none, came with Ctrl and Alt held. */
  predicate EvenlyChorded(t: Trace, from: nat, to: nat)
    requires t.Press(from, to)
  {
    || (forall i | from <= i < to && t.calls[i].IsV(true) :: t.Chorded(i))
    || (forall i | from <= i < to && t.calls[i].IsV(true) :: !t.Chorded(i))
  }

  /** All of a press's downs and its release are swallowed, or all are handled as an ordinary key's. */
  predicate HandledWhole(t: Trace, from: nat, to: nat)
    requires t.Press(from, to)
  {
    || (forall i | from <= i <= to && t.calls[i].IsV(i != to) :: t.Swallowed(i))
    || (forall i | from <= i <= to && t.calls[i].IsV(i != to) :: t.Ordinary(i))
  }

  /** A press is handled whole exactly if all of its downs are chorded or none is. */
  lemma {:induction false} HandledWholeExactly(t: Trace, from: nat, to: nat)
    requires t.Press(from, to)
    ensures HandledWhole(t, from, to) <==> EvenlyChorded(t, from, to)
  {
    PressOutcome(t, from, to);
    forall i | from <= i < to && t.calls[i].IsV(true)
      ensures t.Chorded(i) <==> t.Swallowed(i)
      ensures t.Chorded(i) <==> !t.Ordinary(i)
    {
      SwallowedOrOrdinary(t, i);
    }
    if EvenlyChorded(t, from, to) {
      assert t.Chorded(from) <==> t.ChordedIn(from, to) by {
        if i :| from <= i < to && t.Chorded(i) {
          assert t.calls[i].IsV(true);
        }
      }
    }
  }

  /**
   * When the chord is completed in the middle of a press, the down has already been forwarded as an
   * ordinary key and its release is swallowed.
   */
  lemma ChordCompletedMidPress(edge: Edge, bounds: Bounds)
    requires edge.IsSide()
    ensures var key := (k: KeyName, down: bool) => Call(Keyboard(false, Some(k), down), true);
            var t := Trace(edge, bounds,
                [key(V, true), key(ControlLeft, true), key(AltLeft, true), key(V, true), key(V, false)]);
            && t.Press(0, 4)
            && t.DecisionAt(0).emit == Some(KeyEvent(V, true))
            && t.Swallowed(4)
  {
    var key := (k: KeyName, down: bool) => Call(Keyboard(false, Some(k), down), true);
    var t := Trace(edge, bounds,
        [key(V, true), key(ControlLeft, true), key(AltLeft, true), key(V, true), key(V, false)]);
    assert t.ChordAt(1) == t.DecisionAt(0).chord == NO_CHORD;
    assert t.ChordAt(2) == t.DecisionAt(1).chord == Chord(true, false, false);
    assert t.ChordAt(3) == t.DecisionAt(2).chord == Chord(true, true, false);
    HeldFlags(t, 3, t.ChordAt(3));
    assert t.Chorded(3);
    assert t.Press(0, 4);
    PressOutcome(t, 0, 4);
  }
}
