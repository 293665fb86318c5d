/** What the hooks do with every input of every trace, said of the inputs alone. */
module HookRules {
  import opened Bits
  import opened Capture
  import opened CaptureWindows
  import opened EdgeMath
  import opened Edges
  import opened Hotkey
  import opened Integers
  import opened Wrappers

  /** Injected by a program, or of no concern to the hooks. */
  predicate Ignored(input: Input) {
    match input
    case Keyboard(injected, _, _) => injected
    case CursorMove(injected, _) => injected
    case ButtonChange(injected, _, _) => injected
    case Wheel(injected, _) => injected
    case OtherMouseMessage => true
    case NegativeCode => true
    case RawMotion(_, _, _) => false
  }

  /** In edge mode, a cursor that reaches the edge while local input is let through. */
  predicate Crosses(t: Trace, i: nat)
    requires i < |t.calls|
  {
    var call := t.calls[i];
    && t.edge != LEGACY && !call.engaged && call.input.CursorMove? && !call.input.injected
    && EdgeCrossed(t.edge, t.bounds, call.input.at).Some?
  }

  /** The local machine gets the input: always if it is ignored, else if it is not the hotkey's, does not
      cross, and is not held back by an engagement. Raw input has nothing to pass on. */
  predicate GoesLocal(t: Trace, i: nat)
    requires i < |t.calls|
  {
    var input := t.calls[i].input;
    || Ignored(input)
    || (!input.RawMotion? && (t.edge == LEGACY || !t.calls[i].engaged) && !t.IsHotkey(i) && !Crosses(t, i))
  }

  /** The input becomes this event: what is forwarded while engaged, or always without an edge; a
      crossing; and the first chorded V of a press. */
  predicate Becomes(t: Trace, i: nat, e: Event)
    requires i < |t.calls|
  {
    var input, listens := t.calls[i].input, t.edge == LEGACY || t.calls[i].engaged;
    match e
    case KeyEvent(key, down) => listens && input == Keyboard(false, Some(key), down) && !t.IsHotkey(i)
    case MouseButtonEvent(button, down) => listens && input == ButtonChange(false, button, down)
    case MouseWheelEvent(amount) => listens && input.Wheel? && !input.injected && amount == WheelAmount(input.mouseData)
    case MouseMoveEvent(dx, dy) => listens && input == RawMotion(true, dx, dy) && !(dx == 0 && dy == 0)
    case EdgeCrossedEvent(relPos) => Crosses(t, i) && EdgeCrossed(t.edge, t.bounds, input.at) == Some(relPos)
    case HotkeyPasteEvent => t.Chorded(i) && !t.Pending(i)
  }

  /** An input reaches the local machine exactly by the rule. */
  lemma PassedOnExactly(t: Trace, i: nat)
    requires i < |t.calls|
    ensures t.DecisionAt(i).passedOn <==> GoesLocal(t, i)
  {
    TakesHotkey(t, i);
  }

  /** An input is offered to the channel as an event exactly by the rule. */
  lemma EmitsExactly(t: Trace, i: nat, e: Event)
    requires i < |t.calls|
    ensures t.DecisionAt(i).emit == Some(e) <==> Becomes(t, i, e)
  {
    TakesHotkey(t, i);
  }

  /** The engaged flag is set exactly by a crossing. */
  lemma EngagesExactly(t: Trace, i: nat)
    requires i < |t.calls|
    ensures t.DecisionAt(i).crossed <==> Crosses(t, i)
  {
  }

  // ---------------------------------------------------------------- the hooks' arguments

  lemma FlagBits(flags: uint32)
    ensures And(flags, 0x12) != 0 <==> HasBit(flags, 0x10) || HasBit(flags, 0x02)
    ensures And(flags, 0x03) != 0 <==> HasBit(flags, 0x01) || HasBit(flags, 0x02)
    ensures And(flags, 0x01) != 0 <==> HasBit(flags, 0x01)
  {
    var half, eighth := flags / 2, flags / 2 / 2 / 2;
    assert eighth / 2 == flags / 16;
    assert And(eighth / 2, 1) == eighth / 2 % 2;
    assert And(eighth, 2) == 2 * And(eighth / 2, 1);
    assert And(half, 9) == half % 2 + 2 * And(half / 2, 4) && And(half / 2, 4) == 2 * And(eighth, 2);
    assert And(flags, 0x12) == 2 * And(half, 9);
    assert And(flags, 3) == flags % 2 + 2 * And(half, 1);
  }

  /**
   * What the keyboard hook's arguments mean: a key is down for WM_KEYDOWN and WM_SYSKEYDOWN and up for
   * anything else, and either of two flags marks it as injected.
   */
  lemma KeyboardArguments(names: map<uint32, KeyName>, nCode: int32, wParam: uint32, vkCode: uint32, flags: uint32)
    ensures var input := KeyInput(names, nCode, wParam, vkCode, flags);
            && (input == NegativeCode <==> nCode < 0)
            && (nCode >= 0 ==>
                  && input.Keyboard? && (input.injected <==> And(flags, 0x10 + 0x02) != 0)
                  && (input.down <==> wParam in {0x0100, 0x0104})
                  && (input.key.Some? <==> vkCode in names) && (vkCode in names ==> input.key == Some(names[vkCode])))
  {
    FlagBits(flags);
  }

  /** What the mouse hook's arguments mean, message by message. */
  lemma MouseArguments(nCode: int32, wParam: uint32, at: Point, mouseData: uint32, flags: uint32)
    ensures var input, injected := MouseInput(nCode, wParam, at, mouseData, flags), And(flags, 0x01 + 0x02) != 0;
            && (input == NegativeCode <==> nCode < 0)
            && (nCode >= 0 ==>
                  && (input == CursorMove(injected, at) <==> wParam == 0x0200)
                  && (input == ButtonChange(injected, LeftButton, true) <==> wParam == 0x0201)
                  && (input == ButtonChange(injected, LeftButton, false) <==> wParam == 0x0202)
                  && (input == ButtonChange(injected, RightButton, true) <==> wParam == 0x0204)
                  && (input == ButtonChange(injected, RightButton, false) <==> wParam == 0x0205)
                  && (input == ButtonChange(injected, MiddleButton, true) <==> wParam == 0x0207)
                  && (input == ButtonChange(injected, MiddleButton, false) <==> wParam == 0x0208)
                  && (input == Wheel(injected, mouseData) <==> wParam == 0x020A)
                  && (input == OtherMouseMessage <==>
                      wParam !in {0x0200, 0x0201, 0x0202, 0x0204, 0x0205, 0x0207, 0x0208, 0x020A}))
  {
    FlagBits(flags);
  }
}
