/**
 * The Windows hook thread: internal/capture/capture_windows.go. `Decide` says what one hook callback
 * does with one input, given the value of the shared engaged flag it loads; the class carries it out.
 */
module CaptureWindows {
  import opened Capture
  import opened EdgeMath
  import opened Edges
  import opened Integers
  import opened Wrappers

  // The message and flag values of the Win32 hooks.
  const WM_KEY_DOWN := 0x0100
  const WM_SYS_KEY_DOWN := 0x0104
  const WM_MOUSE_MOVE := 0x0200
  const WM_L_BUTTON_DOWN := 0x0201
  const WM_L_BUTTON_UP := 0x0202
  const WM_R_BUTTON_DOWN := 0x0204
  const WM_R_BUTTON_UP := 0x0205
  const WM_M_BUTTON_DOWN := 0x0207
  const WM_M_BUTTON_UP := 0x0208
  const WM_MOUSE_WHEEL := 0x020A

  /** One call of keyboardProc, mouseProc or handleRawInput, as far as the code looks at it. */
  datatype Input =
    | Keyboard(injected: bool, key: Option<KeyName>, down: bool)
    | CursorMove(injected: bool, at: Point)
    | ButtonChange(injected: bool, button: Button, down: bool)
    | Wheel(injected: bool, mouseData: uint32)
    | OtherMouseMessage
    | RawMotion(relative: bool, dx: int32, dy: int32)
    | NegativeCode

  /** The chord state that keyboardProc keeps between calls. */
  datatype Chord = Chord(ctrlHeld: bool, altHeld: bool, hotkeyVDown: bool) {
    predicate Held() {
      ctrlHeld && altHeld
    }

    /** Is this the hotkey: V going down under Ctrl and Alt, or coming up from that? */
    predicate Takes(input: Input) {
      && input.Keyboard? && !input.injected && input.key == Some(V)
      && if input.down then Held() else hotkeyVDown
    }

    function Track(key: Option<KeyName>, down: bool): Chord {
      match key
      case Some(ControlLeft) => this.(ctrlHeld := down)
      case Some(ControlRight) => this.(ctrlHeld := down)
      case Some(AltLeft) => this.(altHeld := down)
      case Some(AltRight) => this.(altHeld := down)
      case _ => this
    }
  }

  const NO_CHORD := Chord(false, false, false)

  /** What one callback does: the new chord state, whether the rest of the system sees the input, what
      is offered to the events channel, and whether the engaged flag is set. */
  datatype Decision = Decision(chord: Chord, passedOn: bool, emit: Option<Event>, crossed: bool)

  predicate Forwards(edge: Edge, engaged: bool) {
    edge == LEGACY || engaged
  }

  predicate Suppresses(edge: Edge, engaged: bool) {
    edge != LEGACY && engaged
  }

  /** An input subject to nothing but the engaged flag. */
  function Gate(edge: Edge, engaged: bool, chord: Chord, event: Option<Event>): Decision {
    Decision(chord, !Suppresses(edge, engaged), if Forwards(edge, engaged) then event else None, false)
  }

  function Untouched(chord: Chord): Decision {
    Decision(chord, true, None, false)
  }

  function DecideKey(edge: Edge, engaged: bool, chord: Chord, key: Option<KeyName>, down: bool): Decision {
    var now := chord.Track(key, down);
    if key == Some(V) && down && now.Held() then
      Decision(now.(hotkeyVDown := true), false, if now.hotkeyVDown then None else Some(HotkeyPasteEvent), false)
    else if key == Some(V) && !down && now.hotkeyVDown then
      Decision(now.(hotkeyVDown := false), false, None, false)
    else
      Gate(edge, engaged, now, if key.Some? then Some(KeyEvent(key.value, down)) else None)
  }

  function DecideMove(edge: Edge, bounds: Bounds, engaged: bool, chord: Chord, at: Point): Decision {
    var relPos := EdgeCrossed(edge, bounds, at);
    if edge != LEGACY && !engaged && relPos.Some? then
      Decision(chord, false, Some(EdgeCrossedEvent(relPos.value)), true)
    else
      Decision(chord, !Suppresses(edge, engaged), None, false)
  }

  function Decide(edge: Edge, bounds: Bounds, engaged: bool, chord: Chord, input: Input): Decision {
    match input
    case Keyboard(injected, key, down) =>
      if injected then Untouched(chord) else DecideKey(edge, engaged, chord, key, down)
    case CursorMove(injected, at) =>
      if injected then Untouched(chord) else DecideMove(edge, bounds, engaged, chord, at)
    case ButtonChange(injected, button, down) =>
      if injected then Untouched(chord) else Gate(edge, engaged, chord, Some(MouseButtonEvent(button, down)))
    case Wheel(injected, data) =>
      if injected then Untouched(chord) else Gate(edge, engaged, chord, Some(MouseWheelEvent(WheelAmount(data))))
    case OtherMouseMessage => Untouched(chord)
    case NegativeCode => Untouched(chord)
    case RawMotion(relative, dx, dy) =>
      // Raw input is a copy for this process alone: there is nothing to pass on.
      Decision(chord, false,
               if relative && (dx, dy) != (0, 0) && Forwards(edge, engaged) then Some(MouseMoveEvent(dx, dy)) else None,
               false)
  }

  /** int16(uint16(data >> 16)) */
  function HighWord(data: uint32): (w: int)
    ensures -0x8000 <= w < 0x8000 && (data / 0x1_0000 - w) % 0x1_0000 == 0
  {
    var hiword := data / 0x1_0000;
    if hiword < 0x8000 then hiword else hiword - 0x1_0000
  }

  /** Its quotient by 120, with Go's division towards zero. */
  function WheelAmount(data: uint32): (amount: int32)
    ensures var w := HighWord(data);
            && -120 < w - 120 * amount < 120
            && (if w >= 0 then 0 <= 120 * amount <= w else w <= 120 * amount <= 0)
  {
    var w := HighWord(data);
    if w < 0 then -(-w / 120) else w / 120
  }

  predicate HasBit(flags: uint32, bit: nat)
    requires bit > 0
  {
    flags / bit % 2 == 1
  }

  function KeyInput(names: map<uint32, KeyName>, nCode: int32, wParam: uint32, vkCode: uint32, flags: uint32): Input {
    if nCode < 0 then NegativeCode
    else
      Keyboard(HasBit(flags, 0x10) || HasBit(flags, 0x02),
               if vkCode in names then Some(names[vkCode]) else None,
               wParam == WM_KEY_DOWN || wParam == WM_SYS_KEY_DOWN)
  }

  function MouseInput(nCode: int32, wParam: uint32, at: Point, mouseData: uint32, flags: uint32): Input {
    var injected := HasBit(flags, 0x01) || HasBit(flags, 0x02);
    if nCode < 0 then NegativeCode
    else if wParam == WM_MOUSE_MOVE then CursorMove(injected, at)
    else if wParam == WM_L_BUTTON_DOWN then ButtonChange(injected, LeftButton, true)
    else if wParam == WM_L_BUTTON_UP then ButtonChange(injected, LeftButton, false)
    else if wParam == WM_R_BUTTON_DOWN then ButtonChange(injected, RightButton, true)
    else if wParam == WM_R_BUTTON_UP then ButtonChange(injected, RightButton, false)
    else if wParam == WM_M_BUTTON_DOWN then ButtonChange(injected, MiddleButton, true)
    else if wParam == WM_M_BUTTON_UP then ButtonChange(injected, MiddleButton, false)
    else if wParam == WM_MOUSE_WHEEL then Wheel(injected, mouseData)
    else OtherMouseMessage
  }

  class WindowsSource {
    const edge: Edge
    const bounds: Bounds
    const names: map<uint32, KeyName>  // keys.VKToName

    var engaged: bool
    var ctrlHeld: bool
    var altHeld: bool
    var hotkeyVDown: bool
    var events: seq<Event>
    var cursorWarps: seq<Point>  // the calls of SetCursorPos

    function ChordState(): Chord
      reads this
    {
      Chord(ctrlHeld, altHeld, hotkeyVDown)
    }

    /** The state a callback leaves when it carries out d from the given flag and channel contents. */
    ghost predicate Obeyed(d: Decision, wasEngaged: bool, queue: seq<Event>)
      reads this
    {
      && ChordState() == d.chord
      && engaged == (wasEngaged || d.crossed)
      && events == Offer(queue, d.emit)
    }

    constructor (edge: Edge, bounds: Bounds, names: map<uint32, KeyName>)
      ensures this.edge == edge && this.bounds == bounds && this.names == names
      ensures !engaged && ChordState() == NO_CHORD && events == [] && cursorWarps == []
    {
      this.edge, this.bounds, this.names := edge, bounds, names;
      engaged, ctrlHeld, altHeld, hotkeyVDown := false, false, false, false;
      events, cursorWarps := [], [];
    }

    method SendEvent(e: Event)
      modifies this`events
      ensures events == Offer(old(events), Some(e))
    {
      if |events| < CAPACITY {
        events := events + [e];
      }
    }

    method ForwardAndSuppress() returns (forward: bool, suppress: bool)
      ensures forward == Forwards(edge, engaged) && suppress == Suppresses(edge, engaged)
    {
      if edge == LEGACY {
        return true, false;
      }
      return engaged, engaged;
    }

    /** The low-level keyboard hook. */
    method KeyboardProc(nCode: int32, wParam: uint32, vkCode: uint32, flags: uint32) returns (suppress: bool)
      modifies this`ctrlHeld, this`altHeld, this`hotkeyVDown, this`events
      ensures var input := KeyInput(names, nCode, wParam, vkCode, flags);
              var d := Decide(edge, bounds, engaged, old(ChordState()), input);
              Obeyed(d, old(engaged), old(events)) && suppress == !d.passedOn
    {
      suppress := false;
      if nCode >= 0 {
        var injected := HasBit(flags, 0x10) || HasBit(flags, 0x02);
        if !injected {
          var down := wParam == WM_KEY_DOWN || wParam == WM_SYS_KEY_DOWN;
          var key := if vkCode in names then Some(names[vkCode]) else None;
          match key {
            case Some(ControlLeft) => ctrlHeld := down;
            case Some(ControlRight) => ctrlHeld := down;
            case Some(AltLeft) => altHeld := down;
            case Some(AltRight) => altHeld := down;
            case _ =>
          }
          if key == Some(V) && down && ctrlHeld && altHeld {
            suppress := true;
            if !hotkeyVDown {
              hotkeyVDown := true;
              SendEvent(HotkeyPasteEvent);
            }
          } else if key == Some(V) && !down && hotkeyVDown {
            hotkeyVDown := false;
            suppress := true;
          } else {
            var forward;
            forward, suppress := ForwardAndSuppress();
            if forward && key.Some? {
              SendEvent(KeyEvent(key.value, down));
            }
          }
        }
      }
    }

    /** The low-level mouse hook. */
    method MouseProc(nCode: int32, wParam: uint32, at: Point, mouseData: uint32, flags: uint32) returns (suppress: bool)
      modifies this`engaged, this`events
      ensures var input := MouseInput(nCode, wParam, at, mouseData, flags);
              var d := Decide(edge, bounds, old(engaged), ChordState(), input);
              Obeyed(d, old(engaged), old(events)) && suppress == !d.passedOn
    {
      suppress := false;
      if nCode >= 0 {
        var injected := HasBit(flags, 0x01) || HasBit(flags, 0x02);
        if !injected {
          if wParam == WM_MOUSE_MOVE {
            var _, doSuppress := ForwardAndSuppress();
            if edge != LEGACY && !doSuppress {
              var relPos := EdgeCrossed(edge, bounds, at);
              if relPos.Some? {
                engaged := true;
                doSuppress := true;
                SendEvent(EdgeCrossedEvent(relPos.value));
              }
            }
            suppress := doSuppress;
          } else if wParam == WM_L_BUTTON_DOWN {
            suppress := ButtonProc(LeftButton, true);
          } else if wParam == WM_L_BUTTON_UP {
            suppress := ButtonProc(LeftButton, false);
          } else if wParam == WM_R_BUTTON_DOWN {
            suppress := ButtonProc(RightButton, true);
          } else if wParam == WM_R_BUTTON_UP {
            suppress := ButtonProc(RightButton, false);
          } else if wParam == WM_M_BUTTON_DOWN {
            suppress := ButtonProc(MiddleButton, true);
          } else if wParam == WM_M_BUTTON_UP {
            suppress := ButtonProc(MiddleButton, false);
          } else if wParam == WM_MOUSE_WHEEL {
            var forward;
            forward, suppress := ForwardAndSuppress();
            if forward {
              SendEvent(MouseWheelEvent(WheelAmount(mouseData)));
            }
          }
        }
      }
    }

    /** The six button cases of the mouse hook, which differ in nothing else. */
    method ButtonProc(button: Button, down: bool) returns (suppress: bool)
      modifies this`events
      ensures var e := Some(MouseButtonEvent(button, down));
              events == Offer(old(events), if Forwards(edge, engaged) then e else None)
      ensures suppress == Suppresses(edge, engaged)
    {
      var forward;
      forward, suppress := ForwardAndSuppress();
      if forward {
        SendEvent(MouseButtonEvent(button, down));
      }
    }

    /** WM_INPUT: `readable` is false when the payload cannot be read or is not a mouse's. */
    method HandleRawInput(readable: bool, usFlags: uint16, dx: int32, dy: int32)
      modifies this`events
      ensures var input := RawMotion(readable && !HasBit(usFlags, 0x01), dx, dy);
              Obeyed(Decide(edge, bounds, engaged, ChordState(), input), old(engaged), old(events))
    {
      if !readable {
        return;
      }
      if HasBit(usFlags, 0x01) {
        return;
      }
      if dx == 0 && dy == 0 {
        return;
      }
      var forward, _ := ForwardAndSuppress();
      if forward {
        SendEvent(MouseMoveEvent(dx, dy));
      }
    }

    /** Called on the controller loop's thread. */
    method Disengage(warp: Point)
      modifies this`engaged, this`cursorWarps
      ensures !engaged && cursorWarps == old(cursorWarps) + [warp]
    {
      engaged := false;
      cursorWarps := cursorWarps + [warp];
    }
  }

  /** In edge mode nothing is both passed on locally and offered for forwarding. */
  lemma NeverBoth(edge: Edge, bounds: Bounds, engaged: bool, chord: Chord, input: Input)
    requires edge != LEGACY
    ensures var d := Decide(edge, bounds, engaged, chord, input); !(d.passedOn && d.emit.Some?)
  {
  }
}
