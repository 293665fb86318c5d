/** Captured input events and the bounded channel they travel on: internal/capture/capture.go. */
module Capture {
  import opened Edges
  import opened Integers
  import opened Wrappers

  /** Key names: those the hotkey looks at, and every other one. */
  datatype KeyName = V | ControlLeft | ControlRight | AltLeft | AltRight | Named(name: string)

  datatype Button = LeftButton | RightButton | MiddleButton

  datatype Event =
    | KeyEvent(key: KeyName, down: bool)
    | MouseMoveEvent(dx: int32, dy: int32)
    | MouseButtonEvent(button: Button, down: bool)
    | MouseWheelEvent(amount: int32)
    | EdgeCrossedEvent(relPos: Fraction)
    | HotkeyPasteEvent

  /** What the events channel holds before sends are dropped. */
  const CAPACITY := 2048

  /** A send that never blocks: on a full channel the element is lost. */
  function Offer<T>(queue: seq<T>, e: Option<T>): seq<T> {
    if e.Some? && |queue| < CAPACITY then queue + [e.value] else queue
  }
}
