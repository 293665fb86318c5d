/**
 * The controller's event loop: cmd/controller/edge_windows.go. `Config.React` says what the loop does
 * with one captured event; `LoopRun` folds it over a run; the method is the loop itself.
 */
module EdgeLoop {
  import opened Capture
  import opened CaptureWindows
  import opened EdgeMath
  import opened Edges
  import opened Integers
  import opened Wrappers

  /** What the controller sends: messages on the main connection, and positions over UDP. */
  datatype Outgoing =
    | Engage(edge: Edge, relPos: Fraction)
    | MouseMove(dx: int32, dy: int32)
    | Key(key: KeyName, down: bool)
    | MouseButton(button: Button, down: bool)
    | MouseWheel(amount: int32)
    | Position(seqNo: uint64, at: Point)

  /** A captured event, and whether a write to each connection would succeed when it is handled. */
  datatype Delivery = Delivery(event: Event, tcpOk: bool, udpOk: bool)

  /** The loop's variables; `udp` is the last sequence number used, while the UDP channel is up. */
  datatype State = State(engaged: bool, movedAway: bool, at: Point, udp: Option<uint64>)

  function Initial(udp: bool): State {
    State(false, false, Point(0, 0), if udp then Some(0) else None)
  }

  datatype Reaction =
    | Continue(state: State, out: seq<Outgoing>)
    | Release(warp: Point)
    | Paste(engaged: bool)
    | ConnectionLost(state: State)

  /** vx + e.DX and vy + e.DY, in int32 arithmetic. */
  function Shift(p: Point, dx: int32, dy: int32): Point {
    Point(Wrap32(p.x + dx), Wrap32(p.y + dy))
  }

  function NextSeq(seqNo: uint64): uint64 {
    if seqNo == 0xFFFF_FFFF_FFFF_FFFF then 0 else seqNo + 1
  }

  datatype Config = Config(edge: Edge, target: Size, bounds: Bounds, clipboard: bool) {
    function EntryEdge(): Edge {
      edge.Opposite()
    }

    function Warp(p: Point): Point {
      ControllerWarpPosition(edge, ReleaseRelPos(EntryEdge(), ClampTo(target, p), target), bounds)
    }

    function Pass(s: State, d: Delivery, m: Outgoing): Reaction {
      if !s.engaged then Continue(s, []) else if d.tcpOk then Continue(s, [m]) else ConnectionLost(s)
    }

    function ReactToMove(s: State, d: Delivery, dx: int32, dy: int32): Reaction {
      var next := Shift(s.at, dx, dy);
      var pushing := PushesPast(EntryEdge(), next, target);
      if !s.engaged then Continue(s, [])
      else if s.movedAway && pushing then Release(Warp(next))
      else
        var at := ClampTo(target, next);
        var moved := s.(at := at, movedAway := s.movedAway || (!pushing && HasMovedAway(EntryEdge(), at, target)));
        if s.udp.Some? && d.udpOk then
          var n := NextSeq(s.udp.value);
          Continue(moved.(udp := Some(n)), [Position(n, at)])
        else
          Pass(moved.(udp := None), d, MouseMove(dx, dy))
    }

    function React(s: State, d: Delivery): Reaction {
      match d.event
      case EdgeCrossedEvent(relPos) =>
        Pass(State(true, false, EntryPosition(EntryEdge(), relPos, target), s.udp), d, Engage(edge, relPos))
      case MouseMoveEvent(dx, dy) => ReactToMove(s, d, dx, dy)
      case KeyEvent(key, down) => Pass(s, d, Key(key, down))
      case MouseButtonEvent(button, down) => Pass(s, d, MouseButton(button, down))
      case MouseWheelEvent(amount) => Pass(s, d, MouseWheel(amount))
      case HotkeyPasteEvent => if clipboard then Paste(s.engaged) else Continue(s, [])
    }
  }

  /** Everything the loop has done: `warps` are its Disengage calls, `pastes` the clipboard transfers. */
  datatype Outcome = Outcome(state: State, out: seq<Outgoing>, warps: seq<Point>, pastes: seq<bool>, lost: bool) {
    function Then(c: Config, d: Delivery): Outcome {
      if lost then this
      else
        match c.React(state, d)
        case Continue(s, o) => this.(state := s, out := out + o)
        case Release(warp) => this.(state := state.(engaged := false), warps := warps + [warp])
        case Paste(engaged) => this.(pastes := pastes + [engaged])
        case ConnectionLost(s) => this.(state := s, lost := true)
    }
  }

  datatype LoopRun = LoopRun(config: Config, start: State, deliveries: seq<Delivery>) {
    /** The outcome of the first n deliveries. */
    function After(n: nat): Outcome
      requires n <= |deliveries|
    {
      if n == 0 then Outcome(start, [], [], [], false) else After(n - 1).Then(config, deliveries[n - 1])
    }
  }

  /** The first message the target sends after authentication. */
  datatype Greeting = Unreadable | NotScreenInfo | ScreenInfo(width: int32, height: int32)

  /** The errors runEdgeAware returns; it returns nothing else. */
  datatype Stop = NoScreenInfo | InvalidScreen | LostConnection | CaptureStopped

  class UdpMouseClient {
    var seqNo: uint64

    constructor ()
      ensures seqNo == 0
    {
      seqNo := 0;
    }

    method SendPosition(at: Point, ok: bool) returns (sent: Option<Outgoing>)
      modifies this
      ensures seqNo == NextSeq(old(seqNo))
      ensures sent == if ok then Some(Position(seqNo, at)) else None
    {
      seqNo := if seqNo == 0xFFFF_FFFF_FFFF_FFFF then 0 else seqNo + 1;
      sent := if ok then Some(Position(seqNo, at)) else None;
    }
  }

  ghost function SeqOf(c: UdpMouseClient?): Option<uint64>
    reads c
  {
    if c == null then None else Some(c.seqNo)
  }

  /** The variables of runEdgeAware, and what it has sent and started so far. */
  class Controller {
    const config: Config
    const src: WindowsSource

    var engaged: bool
    var movedAway: bool
    var at: Point  // the simulated cursor (vx, vy) on the target
    var udpMouse: UdpMouseClient?
    var sent: seq<Outgoing>
    var pastes: seq<bool>

    ghost function LoopState(): State
      reads this, udpMouse
    {
      State(engaged, movedAway, at, SeqOf(udpMouse))
    }

    ghost function View(lost: bool): Outcome
      reads this, udpMouse, src
    {
      Outcome(LoopState(), sent, src.cursorWarps, pastes, lost)
    }

    constructor (config: Config, src: WindowsSource, udpMouse: UdpMouseClient?)
      ensures this.config == config && this.src == src && this.udpMouse == udpMouse
      ensures LoopState() == Initial(false).(udp := SeqOf(udpMouse)) && sent == [] && pastes == []
    {
      this.config, this.src, this.udpMouse := config, src, udpMouse;
      engaged, movedAway, at, sent, pastes := false, false, Point(0, 0), [], [];
    }

    /** WriteMessage on the main connection; an error makes the loop return. */
    method Write(m: Outgoing, ok: bool) returns (lost: bool)
      modifies this`sent
      ensures lost == !ok && sent == if ok then old(sent) + [m] else old(sent)
    {
      if ok {
        sent := sent + [m];
      }
      lost := !ok;
    }

    /** A move while engaged: release, or simulate the target's cursor and forward the move. */
    method HandleMove(d: Delivery, dx: int32, dy: int32) returns (lost: bool)
      requires engaged && d.event == MouseMoveEvent(dx, dy)
      modifies this, src`engaged, src`cursorWarps, udpMouse
      ensures View(lost) == old(View(false)).Then(config, d)
      ensures udpMouse == null || udpMouse == old(udpMouse)
    {
      var entryEdge := config.edge.Opposite();
      var next := Shift(at, dx, dy);
      var pushingOutEntry := PushesPast(entryEdge, next, config.target);
      if movedAway && pushingOutEntry {
        var relPos := ReleaseRelPos(entryEdge, ClampTo(config.target, next), config.target);
        src.Disengage(ControllerWarpPosition(config.edge, relPos, config.bounds));
        engaged := false;
        return false;
      }
      at := ClampTo(config.target, next);
      if !pushingOutEntry && !movedAway {
        movedAway := HasMovedAway(entryEdge, at, config.target);
      }
      if udpMouse != null {
        var packet := udpMouse.SendPosition(at, d.udpOk);
        if packet.Some? {
          sent := sent + [packet.value];
          return false;
        }
        udpMouse := null;
      }
      lost := Write(MouseMove(dx, dy), d.tcpOk);
    }

    /** The body of the loop over the events channel. */
    method HandleEvent(d: Delivery) returns (lost: bool)
      modifies this, src`engaged, src`cursorWarps, udpMouse
      ensures View(lost) == old(View(false)).Then(config, d)
      ensures udpMouse == null || udpMouse == old(udpMouse)
    {
      lost := false;
      match d.event {
        case EdgeCrossedEvent(relPos) =>
          engaged := true;
          movedAway := false;
          at := EntryPosition(config.edge.Opposite(), relPos, config.target);
          lost := Write(Engage(config.edge, relPos), d.tcpOk);
        case MouseMoveEvent(dx, dy) =>
          if engaged {
            lost := HandleMove(d, dx, dy);
          }
        case KeyEvent(key, down) =>
          if engaged {
            lost := Write(Key(key, down), d.tcpOk);
          }
        case MouseButtonEvent(button, down) =>
          if engaged {
            lost := Write(MouseButton(button, down), d.tcpOk);
          }
        case MouseWheelEvent(amount) =>
          if engaged {
            lost := Write(MouseWheel(amount), d.tcpOk);
          }
        case HotkeyPasteEvent =>
          if config.clipboard {
            pastes := pastes + [engaged];
          }
      }
    }
  }

  /**
   * One session: everything sent, in order, the clipboard transfers started, and where the cursor was
   * warped. `deliveries` is what the events channel yields until it is closed.
   */
  method RunEdgeAware(greeting: Greeting, edge: Edge, clipboard: bool, udpNegotiated: bool, bounds: Bounds,
                      names: map<uint32, KeyName>, deliveries: seq<Delivery>)
    returns (stop: Stop, sent: seq<Outgoing>, pastes: seq<bool>, warps: seq<Point>)
    ensures match greeting
            case Unreadable => (stop, sent, pastes, warps) == (NoScreenInfo, [], [], [])
            case NotScreenInfo => (stop, sent, pastes, warps) == (NoScreenInfo, [], [], [])
            case ScreenInfo(w, h) =>
              if w <= 0 || h <= 0 then (stop, sent, pastes, warps) == (InvalidScreen, [], [], [])
              else
                var config := Config(edge, Size(w, h), bounds, clipboard);
                var o := LoopRun(config, Initial(udpNegotiated), deliveries).After(|deliveries|);
                && stop == (if o.lost then LostConnection else CaptureStopped)
                && sent == o.out && pastes == o.pastes && warps == o.warps
  {
    if !greeting.ScreenInfo? {
      return NoScreenInfo, [], [], [];
    }
    if greeting.width <= 0 || greeting.height <= 0 {
      return InvalidScreen, [], [], [];
    }
    var udpMouse: UdpMouseClient? := null;
    if udpNegotiated {
      udpMouse := new UdpMouseClient();
    }
    var src := new WindowsSource(edge, bounds, names);
    var config := Config(edge, Size(greeting.width, greeting.height), bounds, clipboard);
    var c := new Controller(config, src, udpMouse);
    ghost var run := LoopRun(config, Initial(udpNegotiated), deliveries);
    for i := 0 to |deliveries|
      invariant c.udpMouse == null || fresh(c.udpMouse)
      invariant c.View(false) == run.After(i)
    {
      var lost := c.HandleEvent(deliveries[i]);
      assert c.View(lost) == run.After(i + 1);
      if lost {
        LostStaysLost(run, i + 1);
        return LostConnection, c.sent, c.pastes, src.cursorWarps;
      }
    }
    return CaptureStopped, c.sent, c.pastes, src.cursorWarps;
  }

  /** A lost connection ends the run. */
  lemma {:induction false} LostStaysLost(r: LoopRun, n: nat)
    requires n <= |r.deliveries| && r.After(n).lost
    ensures r.After(|r.deliveries|) == r.After(n)
    decreases |r.deliveries| - n
  {
    if n < |r.deliveries| {
      LostStaysLost(r, n + 1);
    }
  }
}
