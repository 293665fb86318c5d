/**
 * The hook thread and the controller loop together: two threads that share the engaged flag and the
 * events channel, in every interleaving of their atomic steps. What each step computes is `Decide`
 * (CaptureWindows) and `React` (EdgeLoop); history variables record which input became what.
 */
module Handover {
  import opened Capture
  import opened CaptureWindows
  import opened EdgeLoop
  import opened EdgeMath
  import opened Edges
  import opened Wrappers

  /** Captured: the event, the number of crossings there had been, and the hook call it came from. */
  datatype Tagged = Tagged(event: Event, epoch: nat, id: nat)

  datatype Wired = Wired(message: Outgoing, epoch: nat, id: nat)

  /** Where the hook thread is: it loads the flag, stores it on a crossing, sends, and returns. */
  datatype HookPc =
    | Idle
    | Storing(decision: Decision, id: nat)
    | Sending(decision: Decision, id: nat)
    | Returning(passedOn: bool, emitted: bool, id: nat)

  /** Where the loop is: Disengage stores the flag and warps before the loop clears its own. */
  datatype LoopPc = Waiting | BeforeStore(warp: Point) | BeforeWarp(warp: Point) | BeforeClear | Stopped

  datatype Reason =
    | HotkeyKey        // the V of Ctrl+Alt+V
    | UnknownKey
    | Motion           // a cursor position while engaged, which travels as raw motion, or raw input of no use
    | ChannelFull(queued: nat)
    | NotEngaged
    | ReleaseMove      // the move that hands control back
    | ConnectionDown

  /** What has become of a hook call. */
  datatype Fate = InHook | PassedOn | Queued | OnWire | Withheld(reason: Reason)

  /** A hook call, with the flag it loaded, the number of crossings before it and the chord state it
      found. Its id is its place in the history. */
  datatype Call = Call(input: Input, engaged: bool, epoch: nat, chord: Chord, fate: Fate) {
    /** The engagement that what comes of this call belongs to: a crossing starts the next one. */
    function Engagement(crossing: bool): nat {
      if crossing then epoch + 1 else epoch
    }
  }

  function Settle(calls: seq<Call>, id: nat, fate: Fate): seq<Call>
    requires id < |calls|
  {
    calls[id := calls[id].(fate := fate)]
  }

  datatype System = System(
    config: Config,
    engaged: bool,         // shared: the atomic flag
    queue: seq<Tagged>,    // shared: the events channel
    chord: Chord,
    hook: HookPc,
    epoch: nat,            // crossings stored by the hook
    loop: State,
    pc: LoopPc,
    closed: nat,           // the last epoch that a Disengage ended
    crossingLost: bool,    // an EdgeCrossedEvent met a full channel
    calls: seq<Call>,      // every hook call, by id
    wire: seq<Wired>,      // what was sent, in order
    local: seq<nat>,       // the calls passed on to the local system, in order
    warps: seq<Point>)

  datatype Step =
    | HookCall(input: Input)
    | HookStore
    | HookSend
    | HookReturn
    | LoopTake(tcpOk: bool, udpOk: bool)
    | LoopStore
    | LoopWarp
    | LoopClear

  function Start(config: Config, udp: bool): System {
    System(config, false, [], NO_CHORD, Idle, 0, Initial(udp), Waiting, 0, false, [], [], [], [])
  }

  predicate Enabled(s: System, step: Step) {
    match step
    case HookCall(_) => s.hook.Idle?
    case HookStore => s.hook.Storing?
    case HookSend => s.hook.Sending? && s.hook.decision.emit.Some? && s.hook.id < |s.calls|
    case HookReturn => s.hook.Returning? && s.hook.id < |s.calls|
    case LoopTake(_, _) => s.pc.Waiting? && s.queue != [] && s.queue[0].id < |s.calls|
    case LoopStore => s.pc.BeforeStore?
    case LoopWarp => s.pc.BeforeWarp?
    case LoopClear => s.pc.BeforeClear?
  }

  function Apply(s: System, step: Step): System
    requires Enabled(s, step)
  {
    match step
    case HookCall(input) => Called(s, input, Decide(s.config.edge, s.config.bounds, s.engaged, s.chord, input))
    case HookStore => s.(engaged := true, epoch := s.epoch + 1, hook := Sending(s.hook.decision, s.hook.id))
    case HookSend => Sent(s)
    case HookReturn => Returned(s)
    case LoopTake(tcpOk, udpOk) => Taken(s, s.config.React(s.loop, Delivery(s.queue[0].event, tcpOk, udpOk)))
    case LoopStore => s.(engaged := false, closed := s.epoch, pc := BeforeWarp(s.pc.warp))
    case LoopWarp => s.(warps := s.warps + [s.pc.warp], pc := BeforeClear)
    case LoopClear => s.(loop := s.loop.(engaged := false), pc := Waiting)
  }

  function Called(s: System, input: Input, d: Decision): System {
    var id := |s.calls|;
    s.(calls := s.calls + [Call(input, s.engaged, s.epoch, s.chord, InHook)], chord := d.chord,
       hook := if d.crossed then Storing(d, id)
               else if d.emit.Some? then Sending(d, id)
               else Returning(d.passedOn, false, id))
  }

  function Sent(s: System): System
    requires Enabled(s, HookSend)
  {
    var d, id := s.hook.decision, s.hook.id;
    var t := s.(hook := Returning(d.passedOn, true, id));
    if |s.queue| < CAPACITY then
      t.(queue := Offer(s.queue, Some(Tagged(d.emit.value, s.epoch, id))), calls := Settle(s.calls, id, Queued))
    else
      t.(calls := Settle(s.calls, id, Withheld(ChannelFull(|s.queue|))), crossingLost := s.crossingLost || d.crossed)
  }

  function Returned(s: System): System
    requires Enabled(s, HookReturn)
  {
    var id := s.hook.id;
    var t := s.(hook := Idle);
    if s.hook.passedOn then t.(local := s.local + [id], calls := Settle(s.calls, id, PassedOn))
    else if !s.hook.emitted then t.(calls := Settle(s.calls, id, Withheld(SilentReason(s.calls[id].input))))
    else t
  }

  /** Why a call that is neither passed on nor sent ends there. */
  function SilentReason(input: Input): Reason {
    if !input.Keyboard? then Motion else if input.key == Some(V) then HotkeyKey else UnknownKey
  }

  function Taken(s: System, r: Reaction): System
    requires s.queue != [] && s.queue[0].id < |s.calls|
  {
    var head := s.queue[0];
    var t := s.(queue := s.queue[1..]);
    match r
    case Continue(loop, out) =>
      t.(loop := loop, wire := s.wire + seq(|out|, i requires 0 <= i < |out| => Wired(out[i], head.epoch, head.id)),
         calls := Settle(s.calls, head.id, if out != [] then OnWire
                                           else if head.event.HotkeyPasteEvent? then Withheld(HotkeyKey)
                                           else Withheld(NotEngaged)))
    case Release(warp) => t.(pc := BeforeStore(warp), calls := Settle(s.calls, head.id, Withheld(ReleaseMove)))
    case Paste(_) => t.(calls := Settle(s.calls, head.id, Withheld(HotkeyKey)))
    case ConnectionLost(loop) =>
        t.(loop := loop, pc := Stopped, calls := Settle(s.calls, head.id, Withheld(ConnectionDown)))
  }

  /** Step i leads from state i to the next one. */
  predicate StepAt(states: seq<System>, steps: seq<Step>, i: nat)
    requires i < |steps| && |states| == |steps| + 1
  {
    Enabled(states[i], steps[i]) && states[i + 1] == Apply(states[i], steps[i])
  }

  /** The states of a run: the start, and after every step. */
  predicate Run(states: seq<System>, steps: seq<Step>) {
    && |states| == |steps| + 1
    && (exists udp :: states[0] == Start(states[0].config, udp))
    && states[0].config.edge.IsSide()
    && forall i | 0 <= i < |steps| :: StepAt(states, steps, i)
  }

  // ---------------------------------------------------------------- the two flags

  /** The loop is engaged, and has not handed control back by storing the flag. */
  predicate Active(s: System) {
    s.loop.engaged && !s.pc.BeforeWarp? && !s.pc.BeforeClear?
  }

  predicate CrossingQueued(s: System) {
    exists i | 0 <= i < |s.queue| :: s.queue[i].event.EdgeCrossedEvent?
  }

  predicate CrossingInHook(s: System) {
    s.hook.Sending? && s.hook.decision.crossed
  }

  predicate CrossingPending(s: System) {
    CrossingQueued(s) || CrossingInHook(s)
  }

  predicate OneCrossing(s: System) {
    forall i, j | 0 <= i < j < |s.queue| :: !(s.queue[i].event.EdgeCrossedEvent? && s.queue[j].event.EdgeCrossedEvent?)
  }

  predicate HookShape(s: System) {
    && s.config.edge.IsSide()
    && ((s.hook.Storing? || s.hook.Sending?) ==>
          && s.hook.decision.emit.Some? && !s.hook.decision.passedOn
          && (s.hook.decision.crossed <==> s.hook.decision.emit.value.EdgeCrossedEvent?))
    && (s.hook.Storing? ==> !s.engaged && s.hook.decision.crossed)
  }

  predicate Flags(s: System) {
    && HookShape(s)
    && (!s.pc.Waiting? ==> s.loop.engaged)
    && OneCrossing(s) && !(CrossingQueued(s) && CrossingInHook(s))
    && (Active(s) ==> s.engaged)
    && (CrossingPending(s) ==> s.engaged && !Active(s))
    && (if s.crossingLost then s.engaged && !Active(s) && !CrossingPending(s)
        else s.engaged ==> Active(s) || CrossingPending(s))
  }

  // ---------------------------------------------------------------- epochs

  function LastEngage(wire: seq<Wired>): Option<nat> {
    if wire == [] then None
    else if wire[|wire| - 1].message.Engage? then Some(wire[|wire| - 1].epoch)
    else LastEngage(wire[..|wire| - 1])
  }

  /** Every message but an Engage was captured in the epoch of the latest Engage before it. */
  predicate NothingStale(wire: seq<Wired>) {
    forall i | 0 <= i < |wire| && !wire[i].message.Engage? :: LastEngage(wire[..i]) == Some(wire[i].epoch)
  }

  predicate NoCrossingUpTo(q: seq<Tagged>, n: nat)
    requires n < |q|
  {
    forall i | 0 <= i <= n :: !q[i].event.EdgeCrossedEvent?
  }

  /** Epoch e has no engagement left to come: it was disengaged, or its crossing was lost. */
  predicate Over(s: System, e: nat) {
    e <= s.closed || (s.crossingLost && e == s.epoch)
  }

  predicate QueueEpochs(s: System) {
    && s.closed <= s.epoch
    && (forall i | 0 <= i < |s.queue| :: s.queue[i].epoch <= s.epoch)
    && (forall i, j | 0 <= i <= j < |s.queue| && s.queue[i].event.EdgeCrossedEvent? :: s.queue[j].epoch == s.epoch)
    && (Active(s) ==> forall i | 0 <= i < |s.queue| :: s.queue[i].epoch == s.epoch)
    && (!Active(s) ==> forall i | 0 <= i < |s.queue| && NoCrossingUpTo(s.queue, i) :: Over(s, s.queue[i].epoch))
    && (!Active(s) && !CrossingPending(s) ==> Over(s, s.epoch))
  }

  predicate WireEpochs(s: System) {
    && (Active(s) && !s.pc.Stopped? ==> LastEngage(s.wire) == Some(s.epoch))
    && NothingStale(s.wire)
  }

  predicate Epochs(s: System) {
    QueueEpochs(s) && WireEpochs(s)
  }

  // ---------------------------------------------------------------- fates

  /** The event is what this input means. */
  predicate Means(c: Config, input: Input, e: Event) {
    match e
    case KeyEvent(key, down) => input == Keyboard(false, Some(key), down)
    case MouseButtonEvent(button, down) => input == ButtonChange(false, button, down)
    case MouseWheelEvent(amount) => input.Wheel? && !input.injected && amount == WheelAmount(input.mouseData)
    case MouseMoveEvent(dx, dy) => input == RawMotion(true, dx, dy)
    case EdgeCrossedEvent(relPos) => input.CursorMove? && EdgeCrossed(c.edge, c.bounds, input.at) == Some(relPos)
    case HotkeyPasteEvent => input == Keyboard(false, Some(V), true)
  }

  /** The message carries this input. */
  predicate Carries(c: Config, input: Input, m: Outgoing) {
    match m
    case Key(key, down) => Means(c, input, KeyEvent(key, down))
    case MouseButton(button, down) => Means(c, input, MouseButtonEvent(button, down))
    case MouseWheel(amount) => Means(c, input, MouseWheelEvent(amount))
    case MouseMove(dx, dy) => Means(c, input, MouseMoveEvent(dx, dy))
    case Position(_, _) => input.RawMotion?
    case Engage(edge, relPos) => edge == c.edge && Means(c, input, EdgeCrossedEvent(relPos))
  }

  /** A cursor position in an engagement, whose motion travels as raw input; or raw input that is not
      relative, is no motion, or came outside an engagement. */
  predicate NotNeeded(call: Call) {
    match call.input
    case CursorMove(_, _) => call.engaged
    case RawMotion(relative, dx, dy) => !relative || (dx == 0 && dy == 0) || !call.engaged
    case _ => false
  }

  predicate Justified(s: System, call: Call, r: Reason) {
    match r
    case HotkeyKey => call.chord.Takes(call.input)
    case UnknownKey => call.input.Keyboard? && call.input.key == None && call.engaged
    case Motion => NotNeeded(call)
    case ChannelFull(queued) => queued >= 2048
    case NotEngaged => Over(s, call.epoch)
    case ReleaseMove => call.input.RawMotion?
    case ConnectionDown => s.pc.Stopped?
  }

  predicate Tags(c: Config, call: Call, t: Tagged) {
    && Means(c, call.input, t.event) && t.epoch == call.Engagement(t.event.EdgeCrossedEvent?)
    && (t.event.HotkeyPasteEvent? ==> call.chord.Takes(call.input))
  }

  predicate Wires(c: Config, call: Call, w: Wired) {
    Carries(c, call.input, w.message) && w.epoch == call.Engagement(w.message.Engage?)
  }

  /** The queue holds exactly the calls with that fate, in the order they were captured. */
  predicate QueueFates(c: Config, calls: seq<Call>, queue: seq<Tagged>) {
    && (forall t | t in queue :: t.id < |calls| && calls[t.id].fate == Queued && Tags(c, calls[t.id], t))
    && (forall i, j | 0 <= i < j < |queue| :: queue[i].id < queue[j].id)
    && (forall id | 0 <= id < |calls| && calls[id].fate == Queued :: exists t | t in queue :: t.id == id)
  }

  /** So does the wire, and each message there carries the input of its call. */
  predicate WireFates(c: Config, calls: seq<Call>, wire: seq<Wired>) {
    && (forall w | w in wire :: w.id < |calls| && calls[w.id].fate == OnWire && Wires(c, calls[w.id], w))
    && (forall i, j | 0 <= i < j < |wire| :: wire[i].id < wire[j].id)
    && (forall id | 0 <= id < |calls| && calls[id].fate == OnWire :: exists w | w in wire :: w.id == id)
  }

  /** What is on the wire was captured before what is still queued. */
  predicate FirstInFirstOut(wire: seq<Wired>, queue: seq<Tagged>) {
    forall w, t | w in wire && t in queue :: w.id < t.id
  }

  predicate LocalFates(calls: seq<Call>, local: seq<nat>) {
    && (forall id | id in local :: id < |calls| && calls[id].fate == PassedOn)
    && (forall i, j | 0 <= i < j < |local| :: local[i] < local[j])
    && (forall id | 0 <= id < |calls| && calls[id].fate == PassedOn :: id in local)
  }

  /** The hook call in progress is the latest one, and the only one without a fate. */
  predicate HookFate(s: System)
    requires HookShape(s)
  {
    && (!s.hook.Idle? ==> s.hook.id == |s.calls| - 1)
    && (forall id | 0 <= id < |s.calls| && s.calls[id].fate == InHook :: !s.hook.Idle? && id == s.hook.id)
    && match s.hook
       case Idle => true
       case Storing(d, id) =>
         s.calls[id].fate == InHook && s.calls[id].epoch == s.epoch && Means(s.config, s.calls[id].input, d.emit.value)
       case Sending(d, id) =>
           s.calls[id].fate == InHook && Tags(s.config, s.calls[id], Tagged(d.emit.value, s.epoch, id))
       case Returning(passedOn, emitted, id) =>
         && !(passedOn && emitted) && (!emitted <==> s.calls[id].fate == InHook)
         && (!passedOn && !emitted ==> Justified(s, s.calls[id], SilentReason(s.calls[id].input)))
  }

  predicate Reasons(s: System) {
    forall id | 0 <= id < |s.calls| && s.calls[id].fate.Withheld? :: Justified(s, s.calls[id], s.calls[id].fate.reason)
  }

  predicate Places(s: System) {
    && QueueFates(s.config, s.calls, s.queue)
    && WireFates(s.config, s.calls, s.wire)
    && FirstInFirstOut(s.wire, s.queue)
    && LocalFates(s.calls, s.local)
  }

  predicate Fates(s: System) {
    HookShape(s) && HookFate(s) && Reasons(s) && Places(s)
  }
}
