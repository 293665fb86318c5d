# kbs: edge switching, cursor replication and their surroundings

kbs shares one keyboard and mouse between two machines. In edge mode the *controller* (Windows) lets local
input through until the cursor reaches one side of its screen; from then on a hook thread suppresses local
input and queues it, and an event loop forwards it to the *target*, while simulating the target's cursor so
that pushing back over the entry edge hands control back. This project models that machinery and proves what
it is for: which machine gets which input, when control changes hands, and that the two cursors agree. The
layers beside it are modelled too: packet and frame codecs, clipboard bitmaps, the Linux capture loop, and the
pinning of certificates.

## How the model is laid out

| files | what they model |
|---|---|
| `Float64`, `Scaling` | double precision with its rounding, and fractions of an edge scaled to pixels in it |
| `Exactness`, `RoundTrips` | which places are scaled exactly, decided in integers; scaling there and back |
| `Edges`, `EdgeMath` | screens, edges and the geometry of crossing, entering, leaving and warping |
| `Capture`, `CaptureWindows`, `Hotkey`, `HookRules` | the hook thread: `Decide` is one callback, the class `WindowsSource` carries it out; the Ctrl+Alt+V automaton; what becomes of every input of every trace |
| `EdgeLoop` | the event loop: `Config.React` is one event, `LoopRun` a whole session, `RunEdgeAware` the loop itself |
| `Release`, `Engagements`, `Sending`, `Replication` | what holds of every session: when an engagement ends, how a session is made of engagements, what is sent on which channel, and what a target rebuilds from it |
| `Handover`, `HandoverSafety` | both threads over one shared flag and one bounded, lossy queue, in every interleaving of their atomic steps |
| `HandoverRefinement`, `HandoverHistory`, `HandoverReach` | that the loop's side is a sequential session and the hook's side a run of the hotkey automaton, and that the bad state can be reached |
| `Streams`, `Frames`, `ClipSync`, `Protocol`, `MouseSync` | byte streams, length-prefixed frames and the authenticated mouse packets |
| `Bits`, `Clipboard`, `Blocks` | device-independent bitmaps: header, masks, pixel loops; what is read from every block and found in a written one, byte by byte |
| `CaptureLinux` | the evdev loop and its accumulator |
| `KnownHosts`, `Pinning` | the trust store and which targets are accepted, run after run |
| `Integers`, `Wrappers` | fixed-width integers with their byte orders; `Option` and `Result` |

Code that changes state in place is a method or a class here, and its contract ties it to a function on
values; the lemmas are about those functions. `Handover` uses the same `Decide` and `React` as the classes do,
so the theorems about interleavings are about the code's own decisions. `LoopRefines` carries everything proved
of a sequential session over to every interleaving, and `Engagements` everything proved of one engagement over
to every engagement of a session.

## Main results

- **Two flags.** The hook's flag and the loop's own disagree only between the store of a `Disengage` and the
  loop's next step; at most one crossing is queued; outside that window the hook is engaged exactly when the
  loop is or a crossing is on its way, *if and only if* no crossing was lost to a full queue. That can happen
  (`CrossingCanBeLost`), and then the controller suppresses local input for good and sends nothing
  (`LostCrossingIsForever`).
- **Which machine gets which input.** In every trace of hook calls an input reaches the local machine, and
  becomes an event, exactly by a rule about the inputs alone (`PassedOnExactly`, `EmitsExactly`): Ctrl and Alt
  are held as the latest call of their keys says (`HeldFlags`), and the hotkey is a V that goes down under
  both, until its release (`TakesHotkey`).
- **No stale input, nothing twice, nothing silently lost** (`NoStaleInput`, `EveryInputIsAccountedFor`): in
  every interleaving the local machine gets what that rule gives it, an input withheld as the hotkey is the
  hotkey's by the trace, and one withheld for a full queue was offered to a queue of 2048.
- **Which message goes where.** Each delivery sends exactly its own message, over UDP while that channel is up
  and over the main connection otherwise (`SendsExactly`); a session is lost exactly at the first write that
  the main connection needed and failed (`LostExactly`), and the UDP channel is up exactly until the first
  position it fails to take (`UdpIsUpUntilItFails`).
- **Replication.** Over TCP, over UDP and across the fallback, replaying what was sent gives the simulated
  cursor, if and only if no message is of the two kinds named below (`TargetFollows`), so always in a session
  whose events are plain (`PlainSessionsAgree`); over UDP, under loss, duplication and reordering, the newest
  position wins, and the cursors converge unless that position had overtaken the last Engage, when the target
  stays at the entry point (`TargetConverges`).
- **Release** is exact, never spurious, and cannot be put off by motion absorbed at the far side
  (`ReleaseIsExact`, `NeverAwayNeverReleased`, `PushingOutReleases`). At any point of a session the loop is
  engaged exactly if no delivery since the latest crossing released (`EngagedSinceCrossing`), and each release
  warps where its own move says (`EveryRelease`); no warp re-engages (`NoWarpReengages`).
- **Round trips**: crossing and returning in double precision, bitmaps, frames and messages under any chunking
  and any cut, packets. A bitmap of any header, masks and row order that shows an image is read as that image
  (`ReadBlock`), and what is written is pinned byte by byte.
- **Trust.** Over any sequence of runs no fingerprint is accepted that was not stored from the start or agreed
  to in some run for that address (`AcceptedWasAgreedTo`), and one address has one fingerprint while no failed
  write empties the store (`OneFingerprintPerAddress`).

Some expectations about the code turned out to hold only under a condition; each has its exact condition and,
where it fails, a witness:

- Scaling a place on an edge to the other screen and back is not exact in double precision, not even between
  equal edges: on two edges of 1920 pixels a cursor that crosses at 246 comes back at 244 (`TwoPixelsShort`).
  For all sizes it never comes back beyond where it crossed, and at most two pixels before it on an edge at
  least as long (`CrossingRoundTrip`). Which places are scaled exactly is a condition on three numbers of
  pixels, in integers: b must divide p * t, and what the double nearest to p / b lacks, t times over, must be
  at most half a unit of the product, which rounding makes up for (`ScaledExactly`). Up to lengths
  that multiply to 2^51 a cursor comes back exactly where it crossed if and only if that holds both ways
  (`Returns`), which between equal edges is one such condition on the offset (`ReturnsOnEqualEdges`).
- A crossing at the very end of an edge (a fraction of 1, which exactly a cursor at or past the far end of the
  bounds gives, by `CrossedOnOrBeyond`) puts the simulated cursor one past the screen, where a target cannot
  follow: `EntryAgrees` (exactly then) and `CrossingAtTheEndDrifts` (the two stay a pixel apart).
- The loop adds deltas in `int32`: it agrees with exact arithmetic on a move exactly if no sum overflows on an
  axis of more than one pixel (`MoveAgrees`), and a push out over the right or bottom edge releases exactly if
  its sum does not wrap (`PushReleasesUnlessItWraps`).
- Completing Ctrl+Alt in the middle of a press of V forwards the down and swallows the up
  (`ChordCompletedMidPress`); a press is handled whole exactly if all of its downs are chorded or none is
  (`HandledWholeExactly`), as with the two unchanged (`SteadyPress`).
- `Trust` truncates the store before it writes it: a write that fails there forgets every pin
  (`EmptiedStoreForgets`, `FailedWriteForgets`).
- A frame cut exactly between its header and its body is reported as a clean end of the stream (`CutFrame`).

Where the repository's text and its code differ, the model follows the code: `README.md:161` says that
`-fingerprint` pins the expected fingerprint, but the flag is not looked at once one is stored for the address
(`FlagHoldsUnlessStored`).

## Model

| member | source | states |
|---|---|---|
| Edges.Edge.Opposite | internal/protocol/protocol.go:62-75 | The facing edge of a side is a different side that runs the same way. |
| Edges.OppositeIsInvolution | internal/protocol/protocol.go:62-75 | Facing twice gives the edge back; only what is not a side faces itself. |
| EdgeMath.ClampIsNearest | cmd/controller/edge_math.go:94-102 | Clamping moves a point to the nearest one on the screen, on either axis. |
| Float64.RoundsToNearestEven | cmd/controller/edge_math.go:14-27 | Double precision rounds to the nearest unit, and of two equally near to the even one, as Go's float64 does. |
| Scaling.Scale | cmd/controller/edge_math.go:14-27 | A fraction of n pixels, multiplied in double precision and truncated, is 0 to n, and n only for the fraction 1. |
| Scaling.Quotient | cmd/controller/edge_math.go:65-72 | A clamped quotient in double precision is 1 exactly if the dividend is at least the divisor, and 0 if it is not positive. |
| Scaling.ScaledBounds | cmd/controller/edge_math.go:14-27 | For all sizes, the division, the product and the truncation together are off by less than one pixel and one part in 2^51. |
| Scaling.ScaledIsOneOfTwo | cmd/controller/edge_math.go:14-27 | Making p of b pixels a fraction and scaling it to t gives one of two numbers, for b * t up to 2^51: the integer quotient of p * t by b, or one less if b divides p * t. |
| Scaling.OneOfTwoIs | cmd/controller/edge_math.go:14-27 | Being one of the two means: the quotient, or one less with no remainder. |
| Exactness.ScaledExactly | cmd/controller/edge_math.go:14-27 | For all sizes, p of b pixels scaled to t is exactly p * t / b if and only if b divides p * t and an integer condition on p, b and t holds: the fraction's double lacks so little of p / b that rounding the product makes up for it. |
| Exactness.ScaledIs | cmd/controller/edge_math.go:14-27 | For b * t up to 2^51, what double precision makes of scaling is an integer formula: the quotient of p * t by b, less one exactly if it is whole and the condition fails. |
| RoundTrips.ScaledThereAndBack | cmd/controller/edge_math.go:14-92 | For all sizes, scaling there and back never gains, and loses at most 2 if t >= b; for b * t up to 2^51 it loses at most b/t + 1, at most 1 if t > b, and nothing exactly if the integer condition holds of p and of the place it is scaled to. |
| RoundTrips.ReturnsOnEqualEdges | cmd/controller/edge_math.go:14-92 | Between equal edges of n pixels that is one condition on the offset p: what the double nearest to p / n lacks is at most half a unit of its product by n. |
| RoundTrips.TwoPixelsLost | cmd/controller/edge_math.go:14-92 | In double precision 246 of 1920 pixels becomes 245 of 1920, and that 244. |
| EdgeMath.SidesOfAnEdge | cmd/controller/edge_math.go:31-61 | Pushed past an edge is at negative distance inside it, moved away at positive distance. |
| EdgeMath.CrossedOnOrBeyond | internal/capture/capture_windows.go:449-469 | A side is crossed exactly by a cursor on or beyond it; the fraction is 1 exactly at or past the far end of the edge, and 0 at or before its start. |
| EdgeMath.EntryOnEdge | cmd/controller/edge_math.go:14-27 | The entry point is exactly on the entry edge, and on the screen exactly if the fraction is below 1. |
| EdgeMath.PushedIsNotAway | cmd/controller/edge_math.go:31-61 | A cursor pushed past an edge and clamped does not count as moved away from it. |
| EdgeMath.CrossingRoundTrip | cmd/controller/edge_math.go:14-92 | In double precision, for all four edges: crossing, entering and leaving at the same place lands the cursor at what scaling there and back gives, within the bounds of a round trip, and for lengths that multiply to at most 2^51 exactly where it crossed if and only if the integer condition holds of the offset. |
| EdgeMath.TwoPixelsShort | cmd/controller/edge_math.go:14-92 | A cursor that crosses a top edge of 1920 pixels at 246 to a screen as wide comes back at 244. |
| EdgeMath.WarpDoesNotCross | cmd/controller/edge_math.go:65-92 | A release warps onto the controller's screen exactly if that is at least two pixels deep, then one pixel inside the edge, where no crossing is seen. |
| CaptureWindows.WheelAmount | internal/capture/capture_windows.go:543-544 | A wheel amount is the signed high word divided by 120, truncated towards zero. |
| CaptureWindows.WindowsSource.constructor | internal/capture/capture_windows.go:178-184 | A source starts disengaged, with no chord and an empty queue. |
| CaptureWindows.WindowsSource.SendEvent | internal/capture/capture_windows.go:357-365 | An event is appended if fewer than 2048 are queued, else lost; nothing else changes. |
| CaptureWindows.WindowsSource.ForwardAndSuppress | internal/capture/capture_windows.go:384-390 | Edge mode forwards and suppresses exactly while engaged; the legacy mode always forwards and never suppresses. |
| CaptureWindows.WindowsSource.KeyboardProc | internal/capture/capture_windows.go:394-445 | The keyboard hook does what Decide says: the new chord state, what is queued, and whether the key is suppressed. |
| CaptureWindows.WindowsSource.MouseProc | internal/capture/capture_windows.go:482-554 | So does the mouse hook, the engaged flag included. |
| CaptureWindows.WindowsSource.ButtonProc | internal/capture/capture_windows.go:503-538 | A button is queued and suppressed exactly as the gate says. |
| CaptureWindows.WindowsSource.HandleRawInput | internal/capture/capture_windows.go:331-355 | Only relative, non-zero motion of a readable mouse payload is queued, while the gate forwards. |
| CaptureWindows.WindowsSource.Disengage | internal/capture/capture_windows.go:186-192 | The flag is cleared and the cursor warped; chord and queue are left alone. |
| CaptureWindows.NeverBoth | internal/capture/capture_windows.go:384-554 | In edge mode no callback both passes an input on and queues something for it. |
| Hotkey.HeldFlags | internal/capture/capture_windows.go:402-409 | After any trace each modifier's flag says whether the latest call of a key of that name, left or right and typed by hand, was a down. |
| Hotkey.PendingFlag | internal/capture/capture_windows.go:411-430 | After any trace a paste is pending exactly if V went down with both modifiers held and has not been released since. |
| Hotkey.TakesHotkey | internal/capture/capture_windows.go:411-430 | A call is taken as the hotkey exactly if it is a V going down with both modifiers held or the release of such a V, and fires exactly at the first such down. |
| Hotkey.PendingUntilRelease | internal/capture/capture_windows.go:411-430 | Until V is released, a paste is pending exactly if it was or V has been chorded since. |
| Hotkey.NothingPending | internal/capture/capture_windows.go:411-430 | With V up, whatever happened before, no paste is pending. |
| Hotkey.FiringsAreSeparated | internal/capture/capture_windows.go:412-430 | Over every trace two firings of the hotkey have a release of V between them. |
| Hotkey.PressOutcome | internal/capture/capture_windows.go:400-438 | A press of V fires, at most once, exactly if some down of it came with Ctrl and Alt held; chorded downs are swallowed, others are ordinary keys, and the up is swallowed exactly if the press fired. |
| Hotkey.HandledWholeExactly | internal/capture/capture_windows.go:400-438 | A press is swallowed whole or ordinary throughout exactly if all of its downs came with Ctrl and Alt held, or none did. |
| Hotkey.SteadyPress | internal/capture/capture_windows.go:400-438 | With Ctrl and Alt unchanged, a press is swallowed whole with one firing, at its first down, or is ordinary throughout. |
| Hotkey.ChordCompletedMidPress | internal/capture/capture_windows.go:400-438 | A trace whose V goes down as an ordinary key and whose V up is swallowed. |
| HookRules.PassedOnExactly | internal/capture/capture_windows.go:384-554 | An input of a trace reaches the local machine exactly if it is injected or none of the hook's messages, or, unless it is raw input, is not the hotkey's, does not cross, and meets no engagement in edge mode. |
| HookRules.EmitsExactly | internal/capture/capture_windows.go:331-554 | An input becomes an event exactly by what it is: while engaged, or always without an edge, its own key, button, wheel amount or non-zero relative motion; a crossing while not engaged; the paste at the first chorded V of a press. |
| HookRules.EngagesExactly | internal/capture/capture_windows.go:489-502 | The engaged flag is set exactly by a cursor that reaches the edge in edge mode while not engaged. |
| HookRules.KeyboardArguments | internal/capture/capture_windows.go:394-401 | The keyboard hook's arguments, in the numbers of Win32: which message is a down, which flags mark an injected key, which codes are known. |
| HookRules.MouseArguments | internal/capture/capture_windows.go:482-545 | The mouse hook's arguments, message by message in the numbers of Win32. |
| EdgeLoop.UdpMouseClient.SendPosition | cmd/controller/edge_windows.go:49-53 | The sequence number advances, failed write or not, and a packet carries the new one. |
| EdgeLoop.Controller.constructor | cmd/controller/edge_windows.go:137-139 | The loop starts disengaged, at the origin, having sent nothing. |
| EdgeLoop.Controller.Write | cmd/controller/edge_windows.go:147-151 | A message is sent, or the connection counts as lost. |
| EdgeLoop.Controller.HandleMove | cmd/controller/edge_windows.go:154-191 | A move while engaged changes variables, messages and warps as the specification of one delivery says. |
| EdgeLoop.Controller.HandleEvent | cmd/controller/edge_windows.go:141-225 | So does every kind of event. |
| EdgeLoop.RunEdgeAware | cmd/controller/edge_windows.go:91-227 | A session refuses a bad greeting before it captures anything, else sends, warps and pastes what the run over its events does, and stops for a lost connection or because capture ended. |
| EdgeLoop.LostStaysLost | cmd/controller/edge_windows.go:147-151 | After a failed write on the main connection the session does nothing more. |
| Release.CrossingStartsEngagement | cmd/controller/edge_windows.go:143-152 | A crossing starts an engagement on the entry edge that has not moved away, whatever the loop did before. |
| Release.OneDelivery | cmd/controller/edge_windows.go:154-175 | One delivery of an engagement releases, or moves and clamps the cursor and remembers whether it is off the edge. |
| Release.EngagedUntilRelease | cmd/controller/edge_windows.go:154-175 | After any number of deliveries the loop is engaged exactly if none of them pushed out over the entry edge after an earlier one had left it; its cursor is the plain clamped walk. |
| Release.ReleaseIsExact | cmd/controller/edge_windows.go:158-170 | The first such move, and no earlier one, releases, with its own warp, and is not sent. |
| Release.NeverAwayNeverReleased | cmd/controller/edge_windows.go:158-175 | An engagement whose cursor never leaves the entry edge is never released, however hard it is pushed. |
| Release.DistanceShrinks | cmd/controller/edge_windows.go:158-175 | Once moved away and still engaged, with no sum that wraps, the distance to the entry edge has shrunk by at least the net outward motion. |
| Release.PushingOutReleases | cmd/controller/edge_windows.go:158-175 | Once moved away, any stretch of moves with a net outward motion of the screen's depth releases, unless the connection is lost or a sum wraps. |
| Release.PushReleasesUnlessItWraps | cmd/controller/edge_windows.go:158-161 | A single move that pushes out over the entry edge releases exactly if its int32 sum does not wrap. |
| Release.InAndOutReleases | cmd/controller/edge_windows.go:154-170 | A session of two moves that is released by the second. |
| Engagements.SplitAt | cmd/controller/edge_windows.go:141-225 | A session can be split anywhere before the connection is lost: n + m deliveries leave what n leave, with everything appended that the m after them do when run from the variables as they are then. |
| Engagements.RecordIsValid | cmd/controller/edge_windows.go:141-225 | The outcomes of a session, delivery by delivery, are a record of the kind the theorems about engagements speak of. |
| Engagements.EveryEngagement | cmd/controller/edge_windows.go:143-175 | From any crossing of a session up to the next, the loop is engaged exactly if no delivery so far met the release rule, has its cursor where the plain walk has it, and has warped once if one did. |
| Engagements.EveryRelease | cmd/controller/edge_windows.go:158-170 | In any engagement of a session the first delivery that meets the release rule releases it, with that move's own warp, and is not sent. |
| Engagements.EngagedSinceCrossing | cmd/controller/edge_windows.go:143-175 | At any point of a session the loop is engaged exactly if there has been a crossing and no delivery since the latest one met the release rule. |
| Engagements.UnmovedSessionRoundTrip | cmd/controller/edge_windows.go:143-170 | An engagement of a session that crossed somewhere, never moved along the edge and is released warps the cursor back within the bounds of a round trip. |
| Sending.SendsExactly | cmd/controller/edge_windows.go:143-223 | One delivery sends exactly its message: an Engage at any crossing; keys, buttons, wheel and motion while engaged; a position over UDP while that channel takes it, else the motion over the main connection, and UDP is given up; the session is lost exactly if the main connection was needed and failed. |
| Sending.LostExactly | cmd/controller/edge_windows.go:147-151 | A session is lost exactly once a delivery needed the main connection and the write to it failed. |
| Sending.UdpIsUpUntilItFails | cmd/controller/edge_windows.go:177-186 | The UDP channel, once negotiated, is up exactly until the first forwarded motion whose write to it fails. |
| Sending.PositionsAreNumbered | cmd/controller/edge_windows.go:49-53 | The positions sent in a session are numbered 1, 2, 3 and so on, without a gap. |
| Replication.StaysOnScreen | cmd/target/main.go:181-212 | Whatever messages arrive, in any order, the target's cursor stays on its screen. |
| Replication.EntryAgrees | cmd/target/main.go:207-234 | Controller and target agree on the entry point exactly if the fraction is below 1. |
| Replication.MoveAgrees | cmd/controller/edge_windows.go:158-172 | They agree on a move from a common place exactly if no int32 sum overflows on an axis of more than one pixel. |
| Replication.CrossingAtTheEndDrifts | cmd/controller/edge_windows.go:143-172 | A crossing at fraction 1 and one move back leave the cursors a pixel apart. |
| Replication.OneStep | cmd/controller/edge_windows.go:141-225 | A delivery sends one message that says what the variables became, or changes nothing a target could see. |
| Replication.TargetFollows | cmd/controller/edge_windows.go:143-191 | In every session, replaying what was sent gives the simulated cursor after every delivery, if and only if every Engage sent had a fraction below 1 and no delta sent over TCP overflowed from where the cursor was on an axis of more than one pixel. |
| Replication.PlainSessionsAgree | cmd/target/main.go:181-212 | In a session whose crossings are all before the very end of the edge, and whose deltas overflow from nowhere on the screen, replaying what was sent gives the simulated cursor after every delivery. |
| Replication.AgreedIsOnScreen | cmd/controller/edge_windows.go:172 | Where the two agree, the cursor is on the target's screen. |
| Replication.LastSeqIsHighest | cmd/target/main.go:276-292 | Whatever arrives, the target's last sequence number is the highest that arrived. |
| Replication.OlderPositionsIgnored | cmd/target/main.go:276-292 | Positions that are not newer leave the target untouched. |
| Replication.WherePositionsLead | cmd/target/main.go:276-292 | Whatever positions arrive in whatever order, the cursor is at the one with the highest number, or unmoved if none is newer than before. |
| Replication.PositionsAreOrdered | cmd/controller/edge_windows.go:177-186 | Sequence numbers strictly increase over the session, engagements included; no deltas are sent over TCP; the newest position of the current engagement is the simulated cursor. |
| Replication.OlderEngagementNeverOverrides | cmd/controller/edge_windows.go:177-186 | A position that arrives after a later one was applied changes nothing, whichever engagement it is from. |
| Replication.TargetConverges | cmd/target/main.go:207-292 | Under any loss, duplication and reordering, once the newest position has arrived the target is where the controller's simulation is, or still at the last Engage's entry point if that position had overtaken it. |
| HandoverSafety.DecideIsSound | internal/capture/capture_windows.go:394-554 | In edge mode an event queued for an input says what the input said, a paste is queued only for the hotkey, and an input neither passed on nor queued is the hotkey's V under its chord, an unknown key, or motion. |
| HandoverSafety.ReactShape | cmd/controller/edge_windows.go:141-225 | A crossing makes one Engage; any other event makes one message of its own kind while engaged and none otherwise. |
| HandoverSafety.FlagsKept | internal/capture/capture_windows.go:489-502 | Every atomic step of either thread keeps the relation between the two flags, the queue and the step under way. |
| HandoverSafety.EpochsKept | cmd/controller/edge_windows.go:141-215 | Every step keeps the order of engagements in the queue and on the wire. |
| HandoverSafety.FatesKept | internal/capture/capture_windows.go:394-554 | Every step keeps each hook call in exactly one place, in capture order, or withheld for a reason that holds of the chord state it found, the queue length it met, its engagement or the connection. |
| HandoverSafety.Always | internal/capture/capture_windows.go:489-502 | All three hold in every state of every interleaving. |
| HandoverSafety.FlagsAgree | internal/capture/capture_windows.go:186-192 | The loop is engaged without the hook only while a Disengage is under way; at most one crossing is queued; outside that window the hook is engaged exactly if the loop is or a crossing is on its way, if and only if no crossing was lost. |
| HandoverSafety.LostCrossingIsForever | internal/capture/capture_windows.go:496-500 | After a crossing is lost to a full queue the hook stays engaged, the loop never is, and nothing more is sent. |
| HandoverSafety.NoStaleInput | cmd/controller/edge_windows.go:141-215 | Every message carries its input unchanged, in capture order, none twice; every message but an Engage was captured in the engagement that the latest Engage on the wire started. |
| HandoverHistory.HookRefines | internal/capture/capture_windows.go:394-445 | In every interleaving the recorded hook calls and the chord state are those of the hotkey automaton on the calls made. |
| HandoverHistory.FullWasMet | internal/capture/capture_windows.go:357-365 | An input withheld for a full queue had its send at an earlier step, in a state with 2048 events queued. |
| HandoverHistory.QueueIsBounded | internal/capture/capture_windows.go:195 | In every interleaving the events channel holds at most 2048 events. |
| HandoverHistory.EveryInputIsAccountedFor | internal/capture/capture_windows.go:384-445 | Every returned hook call is in exactly one of: passed on, sent, queued, withheld; it is passed on exactly by the rule about the trace; it is withheld only if it is the hotkey's by the trace, an unknown key or a cursor position in an engagement, raw input of no use, the releasing move, if its send met a full queue, its engagement is over, or the connection is dead. |
| HandoverReach.CrossingCanBeLost | internal/capture/capture_windows.go:496-500 | A run of every configuration that loses a crossing: Ctrl and Alt held, 2048 presses of V while the loop is idle, then a crossing. |
| HandoverRefinement.TakeSimulates | cmd/controller/edge_windows.go:141-225 | Taking an event off the queue does to the system what one delivery does to the sequential loop. |
| HandoverRefinement.LoopRefines | cmd/controller/edge_windows.go:141-225 | In every interleaving messages, warps, variables and the lost connection are those of the sequential loop on what was taken off the queue. |
| HandoverRefinement.WarpsAreSafe | cmd/controller/edge_windows.go:161-170 | Every warp of every session is on the controller's screen and is no crossing, if the screen is at least two pixels deep. |
| HandoverRefinement.NoWarpReengages | cmd/controller/edge_windows.go:161-170 | The same for every interleaving. |
| HandoverRefinement.TargetFollowsTheWire | cmd/target/main.go:181-212 | In every interleaving, replaying what is on the wire gives the loop's simulated cursor in every state so far, if and only if every message could be followed. |
| Frames.Format.EncodedBytes | internal/clipsync/clipsync.go:37-54 | A frame is its tag, its body's length in four bytes in network order, and its body. |
| Frames.Format.EncodedParses | internal/clipsync/clipsync.go:37-88 | An encoded frame followed by anything parses to that frame and that rest. |
| Frames.Format.ParsedIsEncoded | internal/clipsync/clipsync.go:73-88 | What is parsed fits, and its encoding is exactly the bytes consumed. |
| Frames.Format.CutFrame | internal/clipsync/clipsync.go:73-88 | A frame cut before its end is an error, which says a clean end exactly at its start or between header and body. |
| Frames.Format.CutStream | internal/clipsync/clipsync.go:73-88 | A stream of frames cut anywhere yields exactly the frames complete by then and then an error, never a wrong frame. |
| Frames.Format.StreamRoundTrip | internal/clipsync/clipsync.go:37-88 | Any list of frames within the limit reads back as itself and then ends cleanly. |
| ClipSync.WriteFrame | internal/clipsync/clipsync.go:39-54 | Writes the frame's encoding, nothing if it is over the limit, a proper prefix if the connection fails. |
| ClipSync.ReadFrame | internal/clipsync/clipsync.go:74-88 | Reads what the first frame of the remaining bytes parses to, however they are chunked. |
| ClipSync.ReadFrames | cmd/target/clipboard_windows.go:83-87 | Reading frame after frame until one fails gives exactly what the whole stream parses to, however it is chunked. |
| ClipSync.ReadCutStream | internal/clipsync/clipsync.go:37-88 | Frames written, cut anywhere and delivered in any chunks are read as exactly those complete by then, and then an error. |
| Protocol.WriteMessage | internal/protocol/protocol.go:119-134 | The same for messages, through the JSON codec. |
| Protocol.ReadMessage | internal/protocol/protocol.go:137-153 | Reads one message however the stream is chunked; a body that is no message is an error that consumes it. |
| Protocol.ReadMessages | cmd/target/main.go:164-168 | The target's loop, reading until a message fails, receives what the whole stream parses and decodes to, however it is chunked. |
| Protocol.MessagesRoundTrip | internal/protocol/protocol.go:117-153 | Messages cut after any number of bytes decode to exactly those complete by then, and then an error that is a clean end only at a message's start or between a length and its body, for any codec that undoes itself. |
| Protocol.ReadCutMessages | cmd/target/main.go:164-168 | In whatever chunks such a stream arrives, the loop receives exactly those messages, and then an error. |
| MouseSync.EncodePacket | internal/mousesync/mousesync.go:57-67 | The buffer filled in place is sequence number, coordinates and tag in their byte order. |
| MouseSync.DecodePacket | internal/mousesync/mousesync.go:72-87 | Accepts only 48 bytes with the right tag, and reads the fields back. |
| MouseSync.PacketBytes | internal/mousesync/mousesync.go:57-67 | A packet's sixteen bytes of number, column and row in network order, and then the tag of exactly these bytes. |
| MouseSync.EncodedDecodes | internal/mousesync/mousesync.go:55-87 | Every sequence number and pair of signed coordinates decodes to itself. |
| MouseSync.AcceptedIsCanonical | internal/mousesync/mousesync.go:69-87 | A buffer is accepted exactly if it is the packet of some report, which is the one it decodes to. |
| CaptureLinux.Channel.SendEvent | internal/capture/capture_linux.go:164-170 | An event is sent if there is room, else dropped. |
| CaptureLinux.HandleRecord | internal/capture/capture_linux.go:128-160 | One record moves accumulator and channel as the specification says. |
| CaptureLinux.ReadNext | internal/capture/capture_linux.go:121-126 | The reused buffer yields the device's records one by one, however its bytes are chunked. |
| CaptureLinux.ReadAndHandle | internal/capture/capture_linux.go:114-161 | One turn of the loop reads a record and handles it, or stops. |
| CaptureLinux.ReadLoop | internal/capture/capture_linux.go:111-162 | The loop leaves accumulator and channel as the fold over the records read before it stopped. |
| CaptureLinux.MotionIsConserved | internal/capture/capture_linux.go:111-170 | On each axis, motion sent, dropped and pending adds up to the motion reported, modulo 2^32. |
| CaptureLinux.AttemptsExactly | internal/capture/capture_linux.go:111-161 | After any number of records the sends attempted are exactly those due: each record's own meaning in the numbers of evdev, auto-repeats meaning nothing, and at the end of each report the wrapped sum of the motion since the one before, unless it is (0, 0). |
| CaptureLinux.NothingPendingAfterReport | internal/capture/capture_linux.go:155-159 | No motion is pending once a report has ended. |
| CaptureLinux.RecordReads | internal/capture/capture_linux.go:121-126 | A struct input_event is sixteen bytes of time, then type, code and value in little-endian order. |
| KnownHosts.Store.Lookup | internal/tlsutil/tlsutil.go:126-129 | A pin is found exactly if there is one, and is the one stored for the address. |
| KnownHosts.Store.Trust | internal/tlsutil/tlsutil.go:132-144 | One pin is set and the others kept; no error exactly if the file has them. |
| KnownHosts.OpenKnownHosts | internal/tlsutil/tlsutil.go:102-118 | A missing or empty file is an empty store, an unreadable or garbled one an error, and else its entries. |
| KnownHosts.Fingerprint | internal/tlsutil/tlsutil.go:85-92 | The loop over the digest and the join make its colon-separated hex pairs. |
| KnownHosts.PairsAre | internal/tlsutil/tlsutil.go:85-92 | A fingerprint has two upper-case hex digits worth each byte, the high one first, with a colon between bytes. |
| KnownHosts.PairsIdentify | internal/tlsutil/tlsutil.go:85-92 | Digests have the same fingerprint only if they are the same. |
| Pinning.VerifyConnection | cmd/controller/main.go:179-215 | The closure's verdict, and what it pins in memory and on disk. |
| Pinning.VerifyPinned | cmd/controller/main.go:236-244 | Accepts exactly the given fingerprint. |
| Pinning.RunController | cmd/controller/main.go:65-108 | One run accepts, and leaves on disk, what the specification of a run says. |
| Pinning.VerdictExactly | cmd/controller/main.go:179-215 | Which refusal the closure answers, case by case, and that it pins exactly a fingerprint that is agreed to for an address with none. |
| Pinning.AcceptedExactly | cmd/controller/main.go:65-90 | A target is accepted exactly if the store's file is absent, empty or readable, it presents this fingerprint, what follows completes, and the fingerprint is stored for the address, or none is, it is agreed to by the flag, -yes or the user, and written. |
| Pinning.ClipboardExactly | cmd/controller/main.go:91-100 | The clipboard connection is accepted exactly if in edge mode it presents the fingerprint that the main connection was accepted with. |
| Pinning.PinsExactly | cmd/controller/main.go:179-215 | A run changes the store's file only if it pins: to the entries with the new pin, or as its failing write leaves it. |
| Pinning.ClosedForGood | internal/tlsutil/tlsutil.go:102-118 | Once the store's file cannot be read or is garbled it stays so, and no later run accepts any connection. |
| Pinning.AcceptedWasAgreedTo | cmd/controller/main.go:173-226 | Over any sequence of runs and whatever happens to the store, a fingerprint is accepted on either connection only if it was stored from the start or was agreed to in this run or an earlier one for the address. |
| Pinning.OnlyTruncationEmpties | internal/tlsutil/tlsutil.go:132-144 | A run empties the file exactly if it can open a store that is not empty, has a fingerprint to pin, and its write ends truncated. |
| Pinning.PinsAreKept | internal/tlsutil/tlsutil.go:132-144 | Until a failed write empties the store, a pin stays through every later run, whatever its address, or no later run can open the store. |
| Pinning.PinIsHeld | cmd/controller/main.go:173-226 | Until a failed write empties the store, an accepted fingerprint stays pinned through every later run, or no later run can open the store. |
| Pinning.OneFingerprintPerAddress | cmd/controller/main.go:173-226 | Over any sequence of runs the connections accepted for an address present one fingerprint, unless a failed write emptied the store in between. |
| Pinning.EmptiedStoreForgets | cmd/controller/main.go:173-226 | Once a failed write has emptied the store, any fingerprint is accepted with -yes, for any address. |
| Pinning.FailedWriteForgets | internal/tlsutil/tlsutil.go:143 | Three runs in which pinning a second address fails and the first address is then pinned anew. |
| Bits.ChannelOfByteMask | internal/clipboard/clipboard.go:198-219 | Masking with eight contiguous bits and shifting by the mask's trailing zeros gives the byte at that place. |
| Blocks.RefusedExactly | internal/clipboard/clipboard.go:166-184 | Which headers are refused, and for what: compression other than 0 and 3, depth other than 24 and 32, masks with 24 bits, no width or height. |
| Blocks.ReadBlock | internal/clipboard/clipboard.go:160-225 | For every header, masks and pixel bytes that are all there, a block is read exactly if its header is not refused, and any image that the bytes show, in the row order, depth and masks announced, is the image read. |
| Blocks.HeaderBytes | internal/clipboard/clipboard.go:160-165 | The forty bytes of a header, field by field in little-endian order. |
| Blocks.WrittenHeaderIs | internal/clipboard/clipboard.go:252-260 | The header written for a picture: forty bytes, one plane of 32 bits, uncompressed, with the size of the pixels modulo 2^32. |
| Blocks.WrittenPixelBytes | internal/clipboard/clipboard.go:284-296 | Where an application finds each pixel of a written picture, bottom row first, and its four bytes. |
| Clipboard.HeaderReads | internal/clipboard/clipboard.go:160-165 | A header reads back field by field from its 40 bytes. |
| Clipboard.Layout.PixelInData | internal/clipboard/clipboard.go:200-213 | Every byte read for a pixel lies in the pixel data. |
| Clipboard.Layout.PixelsAreDisjoint | internal/clipboard/clipboard.go:200-213 | Distinct pixels have no byte in common. |
| Clipboard.ReadPixels | internal/clipboard/clipboard.go:205-225 | The pixel loops fill the image with the decoded pixel at every column and row. |
| Clipboard.ReadImage | internal/clipboard/clipboard.go:160-225 | Header, masks and loops together: every refusal, or the decoded image. |
| Clipboard.PutPixel | internal/clipboard/clipboard.go:291-294 | A pixel is written as blue, green, red, zero, and nothing else changes. |
| Clipboard.WritePixel | internal/clipboard/clipboard.go:288-295 | One turn of the loops adds one pixel and keeps header and earlier pixels. |
| Clipboard.WritePixels | internal/clipboard/clipboard.go:284-296 | The loops write every pixel of the picture to its place. |
| Clipboard.WriteImage | internal/clipboard/clipboard.go:242-296 | The block handed to the clipboard is the bitmap of the picture; an empty picture is refused. |
| Clipboard.EveryLayoutDecodes | internal/clipboard/clipboard.go:176-225 | A bitmap that shows an image decodes to it at every column and row, whatever its layout: either row order, 24 or 32 bits, any three contiguous 8-bit masks, any padding. |
| Clipboard.WrittenStands | internal/clipboard/clipboard.go:289-294 | The four bytes written for a pixel stand for its colour in the standard byte order. |
| Clipboard.WrittenReadsBack | internal/clipboard/clipboard.go:160-296 | The written bitmap is accepted and decodes, at every column and row, to the high byte of each channel; that is the picture itself when it is an opaque 8-bit one. |

## Left out

- Floating point beyond what the geometry uses: `Float64` is IEEE 754 double precision with round to nearest for magnitudes below 2^53; infinities and NaN do not occur there.
- ScaledIsOneOfTwo: for edges whose lengths multiply to at most 2^51, beyond which double precision can miss by a pixel either way; ScaledBounds holds for all.
- CrossingRoundTrip: for edges whose lengths multiply to more than 2^51 it bounds the loss only from below by none, and by two pixels on an edge at least as long; ScaledExactly decides each scaling for all sizes.
- The hook thread and the loop as objects: the methods of `WindowsSource` and `Controller` are sequential; what interleaving does is in `Handover`, over the same decision functions. The fields of `Controller` are local variables in the source.
- The target: `Target` is its cursor and last sequence number, with pixel-exact injection on a screen that clamps, and no input of its own.
- Win32: hooks, raw input, cursor, clipboard handles and injection appear as inputs and results only; a failing `SetCursorPos` is logged by the code and ignored here.
- Screens without pixels: the controller's bounds are positive and their far corner is an `int32`, as every coordinate is.
- Libraries: TLS, SHA-256, HMAC, JSON, PNG and files are abstract; a trust store that is the JSON `null` is not modelled.
- TargetFollows: for sessions of fewer than 2^64 events, after which the sequence number would wrap; so are PositionsAreOrdered, TargetConverges and TargetFollowsTheWire.
- TargetConverges: while the UDP channel is up; after a fallback with packets lost the code does not bring the cursors together until the next Engage.
- ReadImage: for a memory block as long as its own header announces, which the code takes for granted; like the code it ignores the header's own size field and any colour table.
- ReadLoop: the stop channel is modelled by the number of records read before it is seen closed, and the channel's free room is given attempt by attempt.
- RunController: the handshake, authentication and the connection to the clipboard are given as outcomes; the flag is taken as already trimmed and upper-cased.
- Clipboard text, the transfer started by the hotkey, and the messages of the clipboard channel beyond their framing.
- Legacy always-share mode beyond the gate in the hooks: it has no state.
- Negotiating the UDP channel, address derivation and token comparison: easy, or parsing done by libraries.
- The tray, the supervisor, the profile editor, icons, translations, key tables and the build script.
