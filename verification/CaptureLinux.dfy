/** The Linux capture loop: internal/capture/capture_linux.go. */
module CaptureLinux {
  import opened Capture
  import opened Edges
  import opened Integers
  import opened Streams
  import opened Wrappers

  const EV_SYN := 0x00
  const EV_KEY := 0x01
  const EV_REL := 0x02
  const REL_X := 0x00
  const REL_Y := 0x01
  const REL_WHEEL := 0x08
  const BTN_LEFT := 0x110
  const BTN_RIGHT := 0x111
  const BTN_MIDDLE := 0x112
  const INPUT_EVENT_SIZE := 24

  /** A struct input_event, less its time. */
  datatype Record = Record(typ: uint16, code: uint16, value: int32)

  function ReadRecord(buf: seq<byte>): Record
    requires |buf| == INPUT_EVENT_SIZE
  {
    ByteCapacities();
    Record(FromLittleEndian(buf[16..18]), FromLittleEndian(buf[18..20]), Wrap32(FromLittleEndian(buf[20..24])))
  }

  /** The records in a device's bytes; an incomplete one at the end is not read. */
  function Records(s: seq<byte>): seq<Record> {
    if |s| < INPUT_EVENT_SIZE then []
    else [ReadRecord(s[..INPUT_EVENT_SIZE])] + Records(s[INPUT_EVENT_SIZE..])
  }

  /** The accumulated motion, and every event the loop has tried to send. */
  datatype Progress = Progress(dx: int32, dy: int32, attempts: seq<Event>) {
    function Attempt(e: Event): Progress {
      this.(attempts := attempts + [e])
    }

    function Key(names: map<uint16, KeyName>, code: uint16, down: bool): Progress {
      if code == BTN_LEFT then Attempt(MouseButtonEvent(LeftButton, down))
      else if code == BTN_RIGHT then Attempt(MouseButtonEvent(RightButton, down))
      else if code == BTN_MIDDLE then Attempt(MouseButtonEvent(MiddleButton, down))
      else if code in names then Attempt(KeyEvent(names[code], down))
      else this
    }

    function Then(names: map<uint16, KeyName>, r: Record): Progress {
      if r.typ == EV_KEY then
        if r.value != 0 && r.value != 1 then this else Key(names, r.code, r.value == 1)
      else if r.typ == EV_REL then
        if r.code == REL_X then this.(dx := Wrap32(dx + r.value))
        else if r.code == REL_Y then this.(dy := Wrap32(dy + r.value))
        else if r.code == REL_WHEEL then Attempt(MouseWheelEvent(r.value))
        else this
      else if r.typ == EV_SYN && (dx != 0 || dy != 0) then
        Progress(0, 0, attempts + [MouseMoveEvent(dx, dy)])
      else this
    }
  }

  const NOTHING := Progress(0, 0, [])

  /** From p, over these records. */
  function After(names: map<uint16, KeyName>, p: Progress, rs: seq<Record>): Progress
    decreases |rs|
  {
    if rs == [] then p else After(names, p.Then(names, rs[0]), rs[1..])
  }

  /** The attempts that found room, or those that did not. */
  function Kept(attempts: seq<Event>, room: nat -> bool, found: bool): seq<Event> {
    if attempts == [] then []
    else
      var n := |attempts| - 1;
      Kept(attempts[..n], room, found) + if room(n) == found then [attempts[n]] else []
  }

  /** The events channel, seen from a loop that only sends: `room(i)` is whether it has room for the
      i-th attempt, which depends on how fast its reader is. */
  class Channel {
    const room: nat -> bool
    var attempts: nat
    var sent: seq<Event>
    var dropped: seq<Event>

    constructor (room: nat -> bool)
      ensures this.room == room && Holds([])
    {
      this.room := room;
      attempts, sent, dropped := 0, [], [];
    }

    /** The channel after these attempts. */
    ghost predicate Holds(es: seq<Event>)
      reads this
    {
      attempts == |es| && sent == Kept(es, room, true) && dropped == Kept(es, room, false)
    }

    method SendEvent(e: Event, ghost before: seq<Event>)
      requires Holds(before)
      modifies this
      ensures Holds(before + [e])
    {
      assert (before + [e])[..|before|] == before;
      if room(attempts) {
        sent := sent + [e];
      } else {
        dropped := dropped + [e];
      }
      attempts := attempts + 1;
    }
  }

  /** The switch on one record's type and code. */
  method HandleRecord(r: Record, names: map<uint16, KeyName>, dx: int32, dy: int32, events: Channel,
      ghost before: seq<Event>)
    returns (dx': int32, dy': int32)
    requires events.Holds(before)
    modifies events
    ensures var p := Progress(dx, dy, before).Then(names, r);
            dx' == p.dx && dy' == p.dy && events.Holds(p.attempts)
  {
    dx', dy' := dx, dy;
    if r.typ == EV_KEY {
      if r.value != 0 && r.value != 1 {
        return;
      }
      var down := r.value == 1;
      if r.code == BTN_LEFT {
        events.SendEvent(MouseButtonEvent(LeftButton, down), before);
      } else if r.code == BTN_RIGHT {
        events.SendEvent(MouseButtonEvent(RightButton, down), before);
      } else if r.code == BTN_MIDDLE {
        events.SendEvent(MouseButtonEvent(MiddleButton, down), before);
      } else if r.code in names {
        events.SendEvent(KeyEvent(names[r.code], down), before);
      }
    } else if r.typ == EV_REL {
      if r.code == REL_X {
        dx' := Wrap32(dx + r.value);
      } else if r.code == REL_Y {
        dy' := Wrap32(dy + r.value);
      } else if r.code == REL_WHEEL {
        events.SendEvent(MouseWheelEvent(r.value), before);
      }
    } else if r.typ == EV_SYN {
      if dx != 0 || dy != 0 {
        events.SendEvent(MouseMoveEvent(dx, dy), before);
        dx', dy' := 0, 0;
      }
    }
  }

  /** Reads the next record of the device into buf. */
  method ReadNext(f: Reader, buf: array<byte>) returns (r: Option<Record>)
    requires buf.Length == INPUT_EVENT_SIZE
    modifies f, buf
    ensures Records(old(f.Remaining())) == if r.Some? then [r.value] + Records(f.Remaining()) else []
  {
    var err := f.ReadFull(buf);
    if err.Some? {
      return None;
    }
    ByteCapacities();
    var typ: uint16 := FromLittleEndian(buf[16..18]);
    var code: uint16 := FromLittleEndian(buf[18..20]);
    r := Some(Record(typ, code, Wrap32(FromLittleEndian(buf[20..24]))));
    assert buf[..][16..18] == buf[16..18] && buf[..][18..20] == buf[18..20] && buf[..][20..24] == buf[20..24];
  }

  /** The body of readLoop: one record read and handled, unless the read fails. */
  method ReadAndHandle(f: Reader, buf: array<byte>, names: map<uint16, KeyName>, dx: int32, dy: int32, events: Channel,
                       ghost before: seq<Event>)
    returns (record: Option<Record>, dx': int32, dy': int32)
    requires buf.Length == INPUT_EVENT_SIZE && events.Holds(before)
    modifies f, buf, events
    ensures Records(old(f.Remaining())) == if record.Some? then [record.value] + Records(f.Remaining()) else []
    ensures var p := if record.Some? then Progress(dx, dy, before).Then(names, record.value)
            else Progress(dx, dy, before);
            dx' == p.dx && dy' == p.dy && events.Holds(p.attempts)
  {
    dx', dy' := dx, dy;
    record := ReadNext(f, buf);
    if record.Some? {
      dx', dy' := HandleRecord(record.value, names, dx, dy, events, before);
    }
  }

  function First(rs: seq<Record>, n: nat): seq<Record> {
    if n < |rs| then rs[..n] else rs
  }

  /** readLoop on one device, until a read fails or, after `stopAfter` records, the source is stopped. */
  method ReadLoop(f: Reader, names: map<uint16, KeyName>, stopAfter: nat, events: Channel)
    returns (dx: int32, dy: int32)
    requires events.Holds([])
    modifies f, events
    ensures var p := After(names, NOTHING, First(Records(old(f.Remaining())), stopAfter));
            dx == p.dx && dy == p.dy && events.Holds(p.attempts)
  {
    dx, dy := 0, 0;
    var buf := new byte[INPUT_EVENT_SIZE];
    ghost var p := NOTHING;
    ghost var rest := Records(f.Remaining());
    ghost var goal := After(names, p, First(rest, stopAfter));
    for n := 0 to stopAfter
      invariant rest == Records(f.Remaining())
      invariant After(names, p, First(rest, stopAfter - n)) == goal
      invariant p == Progress(dx, dy, p.attempts) && events.Holds(p.attempts)
    {
      var r;
      r, dx, dy := ReadAndHandle(f, buf, names, dx, dy, events, p.attempts);
      if r.None? {
        return;
      }
      assert First(rest, stopAfter - n)[1..] == First(rest[1..], stopAfter - n - 1);
      rest, p := rest[1..], p.Then(names, r.value);
    }
  }

  // ---------------------------------------------------------------- conservation of motion

  datatype Axis = X | Y {
    function Moved(e: Event): int {
      if !e.MouseMoveEvent? then 0 else if X? then e.dx else e.dy
    }

    /** EV_REL is 2, REL_X 0 and REL_Y 1. */
    function Read(r: Record): int {
      if r.typ == 2 && r.code == (if X? then 0 else 1) then r.value else 0
    }

    function Pending(p: Progress): int32 {
      if X? then p.dx else p.dy
    }

    /** The motion in a list of events. */
    function Motion(es: seq<Event>): int {
      if es == [] then 0 else Motion(es[..|es| - 1]) + Moved(es[|es| - 1])
    }

    /** The motion a device reported. */
    function Reported(rs: seq<Record>): int {
      if rs == [] then 0 else Read(rs[0]) + Reported(rs[1..])
    }

    lemma MotionOneMore(es: seq<Event>, e: Event)
      ensures Motion(es + [e]) == Motion(es) + Moved(e)
    {
      assert (es + [e])[..|es|] == es;
    }

    lemma {:induction false} SplitMotion(attempts: seq<Event>, room: nat -> bool)
      ensures Motion(Kept(attempts, room, true)) + Motion(Kept(attempts, room, false)) == Motion(attempts)
    {
      if attempts != [] {
        var n := |attempts| - 1;
        var sent, dropped := Kept(attempts[..n], room, true), Kept(attempts[..n], room, false);
        SplitMotion(attempts[..n], room);
        MotionOneMore(if room(n) then sent else dropped, attempts[n]);
        assert sent + [] == sent && dropped + [] == dropped;
      }
    }

    /** One record moves the balance by what it reports, up to a multiple of 2^32. */
    lemma {:induction false} RecordBalances(p: Progress, names: map<uint16, KeyName>, r: Record) returns (k: int)
      ensures var p' := p.Then(names, r);
              Motion(p'.attempts) + Pending(p') == Motion(p.attempts) + Pending(p) + Read(r) + k * TWO32
    {
      if r.typ == EV_REL && r.code == (if X? then REL_X else REL_Y) {
        k := WrapChanges(Pending(p) + r.value);
      } else {
        k := 0;
        OtherRecordIsBalanced(p, names, r);
        BalancedKeepsSum(p, p.Then(names, r));
      }
    }

    /** Nothing but what was pending was sent, and it is no longer pending. */
    predicate Balanced(p: Progress, p': Progress) {
      if p'.attempts == p.attempts then Pending(p') == Pending(p)
      else
        && |p'.attempts| == |p.attempts| + 1 && p'.attempts[..|p.attempts|] == p.attempts
        && Moved(p'.attempts[|p.attempts|]) + Pending(p') == Pending(p)
    }

    lemma OtherRecordIsBalanced(p: Progress, names: map<uint16, KeyName>, r: Record)
      requires !(r.typ == EV_REL && r.code == (if X? then REL_X else REL_Y))
      ensures Balanced(p, p.Then(names, r))
    {
    }

    lemma {:induction false} BalancedKeepsSum(p: Progress, p': Progress)
      requires Balanced(p, p')
      ensures Motion(p'.attempts) + Pending(p') == Motion(p.attempts) + Pending(p)
    {
    }

    lemma {:induction false} AttemptedPlusPending(names: map<uint16, KeyName>, p: Progress, rs: seq<Record>)
      returns (k: int)
      ensures var p' := After(names, p, rs);
              Motion(p'.attempts) + Pending(p') == Motion(p.attempts) + Pending(p) + Reported(rs) + k * TWO32
      decreases |rs|
    {
      k := 0;
      if rs != [] {
        var one := RecordBalances(p, names, rs[0]);
        var more := AttemptedPlusPending(names, p.Then(names, rs[0]), rs[1..]);
        k := one + more;
      }
    }
  }

  /**
   * No motion is made up or lost by accumulating it: on each axis what was sent, what was dropped and
   * what is still pending add up, modulo 2^32, to what the device reported.
   */
  lemma MotionIsConserved(axis: Axis, names: map<uint16, KeyName>, rs: seq<Record>, room: nat -> bool)
    ensures var p := After(names, NOTHING, rs);
            var sent, dropped := Kept(p.attempts, room, true), Kept(p.attempts, room, false);
            Wrap32(axis.Motion(sent) + axis.Motion(dropped) + axis.Pending(p)) == Wrap32(axis.Reported(rs))
  {
    var p := After(names, NOTHING, rs);
    axis.SplitMotion(p.attempts, room);
    var k := axis.AttemptedPlusPending(names, NOTHING, rs);
    assert axis.Motion(Kept(p.attempts, room, true)) + axis.Motion(Kept(p.attempts, room, false)) + axis.Pending(p)
           == axis.Reported(rs) + k * TWO32;
    WrapIsPeriodic(axis.Reported(rs), k);
  }

  // ---------------------------------------------------------------- everything, in order

  /** What a record means by itself: a press or release of a known key, or a wheel step. EV_KEY is 1, EV_REL
      2, REL_WHEEL 8, and the buttons are 0x110 to 0x112. */
  function Direct(names: map<uint16, KeyName>, r: Record): seq<Event> {
    if r.typ == 2 && r.code == 8 then [MouseWheelEvent(r.value)]
    else if r.typ != 1 || r.value !in {0, 1} then []
    else if r.code == 0x110 then [MouseButtonEvent(LeftButton, r.value == 1)]
    else if r.code == 0x111 then [MouseButtonEvent(RightButton, r.value == 1)]
    else if r.code == 0x112 then [MouseButtonEvent(MiddleButton, r.value == 1)]
    else if r.code in names then [KeyEvent(names[r.code], r.value == 1)]
    else []
  }

  /** EV_SYN is 0: it ends a report. */
  predicate EndsReport(r: Record) {
    r.typ == 0
  }

  /** The motion on an axis since the latest end of a report before record n. */
  function Since(axis: Axis, rs: seq<Record>, n: nat): int
    requires n <= |rs|
  {
    if n == 0 || EndsReport(rs[n - 1]) then 0 else Since(axis, rs, n - 1) + axis.Read(rs[n - 1])
  }

  /** What record n makes the loop send: at the end of a report its motion, if there is any. */
  function Due(names: map<uint16, KeyName>, rs: seq<Record>, n: nat): seq<Event>
    requires n < |rs|
  {
    var dx, dy := Wrap32(Since(X, rs, n)), Wrap32(Since(Y, rs, n));
    if !EndsReport(rs[n]) then Direct(names, rs[n]) else if dx == 0 && dy == 0 then [] else [MouseMoveEvent(dx, dy)]
  }

  function AllDue(names: map<uint16, KeyName>, rs: seq<Record>, n: nat): seq<Event>
    requires n <= |rs|
  {
    if n == 0 then [] else AllDue(names, rs, n - 1) + Due(names, rs, n - 1)
  }

  lemma {:induction false} OneMoreRecord(names: map<uint16, KeyName>, p: Progress, rs: seq<Record>, n: nat)
    requires n < |rs|
    ensures After(names, p, rs[..n + 1]) == After(names, p, rs[..n]).Then(names, rs[n])
    decreases n
  {
    if n > 0 {
      OneMoreRecord(names, p.Then(names, rs[0]), rs[1..], n - 1);
      assert rs[..n + 1][1..] == rs[1..][..n] && rs[..n][1..] == rs[1..][..n - 1];
    }
  }

  /** Everything attempted so far, and the motion pending since the latest report. */
  predicate UpToDate(names: map<uint16, KeyName>, rs: seq<Record>, n: nat, p: Progress)
    requires n <= |rs|
  {
    p == Progress(Wrap32(Since(X, rs, n)), Wrap32(Since(Y, rs, n)), AllDue(names, rs, n))
  }

  lemma WrapsOn(sum: int, delta: int)
    ensures Wrap32(Wrap32(sum) + delta) == Wrap32(sum + delta)
  {
    var k := WrapChanges(sum);
    WrapIsPeriodic(sum + delta, k);
    assert Wrap32(sum) + delta == sum + delta + k * TWO32;
  }

  lemma {:induction false} StaysUpToDate(names: map<uint16, KeyName>, rs: seq<Record>, n: nat, p: Progress)
    requires n < |rs| && UpToDate(names, rs, n, p)
    ensures UpToDate(names, rs, n + 1, p.Then(names, rs[n]))
  {
    WrapsOn(Since(X, rs, n), X.Read(rs[n]));
    WrapsOn(Since(Y, rs, n), Y.Read(rs[n]));
    assert p.attempts + [] == p.attempts;
  }

  /**
   * After any number of records the loop has attempted exactly what was due, record by record: each
   * record's own meaning, and at the end of each report the wrapped sum of the motion since the one
   * before, unless there is none; what is pending is the motion since the latest report.
   */
  lemma {:induction false} AttemptsExactly(names: map<uint16, KeyName>, rs: seq<Record>, n: nat)
    requires n <= |rs|
    ensures UpToDate(names, rs, n, After(names, NOTHING, rs[..n]))
  {
    if n > 0 {
      AttemptsExactly(names, rs, n - 1);
      OneMoreRecord(names, NOTHING, rs, n - 1);
      StaysUpToDate(names, rs, n - 1, After(names, NOTHING, rs[..n - 1]));
    }
  }

  /** Nothing is pending once a report has ended. */
  lemma {:induction false} NothingPendingAfterReport(names: map<uint16, KeyName>, rs: seq<Record>, n: nat)
    requires n < |rs| && EndsReport(rs[n])
    ensures After(names, NOTHING, rs[..n + 1]).dx == 0 && After(names, NOTHING, rs[..n + 1]).dy == 0
  {
    AttemptsExactly(names, rs, n + 1);
  }

  /** A struct input_event on a 64-bit system: sixteen bytes of time, type, code and value. */
  lemma {:induction false} RecordReads(time: seq<byte>, r: Record)
    requires |time| == 16
    ensures var buf := time + LittleEndian(2, r.typ) + LittleEndian(2, r.code) + LittleEndian(4, Bits32(r.value));
            ReadRecord(buf) == r
  {
    var buf := time + LittleEndian(2, r.typ) + LittleEndian(2, r.code) + LittleEndian(4, Bits32(r.value));
    ByteCapacities();
    assert buf[16..18] == LittleEndian(2, r.typ) && buf[18..20] == LittleEndian(2, r.code);
    assert buf[20..24] == LittleEndian(4, Bits32(r.value));
    LittleEndianReads(2, r.typ);
    LittleEndianReads(2, r.code);
    LittleEndianReads(4, Bits32(r.value));
  }
}
