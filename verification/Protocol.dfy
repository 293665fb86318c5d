/** Messages of the main connection: internal/protocol/protocol.go. JSON is an abstract codec. */
module Protocol {
  import opened Frames
  import opened Integers
  import opened Streams
  import opened Wrappers

  const MAX_MESSAGE_SIZE: uint32 := 64 * 1024
  const FORMAT := Format(0, MAX_MESSAGE_SIZE)

  datatype WriteError = NotMarshalled | MessageTooLarge | WriteFailed

  datatype ReadFailure = BadFrame(refusal: Refusal) | NotUnmarshalled

  method WriteMessage<M>(w: Writer, m: M, marshal: M -> Option<seq<byte>>) returns (err: Option<WriteError>)
    modifies w
    ensures marshal(m).None? ==> err == Some(NotMarshalled) && w.written == old(w.written)
    ensures marshal(m).Some? && |marshal(m).value| > 65_536 ==>
            err == Some(MessageTooLarge) && w.written == old(w.written)
    ensures marshal(m).Some? && |marshal(m).value| <= 65_536 ==>
              var bytes := FORMAT.Encode(Frame([], marshal(m).value));
              var n := if |bytes| <= old(w.room) then |bytes| else old(w.room);
              && err == (if n == |bytes| then None else Some(WriteFailed))
              && w.written == old(w.written) + bytes[..n]
  {
    var marshalled := marshal(m);
    if marshalled.None? {
      return Some(NotMarshalled);
    }
    var body := marshalled.value;
    if |body| > MAX_MESSAGE_SIZE {
      return Some(MessageTooLarge);
    }
    var hdr := new byte[4];
    var length := BigEndian(4, |body|);
    forall i | 0 <= i < 4 {
      hdr[i] := length[i];
    }
    ghost var f := Frame([], body);
    assert hdr[..] == FORMAT.Header(f);
    assert FORMAT.Encode(f) == hdr[..] + body;
    var ok := w.Write(hdr[..]);
    if !ok {
      return Some(WriteFailed);
    }
    ok := w.Write(body);
    err := if ok then None else Some(WriteFailed);
  }

  method ReadMessage<M>(r: Reader, unmarshal: seq<byte> -> Option<M>) returns (result: Result<M, ReadFailure>)
    modifies r
    ensures match FORMAT.Parse(old(r.Remaining()))
            case Success((f, rest)) =>
              && r.Remaining() == rest
              && var m := unmarshal(f.body);
                 result == if m.Some? then Success(m.value) else Failure(NotUnmarshalled)
            case Failure(e) => result == Failure(BadFrame(e)) && (e.Cut? ==> r.Remaining() == [])
  {
    ghost var s := r.Remaining();
    var hdr := new byte[4];
    var err := r.ReadFull(hdr);
    if err.Some? {
      return Failure(BadFrame(Cut(err.value)));
    }
    assert hdr[..] == s[0..4];
    var n := FromBigEndian(hdr[..]);
    if n > MAX_MESSAGE_SIZE {
      return Failure(BadFrame(TooLarge));
    }
    var body := new byte[n];
    err := r.ReadFull(body);
    if err.Some? {
      return Failure(BadFrame(Cut(err.value)));
    }
    var m := unmarshal(body[..]);
    result := if m.Some? then Success(m.value) else Failure(NotUnmarshalled);
  }

  /** What a loop over ReadMessage takes from a connection: the messages, and the failure that ends it. */
  datatype Received<M> = Received(messages: seq<M>, stop: ReadFailure)

  function Decoded<M>(reading: Reading, unmarshal: seq<byte> -> Option<M>): Received<M>
    decreases |reading.frames|
  {
    if reading.frames == [] then Received([], BadFrame(reading.stop))
    else
      match unmarshal(reading.frames[0].body)
      case None => Received([], NotUnmarshalled)
      case Some(m) =>
        var more := Decoded(Reading(reading.frames[1..], reading.stop), unmarshal);
        Received([m] + more.messages, more.stop)
  }

  /** Reading on: the messages so far and those still to come make up all that is received. */
  ghost predicate ReceivesOn<M>(all: Received<M>, messages: seq<M>, s: seq<byte>, unmarshal: seq<byte> -> Option<M>) {
    var more := Decoded(FORMAT.ParseAll(s), unmarshal);
    all == Received(messages + more.messages, more.stop)
  }

  lemma OneMoreMessage<M>(all: Received<M>, messages: seq<M>, s: seq<byte>, unmarshal: seq<byte> -> Option<M>,
                          f: Frame, rest: seq<byte>)
    requires ReceivesOn(all, messages, s, unmarshal) && FORMAT.Parse(s) == Success((f, rest))
    ensures match unmarshal(f.body)
            case None => all == Received(messages, NotUnmarshalled)
            case Some(m) => ReceivesOn(all, messages + [m], rest, unmarshal) && |rest| < |s|
  {
    var more := FORMAT.ParseAll(rest);
    assert ([f] + more.frames)[1..] == more.frames;
    if unmarshal(f.body).Some? {
      var m := unmarshal(f.body).value;
      assert messages + ([m] + Decoded(more, unmarshal).messages) == messages + [m] + Decoded(more, unmarshal).messages;
    }
  }

  /** The target's loop: it reads until a message fails, however the stream is chunked. */
  method ReadMessages<M>(r: Reader, unmarshal: seq<byte> -> Option<M>) returns (messages: seq<M>, stop: ReadFailure)
    modifies r
    ensures Received(messages, stop) == Decoded(FORMAT.ParseAll(old(r.Remaining())), unmarshal)
  {
    messages := [];
    ghost var all := Decoded(FORMAT.ParseAll(r.Remaining()), unmarshal);
    while true
      invariant ReceivesOn(all, messages, r.Remaining(), unmarshal)
      decreases |r.Remaining()|
    {
      ghost var s := r.Remaining();
      var next := ReadMessage(r, unmarshal);
      if FORMAT.Parse(s).Success? {
        OneMoreMessage(all, messages, s, unmarshal, FORMAT.Parse(s).value.0, FORMAT.Parse(s).value.1);
      }
      if next.Failure? {
        return messages, next.error;
      }
      messages := messages + [next.value];
    }
  }

  ghost predicate Undone<M>(m: M, marshal: M -> Option<seq<byte>>, unmarshal: seq<byte> -> Option<M>) {
    marshal(m).Some? && |marshal(m).value| <= MAX_MESSAGE_SIZE && unmarshal(marshal(m).value) == Some(m)
  }

  /** The frames that WriteMessage makes of messages that the codec undoes. */
  ghost function Framed<M>(ms: seq<M>, marshal: M -> Option<seq<byte>>, unmarshal: seq<byte> -> Option<M>)
    : (fs: seq<Frame>)
    requires forall m | m in ms :: Undone(m, marshal, unmarshal)
    ensures |fs| == |ms| && forall f | f in fs :: FORMAT.Fits(f)
  {
    if ms == [] then [] else
      assert ms[0] in ms && Undone(ms[0], marshal, unmarshal);
      [Frame([], marshal(ms[0]).value)] + Framed(ms[1..], marshal, unmarshal)
  }

  lemma {:induction false} FramedDecodes<M>(ms: seq<M>, marshal: M -> Option<seq<byte>>,
                                            unmarshal: seq<byte> -> Option<M>, k: nat, stop: Refusal)
    requires k <= |ms| && forall m | m in ms :: Undone(m, marshal, unmarshal)
    ensures Decoded(Reading(Framed(ms, marshal, unmarshal)[..k], stop), unmarshal) == Received(ms[..k], BadFrame(stop))
  {
    if k > 0 {
      FramedDecodes(ms[1..], marshal, unmarshal, k - 1, stop);
      var fs := Framed(ms, marshal, unmarshal);
      assert ms[0] in ms && fs[..k][0].body == marshal(ms[0]).value;
      assert fs[..k][1..] == Framed(ms[1..], marshal, unmarshal)[..k - 1];
      assert ms[..k] == [ms[0]] + ms[1..][..k - 1];
    }
  }

  /**
   * A stream of messages cut after n bytes is read as exactly the messages complete by then, whatever
   * codec undoes itself on them, and then an error: a clean end only at a message's start, or exactly
   * between a length and its body.
   */
  lemma MessagesRoundTrip<M>(ms: seq<M>, marshal: M -> Option<seq<byte>>, unmarshal: seq<byte> -> Option<M>,
                             n: nat, k: nat)
    requires forall m | m in ms :: Undone(m, marshal, unmarshal)
    requires var fs := Framed(ms, marshal, unmarshal); n <= |FORMAT.EncodeAll(fs)| && FORMAT.CompleteIn(fs, n, k)
    ensures var fs := Framed(ms, marshal, unmarshal);
            var beyond := n - |FORMAT.EncodeAll(fs[..k])|;
            Decoded(FORMAT.ParseAll(FORMAT.EncodeAll(fs)[..n]), unmarshal) ==
            Received(ms[..k], BadFrame(Cut(if beyond == 0 || beyond == 4 then EOF else UnexpectedEOF)))
  {
    var fs := Framed(ms, marshal, unmarshal);
    FORMAT.CutStream(fs, n, k);
    FramedDecodes(ms, marshal, unmarshal, k, FORMAT.ParseAll(FORMAT.EncodeAll(fs)[..n]).stop);
  }

  /** In whatever chunks such a stream arrives, the loop receives exactly those messages. */
  method ReadCutMessages<M>(ms: seq<M>, marshal: M -> Option<seq<byte>>, unmarshal: seq<byte> -> Option<M>,
                            n: nat, k: nat, chunks: seq<seq<byte>>)
    returns (messages: seq<M>, stop: ReadFailure)
    requires forall m | m in ms :: Undone(m, marshal, unmarshal)
    requires var fs := Framed(ms, marshal, unmarshal);
             n <= |FORMAT.EncodeAll(fs)| && FORMAT.CompleteIn(fs, n, k) && Flatten(chunks) == FORMAT.EncodeAll(fs)[..n]
    ensures messages == ms[..k] && stop.BadFrame? && stop.refusal.Cut?
  {
    var r := new Reader(chunks);
    MessagesRoundTrip(ms, marshal, unmarshal, n, k);
    messages, stop := ReadMessages(r, unmarshal);
  }
}
