/** Frames of the clipboard channel: internal/clipsync/clipsync.go. */
module ClipSync {
  import opened Frames
  import opened Integers
  import opened Streams
  import opened Wrappers

  const MAX_FRAME_SIZE: uint32 := 32 * 1024 * 1024
  const FORMAT := Format(1, MAX_FRAME_SIZE)

  datatype WriteError = FrameTooLarge | WriteFailed

  /**
   * Writes one frame. A payload over the limit writes nothing; a write that fails leaves a proper
   * prefix of the frame behind.
   */
  method WriteFrame(w: Writer, kind: byte, payload: seq<byte>) returns (err: Option<WriteError>)
    modifies w
    ensures err == Some(FrameTooLarge) <==> |payload| > 33_554_432
    ensures err == Some(FrameTooLarge) ==> w.written == old(w.written)
    ensures |payload| <= 33_554_432 ==>
              var bytes := FORMAT.Encode(Frame([kind], payload));
              var n := if |bytes| <= old(w.room) then |bytes| else old(w.room);
              && err == (if n == |bytes| then None else Some(WriteFailed))
              && w.written == old(w.written) + bytes[..n]
  {
    if |payload| > MAX_FRAME_SIZE {
      return Some(FrameTooLarge);
    }
    var hdr := new byte[5];
    hdr[0] := kind;
    var length := BigEndian(4, |payload|);
    forall i | 0 <= i < 4 {
      hdr[1 + i] := length[i];
    }
    ghost var f := Frame([kind], payload);
    assert hdr[..] == FORMAT.Header(f);
    assert FORMAT.Encode(f) == hdr[..] + payload;
    var ok := w.Write(hdr[..]);
    if !ok {
      return Some(WriteFailed);
    }
    if |payload| == 0 {
      return None;
    }
    ok := w.Write(payload);
    err := if ok then None else Some(WriteFailed);
  }

  /** Reads one frame, however the stream is chunked. */
  method ReadFrame(r: Reader) returns (result: Result<(byte, seq<byte>), Refusal>)
    modifies r
    ensures match FORMAT.Parse(old(r.Remaining()))
            case Success((f, rest)) => result == Success((f.tag[0], f.body)) && r.Remaining() == rest
            case Failure(e) => result == Failure(e) && (e.Cut? ==> r.Remaining() == [])
  {
    ghost var s := r.Remaining();
    var hdr := new byte[5];
    var err := r.ReadFull(hdr);
    if err.Some? {
      return Failure(Cut(err.value));
    }
    assert hdr[1..] == s[1..5];
    var n := FromBigEndian(hdr[1..]);
    if n > MAX_FRAME_SIZE {
      return Failure(TooLarge);
    }
    var payload := new byte[n];
    err := r.ReadFull(payload);
    if err.Some? {
      return Failure(Cut(err.value));
    }
    result := Success((hdr[0], payload[..]));
  }

  /** A reader that reads on until a frame fails, as the clipboard server of cmd/target does. */
  method ReadFrames(r: Reader) returns (frames: seq<Frame>, stop: Refusal)
    modifies r
    ensures Reading(frames, stop) == FORMAT.ParseAll(old(r.Remaining()))
  {
    frames := [];
    ghost var whole := FORMAT.ParseAll(r.Remaining());
    while true
      invariant FORMAT.ReadsOn(whole, frames, r.Remaining())
      decreases |r.Remaining()|
    {
      ghost var s := r.Remaining();
      var next := ReadFrame(r);
      if next.Failure? {
        return frames, next.error;
      }
      var f := Frame([next.value.0], next.value.1);
      FORMAT.OneMoreFrame(whole, frames, s, FORMAT.Parse(s).value.0, r.Remaining());
      assert f == FORMAT.Parse(s).value.0;
      frames := frames + [f];
    }
  }

  /**
   * Whatever was written as frames and then cut after n bytes, in whatever chunks it arrives, is read as
   * exactly the frames complete by then, and then an error.
   */
  method ReadCutStream(fs: seq<Frame>, n: nat, k: nat, chunks: seq<seq<byte>>)
    returns (frames: seq<Frame>, stop: Refusal)
    requires forall f | f in fs :: FORMAT.Fits(f)
    requires n <= |FORMAT.EncodeAll(fs)| && FORMAT.CompleteIn(fs, n, k) && Flatten(chunks) == FORMAT.EncodeAll(fs)[..n]
    ensures frames == fs[..k] && stop.Cut?
  {
    var r := new Reader(chunks);
    FORMAT.CutStream(fs, n, k);
    frames, stop := ReadFrames(r);
  }
}
