/** Byte streams as Go's io package has them: reads in arbitrary chunks, writes that may fail part-way. */
module Streams {
  import opened Integers
  import opened Wrappers

  datatype ReadError = EOF | UnexpectedEOF

  function Flatten(chunks: seq<seq<byte>>): seq<byte> {
    if chunks == [] then [] else chunks[0] + Flatten(chunks[1..])
  }

  /** A reader: what its successive Reads return, each cut short when the caller has less room. */
  class Reader {
    var chunks: seq<seq<byte>>

    constructor (chunks: seq<seq<byte>>)
      ensures this.chunks == chunks
    {
      this.chunks := chunks;
    }

    function Remaining(): seq<byte>
      reads this
    {
      Flatten(chunks)
    }

    /** One Read into buf[from..]: `n` bytes, possibly none, or the end of the stream. */
    method Read(buf: array<byte>, from: nat) returns (n: nat, end: bool)
      requires from < buf.Length
      modifies this, buf
      ensures end <==> old(chunks) == []
      ensures from + n <= buf.Length && buf[..from] == old(buf[..from])
      ensures old(Remaining()) == buf[from..from + n] + Remaining()
      ensures end ==> n == 0
      ensures !end ==> |chunks| < |old(chunks)| || (n > 0 && |chunks| == |old(chunks)|)
    {
      if chunks == [] {
        return 0, true;
      }
      var chunk := chunks[0];
      n := if |chunk| <= buf.Length - from then |chunk| else buf.Length - from;
      forall i | 0 <= i < n {
        buf[from + i] := chunk[i];
      }
      assert buf[from..from + n] == chunk[..n];
      if n == |chunk| {
        chunks := chunks[1..];
      } else {
        chunks := [chunk[n..]] + chunks[1..];
        assert chunks[1..] == old(chunks)[1..];
        assert chunk == chunk[..n] + chunk[n..];
      }
      end := false;
    }

    /** io.ReadFull: all of buf, or an error that says whether the stream ended before its first byte. */
    method ReadFull(buf: array<byte>) returns (err: Option<ReadError>)
      modifies this, buf
      ensures err == FullError(old(Remaining()), buf.Length)
      ensures err.None? ==> buf[..] == old(Remaining())[..buf.Length] && Remaining() == old(Remaining())[buf.Length..]
      ensures err.Some? ==> Remaining() == []
    {
      ghost var all := Remaining();
      var filled := 0;
      while filled < buf.Length
        invariant 0 <= filled <= buf.Length
        invariant all == buf[..filled] + Remaining()
        decreases |chunks|, buf.Length - filled
      {
        ghost var before := buf[..filled];
        var n, end := Read(buf, filled);
        if end {
          return Some(if filled == 0 then EOF else UnexpectedEOF);
        }
        assert buf[..filled + n] == before + buf[filled..filled + n];
        filled := filled + n;
      }
      assert buf[..filled] == buf[..];
      err := None;
    }
  }

  function FullError(available: seq<byte>, n: nat): Option<ReadError> {
    if |available| >= n then None else Some(if available == [] then EOF else UnexpectedEOF)
  }

  /** A connection that accepts `room` more bytes before writes to it fail. */
  class Writer {
    var written: seq<byte>
    var room: nat

    constructor (room: nat)
      ensures written == [] && this.room == room
    {
      written, this.room := [], room;
    }

    method Write(p: seq<byte>) returns (ok: bool)
      modifies this
      ensures ok <==> |p| <= old(room)
      ensures written == old(written) + (if ok then p else p[..old(room)])
      ensures room == if ok then old(room) - |p| else 0
    {
      ok := |p| <= room;
      if ok {
        written, room := written + p, room - |p|;
      } else {
        written, room := written + p[..room], 0;
      }
    }
  }
}
