/**
 * Length-prefixed frames: a tag of fixed size, a 4-byte big-endian length, and that many bytes. The
 * clipboard channel's frames (internal/clipsync) have a 1-byte tag, the main protocol's messages
 * (internal/protocol) none.
 */
module Frames {
  import opened Integers
  import opened Streams
  import opened Wrappers

  datatype Frame = Frame(tag: seq<byte>, body: seq<byte>)

  datatype Refusal = Cut(error: ReadError) | TooLarge

  /** What a sequence of reads makes of a stream: the frames, and the error that ends them. */
  datatype Reading = Reading(frames: seq<Frame>, stop: Refusal)

  datatype Format = Format(tagSize: nat, maxBody: uint32) {
    predicate Fits(f: Frame) {
      |f.tag| == tagSize && |f.body| <= maxBody
    }

    function HeaderSize(): nat {
      tagSize + 4
    }

    function Header(f: Frame): (h: seq<byte>)
      requires Fits(f)
      ensures |h| == HeaderSize()
    {
      f.tag + BigEndian(4, |f.body|)
    }

    function Encode(f: Frame): seq<byte>
      requires Fits(f)
    {
      Header(f) + f.body
    }

    function EncodeAll(fs: seq<Frame>): seq<byte>
      requires forall f | f in fs :: Fits(f)
    {
      if fs == [] then [] else Encode(fs[0]) + EncodeAll(fs[1..])
    }

    /** One frame off the front of a stream, and what is left of it. */
    function Parse(s: seq<byte>): Result<(Frame, seq<byte>), Refusal> {
      if |s| < HeaderSize() then Failure(Cut(FullError(s, HeaderSize()).value))
      else
        var n := FromBigEndian(s[tagSize..HeaderSize()]);
        var rest := s[HeaderSize()..];
        if n > maxBody then Failure(TooLarge)
        else if |rest| < n then Failure(Cut(FullError(rest, n).value))
        else Success((Frame(s[..tagSize], rest[..n]), rest[n..]))
    }

    function ParseAll(s: seq<byte>): Reading
      decreases |s|
    {
      match Parse(s)
      case Failure(e) => Reading([], e)
      case Success((f, rest)) =>
        var more := ParseAll(rest);
        Reading([f] + more.frames, more.stop)
    }

    /** A frame byte by byte: the tag, the body's length in network order, and the body. */
    lemma {:induction false} EncodedBytes(f: Frame)
      requires Fits(f)
      ensures Encode(f) == f.tag + FourBytesDown(|f.body|) + f.body
    {
      BigEndianBytes(|f.body|);
    }

    /** A parsed frame is one that fits, and its encoding is exactly what was consumed. */
    lemma ParsedIsEncoded(s: seq<byte>)
      requires Parse(s).Success?
      ensures var (f, rest) := Parse(s).value; Fits(f) && s == Encode(f) + rest
    {
      var lengthBytes := s[tagSize..HeaderSize()];
      BigEndianWrites(lengthBytes);
      assert s == s[..tagSize] + lengthBytes + s[HeaderSize()..];
    }

    lemma EncodedParses(f: Frame, rest: seq<byte>)
      requires Fits(f)
      ensures Parse(Encode(f) + rest) == Success((f, rest))
    {
      var s := Encode(f) + rest;
      ByteCapacities();
      BigEndianReads(4, |f.body|);
      assert s[tagSize..HeaderSize()] == BigEndian(4, |f.body|);
      assert s[..tagSize] == f.tag;
      assert s[HeaderSize()..] == f.body + rest;
    }

    /** A frame cut anywhere before its end is an error, never a frame; it reads as a clean end of the
        stream only when cut at its start or exactly between its header and its body. */
    lemma CutFrame(f: Frame, n: nat)
      requires Fits(f) && n < |Encode(f)|
      ensures Parse(Encode(f)[..n]) == Failure(Cut(if n == 0 || n == HeaderSize() then EOF else UnexpectedEOF))
    {
      var s := Encode(f)[..n];
      if n >= HeaderSize() {
        ByteCapacities();
        BigEndianReads(4, |f.body|);
        assert s[tagSize..HeaderSize()] == BigEndian(4, |f.body|);
      }
    }

    /** The n bytes reach the end of k of the frames, and not of the next. */
    predicate CompleteIn(fs: seq<Frame>, n: nat, k: nat)
      requires forall f | f in fs :: Fits(f)
    {
      && k <= |fs| && |EncodeAll(fs[..k])| <= n
      && (k < |fs| ==> n < |EncodeAll(fs[..k])| + |Encode(fs[k])|)
    }

    /** Reading on: the frames so far and those still to come make up the whole reading. */
    predicate ReadsOn(whole: Reading, frames: seq<Frame>, s: seq<byte>) {
      whole == Reading(frames + ParseAll(s).frames, ParseAll(s).stop)
    }

    lemma OneMoreFrame(whole: Reading, frames: seq<Frame>, s: seq<byte>, f: Frame, rest: seq<byte>)
      requires ReadsOn(whole, frames, s) && Parse(s) == Success((f, rest))
      ensures ReadsOn(whole, frames + [f], rest) && |rest| < |s| && |f.tag| == tagSize
    {
      assert frames + ([f] + ParseAll(rest).frames) == frames + [f] + ParseAll(rest).frames;
    }

    lemma ParseAllOneMore(f: Frame, rest: seq<byte>)
      requires Fits(f)
      ensures ParseAll(Encode(f) + rest) == Reading([f] + ParseAll(rest).frames, ParseAll(rest).stop)
    {
      EncodedParses(f, rest);
    }

    lemma CutInFirst(fs: seq<Frame>, n: nat)
      requires forall f | f in fs :: Fits(f)
      requires n <= |EncodeAll(fs)| && (fs != [] ==> n < |Encode(fs[0])|)
      ensures ParseAll(EncodeAll(fs)[..n]) ==
              Reading([], Cut(if n == 0 || n == HeaderSize() then EOF else UnexpectedEOF))
    {
      if fs != [] {
        assert EncodeAll(fs)[..n] == Encode(fs[0])[..n];
        CutFrame(fs[0], n);
      }
    }

    /** Taking the first frame off a stream that holds more. */
    lemma FirstOfFrames(fs: seq<Frame>, n: nat, k: nat)
      requires forall f | f in fs :: Fits(f)
      requires 0 < k <= |fs| && n <= |EncodeAll(fs)| && |EncodeAll(fs[..k])| <= n
      ensures var first, rest := Encode(fs[0]), fs[1..];
              && fs[..k] == [fs[0]] + rest[..k - 1] && |first| <= n
              && EncodeAll(fs[..k]) == first + EncodeAll(rest[..k - 1])
              && EncodeAll(fs)[..n] == first + EncodeAll(rest)[..n - |first|]
    {
      assert fs[..k] == [fs[0]] + fs[1..][..k - 1];
      assert EncodeAll(fs[..k]) == Encode(fs[0]) + EncodeAll(fs[1..][..k - 1]);
    }

    /**
     * Reading a stream of frames that breaks off anywhere yields exactly the frames complete by then,
     * and then an error that is not about size: a clean end only at a frame's start, or exactly between
     * a header and its body.
     */
    lemma {:induction false} CutStream(fs: seq<Frame>, n: nat, k: nat)
      requires forall f | f in fs :: Fits(f)
      requires n <= |EncodeAll(fs)| && CompleteIn(fs, n, k)
      ensures var beyond := n - |EncodeAll(fs[..k])|;
              ParseAll(EncodeAll(fs)[..n]) ==
              Reading(fs[..k], Cut(if beyond == 0 || beyond == HeaderSize() then EOF else UnexpectedEOF))
    {
      if k == 0 {
        CutInFirst(fs, n);
      } else {
        var rest, left := fs[1..], n - |Encode(fs[0])|;
        FirstOfFrames(fs, n, k);
        CutStream(rest, left, k - 1);
        ParseAllOneMore(fs[0], EncodeAll(rest)[..left]);
      }
    }

    /** The whole stream reads back as the frames it was written from, and then ends cleanly. */
    lemma StreamRoundTrip(fs: seq<Frame>)
      requires forall f | f in fs :: Fits(f)
      ensures ParseAll(EncodeAll(fs)) == Reading(fs, Cut(EOF))
    {
      assert fs[..|fs|] == fs;
      assert EncodeAll(fs)[..|EncodeAll(fs)|] == EncodeAll(fs);
      CutStream(fs, |EncodeAll(fs)|, |fs|);
    }
  }
}
