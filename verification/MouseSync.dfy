/**
 * The authenticated packets of the UDP mouse channel: internal/mousesync/mousesync.go. HMAC-SHA256 is
 * an unknown function from a key and a message to a 32-byte tag.
 */
module MouseSync {
  import opened Integers
  import opened Wrappers

  const TAG_SIZE := 32
  const PACKET_SIZE := 16 + TAG_SIZE

  type Mac = (seq<byte>, seq<byte>) -> seq<byte>

  ghost predicate IsMac(mac: Mac) {
    forall key, message :: |mac(key, message)| == TAG_SIZE
  }

  datatype Report = Report(seqNo: uint64, x: int32, y: int32)

  function Payload(r: Report): (p: seq<byte>)
    ensures |p| == 16
  {
    BigEndian(8, r.seqNo) + BigEndian(4, Bits32(r.x)) + BigEndian(4, Bits32(r.y))
  }

  function Packet(mac: Mac, key: seq<byte>, r: Report): seq<byte> {
    Payload(r) + mac(key, Payload(r))
  }

  function ReadPayload(p: seq<byte>): Report
    requires |p| == 16
  {
    ByteCapacities();
    Report(FromBigEndian(p[0..8]), Wrap32(FromBigEndian(p[8..12])), Wrap32(FromBigEndian(p[12..16])))
  }

  function Decoded(mac: Mac, key: seq<byte>, buf: seq<byte>): Option<Report> {
    if |buf| != PACKET_SIZE || mac(key, buf[..16]) != buf[16..] then None else Some(ReadPayload(buf[..16]))
  }

  /** Copies s into buf at the given offset. */
  method Put(buf: array<byte>, at: nat, s: seq<byte>)
    requires at + |s| <= buf.Length
    modifies buf
    ensures buf[..] == old(buf[..at]) + s + old(buf[at + |s|..])
  {
    forall i | 0 <= i < |s| {
      buf[at + i] := s[i];
    }
  }

  method EncodePacket(mac: Mac, key: seq<byte>, r: Report) returns (buf: array<byte>)
    requires IsMac(mac)
    ensures fresh(buf) && buf[..] == Packet(mac, key, r)
  {
    buf := new byte[PACKET_SIZE];
    Put(buf, 0, BigEndian(8, r.seqNo));
    Put(buf, 8, BigEndian(4, Bits32(r.x)));
    Put(buf, 12, BigEndian(4, Bits32(r.y)));
    assert buf[..16] == Payload(r);
    Put(buf, 16, mac(key, buf[..16]));
  }

  method DecodePacket(mac: Mac, key: seq<byte>, buf: seq<byte>) returns (r: Option<Report>)
    ensures r == Decoded(mac, key, buf)
    ensures r.Some? ==> |buf| == 48
  {
    if |buf| != PACKET_SIZE {
      return None;
    }
    if mac(key, buf[..16]) != buf[16..] {
      return None;
    }
    ByteCapacities();
    var head := buf[..16];
    assert head[0..8] == buf[0..8] && head[8..12] == buf[8..12] && head[12..16] == buf[12..16];
    r := Some(Report(FromBigEndian(buf[0..8]), Wrap32(FromBigEndian(buf[8..12])), Wrap32(FromBigEndian(buf[12..16]))));
  }

  /** A packet byte by byte: number, column and row in network order, and the tag of these sixteen bytes. */
  lemma {:induction false} PacketBytes(mac: Mac, key: seq<byte>, r: Report)
    ensures var p := FourBytesDown(r.seqNo / TWO32) + FourBytesDown(r.seqNo)
                     + FourBytesDown(Bits32(r.x)) + FourBytesDown(Bits32(r.y));
            |p| == 16 && Packet(mac, key, r) == p + mac(key, p)
  {
    BigEndianHalves(r.seqNo);
    BigEndianBytes(r.seqNo / TWO32);
    BigEndianBytes(r.seqNo);
    BigEndianBytes(Bits32(r.x));
    BigEndianBytes(Bits32(r.y));
  }

  lemma PayloadReads(r: Report)
    ensures ReadPayload(Payload(r)) == r
  {
    var p := Payload(r);
    ByteCapacities();
    assert p[0..8] == BigEndian(8, r.seqNo) && p[8..12] == BigEndian(4, Bits32(r.x)) &&
           p[12..16] == BigEndian(4, Bits32(r.y));
    BigEndianReads(8, r.seqNo);
    BigEndianReads(4, Bits32(r.x));
    BigEndianReads(4, Bits32(r.y));
  }

  lemma PayloadWrites(p: seq<byte>)
    requires |p| == 16
    ensures Payload(ReadPayload(p)) == p
  {
    ByteCapacities();
    BigEndianWrites(p[0..8]);
    BigEndianWrites(p[8..12]);
    BigEndianWrites(p[12..16]);
    WrapInjective(FromBigEndian(p[8..12]));
    WrapInjective(FromBigEndian(p[12..16]));
    assert p == p[0..8] + p[8..12] + p[12..16];
  }

  /** Every report decodes to itself. */
  lemma EncodedDecodes(mac: Mac, key: seq<byte>, r: Report)
    requires IsMac(mac)
    ensures Decoded(mac, key, Packet(mac, key, r)) == Some(r)
  {
    var buf := Packet(mac, key, r);
    assert buf[..16] == Payload(r);
    PayloadReads(r);
  }

  /** The encoding is canonical: what is accepted is the packet of what it decodes to, and nothing else. */
  lemma AcceptedIsCanonical(mac: Mac, key: seq<byte>, buf: seq<byte>)
    requires IsMac(mac)
    ensures Decoded(mac, key, buf).Some? <==> exists r :: buf == Packet(mac, key, r)
    ensures Decoded(mac, key, buf).Some? ==> buf == Packet(mac, key, Decoded(mac, key, buf).value)
  {
    if Decoded(mac, key, buf).Some? {
      PayloadWrites(buf[..16]);
      assert buf == buf[..16] + buf[16..];
      assert buf == Packet(mac, key, ReadPayload(buf[..16]));
    }
    if r :| buf == Packet(mac, key, r) {
      EncodedDecodes(mac, key, r);
    }
  }
}
