/** Go's fixed-width integers, and their byte encodings in both byte orders. */
module Integers {
  type byte = x: int | 0 <= x < 0x100
  type uint16 = x: int | 0 <= x < 0x1_0000
  type uint32 = x: int | 0 <= x < 0x1_0000_0000
  type uint64 = x: int | 0 <= x < 0x1_0000_0000_0000_0000
  type int32 = x: int | -0x8000_0000 <= x < 0x8000_0000

  const TWO32 := 0x1_0000_0000
  const MAX_INT32: int32 := 0x7FFF_FFFF

  /** The int32 that Go's two's-complement arithmetic leaves when the exact result is x. */
  function Wrap32(x: int): (r: int32)
    ensures -0x8000_0000 <= x < 0x8000_0000 ==> r == x
  {
    (x + 0x8000_0000) % TWO32 - 0x8000_0000
  }

  /** Wrapping changes a number by a multiple of 2^32. */
  lemma WrapChanges(x: int) returns (k: int)
    ensures Wrap32(x) == x + k * TWO32
  {
    k := -((x + 0x8000_0000) / TWO32);
  }

  /** And numbers that differ by one wrap alike. */
  lemma WrapIsPeriodic(x: int, k: int)
    ensures Wrap32(x + k * TWO32) == Wrap32(x)
  {
    assert x + k * TWO32 + 0x8000_0000 == ((x + 0x8000_0000) / TWO32 + k) * TWO32 + (x + 0x8000_0000) % TWO32;
  }

  /** The conversion uint32(x) of an int32: its two's-complement bit pattern. */
  function Bits32(x: int32): (u: uint32)
    ensures Wrap32(u) == x
  {
    x % TWO32
  }

  lemma WrapInjective(u: uint32)
    ensures Bits32(Wrap32(u)) == u
  {
  }

  /** 256 to the n-th power: how many values n bytes can hold. */
  function Pow256(n: nat): (p: nat)
    ensures p >= 1
  {
    if n == 0 then 1 else 256 * Pow256(n - 1)
  }

  function BigEndian(n: nat, v: nat): (s: seq<byte>)
    ensures |s| == n
  {
    if n == 0 then [] else BigEndian(n - 1, v / 256) + [v % 256]
  }

  function FromBigEndian(s: seq<byte>): (v: nat)
    ensures v < Pow256(|s|)
  {
    if s == [] then 0 else FromBigEndian(s[..|s| - 1]) * 256 + s[|s| - 1]
  }

  function LittleEndian(n: nat, v: nat): (s: seq<byte>)
    ensures |s| == n
  {
    if n == 0 then [] else [v % 256] + LittleEndian(n - 1, v / 256)
  }

  function FromLittleEndian(s: seq<byte>): (v: nat)
    ensures v < Pow256(|s|)
  {
    if s == [] then 0 else s[0] + 256 * FromLittleEndian(s[1..])
  }

  /** Reading back what was written gives the same number, if it fits. */
  lemma {:induction false} BigEndianReads(n: nat, v: nat)
    requires v < Pow256(n)
    ensures FromBigEndian(BigEndian(n, v)) == v
  {
    if n > 0 {
      BigEndianReads(n - 1, v / 256);
      assert BigEndian(n, v)[..n - 1] == BigEndian(n - 1, v / 256);
    }
  }

  /** Every byte string is the encoding of the number read from it. */
  lemma {:induction false} BigEndianWrites(s: seq<byte>)
    ensures BigEndian(|s|, FromBigEndian(s)) == s
  {
    if s != [] {
      var init := s[..|s| - 1];
      BigEndianWrites(init);
      assert s == init + [s[|s| - 1]];
    }
  }

  lemma {:induction false} LittleEndianReads(n: nat, v: nat)
    requires v < Pow256(n)
    ensures FromLittleEndian(LittleEndian(n, v)) == v
  {
    if n > 0 {
      LittleEndianReads(n - 1, v / 256);
      assert LittleEndian(n, v)[1..] == LittleEndian(n - 1, v / 256);
    }
  }

  lemma ByteCapacities()
    ensures Pow256(1) == 0x100 && Pow256(2) == 0x1_0000 && Pow256(4) == TWO32
    ensures Pow256(8) == 0x1_0000_0000_0000_0000
  {
    assert Pow256(4) == 256 * Pow256(3);
    assert Pow256(8) == 256 * (256 * (256 * (256 * Pow256(4))));
  }

  /** A number's four low bytes, lowest first. */
  function FourBytes(v: int): seq<byte> {
    [v % 256, v / 0x100 % 256, v / 0x1_0000 % 256, v / 0x100_0000 % 256]
  }

  lemma LittleEndianBytes(v: nat)
    ensures LittleEndian(4, v) == FourBytes(v)
  {
    assert LittleEndian(2, v / 256 / 256) == [v / 256 / 256 % 256, v / 256 / 256 / 256 % 256];
    assert LittleEndian(3, v / 256) == [v / 256 % 256] + LittleEndian(2, v / 256 / 256);
  }

  /** And highest first. */
  function FourBytesDown(v: int): seq<byte> {
    [v / 0x100_0000 % 256, v / 0x1_0000 % 256, v / 0x100 % 256, v % 256]
  }

  lemma BigEndianBytes(v: nat)
    ensures BigEndian(4, v) == FourBytesDown(v)
  {
    assert BigEndian(2, v / 256 / 256) == [v / 256 / 256 / 256 % 256, v / 256 / 256 % 256];
    assert BigEndian(3, v / 256) == BigEndian(2, v / 256 / 256) + [v / 256 % 256];
  }

  /** Eight bytes are the four of the high half and the four of the low one. */
  lemma BigEndianHalves(v: nat)
    ensures BigEndian(8, v) == BigEndian(4, v / TWO32) + BigEndian(4, v)
  {
    var w := v / 256 / 256;
    assert w / 256 / 256 == v / TWO32;
    BigEndianBytes(v);
    assert BigEndian(6, w) == BigEndian(4, w / 256 / 256) + [w / 256 % 256, w % 256] by {
      assert BigEndian(6, w) == BigEndian(5, w / 256) + [w % 256];
    }
    assert BigEndian(8, v) == BigEndian(6, w) + [v / 256 % 256, v % 256] by {
      assert BigEndian(8, v) == BigEndian(7, v / 256) + [v % 256];
    }
  }
}
