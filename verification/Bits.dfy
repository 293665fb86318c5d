/** Masks and shifts on natural numbers, for the channel masks of a bitmap. */
module Bits {
  import opened Integers

  /** Bitwise and. */
  function And(a: nat, b: nat): nat {
    if a == 0 || b == 0 then 0 else (if a % 2 == 1 && b % 2 == 1 then 1 else 0) + 2 * And(a / 2, b / 2)
  }

  function ShiftRight(a: nat, n: nat): nat {
    if n == 0 then a else ShiftRight(a / 2, n - 1)
  }

  function ShiftLeft(a: nat, n: nat): nat {
    if n == 0 then a else 2 * ShiftLeft(a, n - 1)
  }

  /** bits.TrailingZeros32. */
  function TrailingZeros32(x: uint32): nat {
    if x == 0 then 32 else TrailingZeros(x)
  }

  function TrailingZeros(x: nat): nat
    requires x > 0
  {
    if x % 2 == 1 then 0 else 1 + TrailingZeros(x / 2)
  }

  /** byte((v & mask) >> TrailingZeros32(mask)) */
  function Channel(v: uint32, mask: uint32): byte {
    ShiftRight(And(v, mask), TrailingZeros32(mask)) % 256
  }

  /** Eight contiguous bits, s places up. */
  function ByteMask(s: nat): nat {
    ShiftLeft(255, s)
  }

  /** The byte that starts s places up. */
  function ByteAt(v: nat, s: nat): byte {
    ShiftRight(v, s) % 256
  }

  function Ones(k: nat): nat {
    if k == 0 then 0 else 1 + 2 * Ones(k - 1)
  }

  function Low(a: nat, k: nat): nat {
    if k == 0 then 0 else a % 2 + 2 * Low(a / 2, k - 1)
  }

  lemma {:induction false} LowBits(a: nat, k: nat)
    ensures And(a, Ones(k)) == Low(a, k)
  {
    if k > 0 {
      LowBits(a / 2, k - 1);
    }
  }

  lemma UniqueRemainder(a: int, d: int, q: int, r: int)
    requires d > 0 && a == q * d + r && 0 <= r < d
    ensures a % d == r
  {
    var q' := a / d;
    assert (q - q') * d == a % d - r;
    assert q - q' >= 1 ==> (q - q') * d >= d;
    assert q - q' <= -1 ==> (q - q') * d <= -d;
  }

  lemma HalvedRemainder(a: nat, p: nat)
    requires p > 0
    ensures a % (2 * p) == a % 2 + 2 * (a / 2 % p)
  {
    var q, r := a / 2 / p, a / 2 % p;
    assert a / 2 == q * p + r;
    UniqueRemainder(a, 2 * p, q, 2 * r + a % 2);
  }

  lemma {:induction false} LowIsRemainder(a: nat, k: nat)
    ensures ShiftLeft(1, k) > 0 && Low(a, k) == a % ShiftLeft(1, k)
  {
    if k > 0 {
      LowIsRemainder(a / 2, k - 1);
      HalvedRemainder(a, ShiftLeft(1, k - 1));
    }
  }

  lemma AndDoubles(v: nat, m: nat)
    ensures And(v, 2 * m) == 2 * And(v / 2, m)
  {
    assert 2 * m / 2 == m && 2 * m % 2 == 0;
  }

  /** n contiguous bits, s places up. */
  function MaskOf(n: nat, s: nat): nat {
    ShiftLeft(Ones(n), s)
  }

  lemma {:induction false} MaskedBits(v: nat, n: nat, s: nat)
    ensures ShiftRight(And(v, MaskOf(n, s)), s) == Low(ShiftRight(v, s), n)
  {
    if s == 0 {
      LowBits(v, n);
    } else {
      AndDoubles(v, MaskOf(n, s - 1));
      MaskedBits(v / 2, n, s - 1);
    }
  }

  lemma {:induction false} MaskZeros(n: nat, s: nat)
    requires n > 0
    ensures MaskOf(n, s) > 0 && TrailingZeros(MaskOf(n, s)) == s
  {
    if s > 0 {
      MaskZeros(n, s - 1);
    }
  }

  /** For contiguous bits, the channel is the number in these bits, and the low byte of it. */
  lemma ChannelOfMask(v: uint32, n: nat, s: nat)
    requires n > 0 && MaskOf(n, s) < TWO32
    ensures ShiftLeft(1, n) > 0 && Channel(v, MaskOf(n, s)) == ShiftRight(v, s) % ShiftLeft(1, n) % 256
  {
    MaskZeros(n, s);
    MaskedBits(v, n, s);
    LowIsRemainder(ShiftRight(v, s), n);
  }

  lemma EightOnes()
    ensures Ones(8) == 255 && ShiftLeft(1, 8) == 256
  {
    assert Ones(4) == 15 && ShiftLeft(1, 4) == 16;
    assert Ones(8) == 1 + 2 * (1 + 2 * (1 + 2 * (1 + 2 * Ones(4))));
    assert ShiftLeft(1, 8) == 2 * (2 * (2 * (2 * ShiftLeft(1, 4))));
  }

  /** For eight of them, it is the byte at that place. */
  lemma ChannelOfByteMask(v: uint32, s: nat)
    requires ByteMask(s) < TWO32
    ensures Channel(v, ByteMask(s)) == ByteAt(v, s)
  {
    EightOnes();
    ChannelOfMask(v, 8, s);
  }

  /** The masks of the standard byte order. */
  lemma StandardMasks()
    ensures ByteMask(0) == 0xFF && ByteMask(8) == 0xFF00 && ByteMask(16) == 0xFF0000
  {
    assert ByteMask(4) == 255 * 16;
    assert ByteMask(8) == 2 * (2 * (2 * (2 * ByteMask(4))));
    assert ByteMask(12) == 2 * (2 * (2 * (2 * ByteMask(8))));
    assert ByteMask(16) == 2 * (2 * (2 * (2 * ByteMask(12))));
  }

  function Word(b0: byte, b1: byte, b2: byte, b3: byte): (v: nat)
    ensures v < TWO32
  {
    b0 + 256 * (b1 + 256 * (b2 + 256 * b3))
  }

  /** A word in little-endian order has its bytes eight places apart. */
  lemma BytesOfWord(b0: byte, b1: byte, b2: byte, b3: byte)
    ensures var v := Word(b0, b1, b2, b3); ByteAt(v, 0) == b0 && ByteAt(v, 8) == b1 && ByteAt(v, 16) == b2
  {
    var v := Word(b0, b1, b2, b3);
    var v1 := b1 + 256 * (b2 + 256 * b3);
    assert v == b0 + 256 * v1 && v / 256 == v1 && v1 / 256 == b2 + 256 * b3;
    EightPlaces(v, 0);
    EightPlaces(v, 8);
    EightPlaces(v1, 0);
  }

  lemma WordIsLittleEndian(s: seq<byte>)
    requires |s| == 4
    ensures FromLittleEndian(s) == Word(s[0], s[1], s[2], s[3])
  {
    var t, u := s[1..], s[1..][1..];
    assert u[1..] == [s[3]] && [s[3]][1..] == [];
    assert FromLittleEndian(u) == s[2] + 256 * FromLittleEndian([s[3]]);
  }

  lemma EightPlaces(v: nat, s: nat)
    ensures ShiftRight(v, s + 8) == ShiftRight(v / 256, s)
  {
    var w := v / 2 / 2 / 2 / 2;
    assert ShiftRight(v, s + 8) == ShiftRight(v / 2 / 2, s + 6) == ShiftRight(w, s + 4);
    assert ShiftRight(w, s + 4) == ShiftRight(w / 2 / 2, s + 2) == ShiftRight(w / 2 / 2 / 2 / 2, s);
  }
}
