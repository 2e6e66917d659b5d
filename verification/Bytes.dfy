/** Machine integers of the C sources: unsigned ranges, signed `char`, bitwise
    or, and the byte-order conversions of a little-endian host. */
module Bytes {

  type byte = x: int | 0 <= x < 0x100
  type uint16 = x: int | 0 <= x < 0x1_0000
  type uint32 = x: int | 0 <= x < 0x1_0000_0000

  /** The foreign crc32: any function from bytes to 32-bit values. */
  type Checksum = seq<byte> -> uint32

  /** The value of a byte read through a (signed) `char`. */
  function SignedChar(b: byte): int {
    if b < 128 then b else b - 256
  }

  /** C's `x << k`, before any truncation. */
  function Shl(x: nat, k: nat): nat {
    if k == 0 then x else 2 * Shl(x, k - 1)
  }

  /** C's `|` on non-negative operands, bit by bit. */
  function BitOr(x: nat, y: nat): nat
    decreases x + y
  {
    if x == 0 && y == 0 then 0
    else 2 * BitOr(x / 2, y / 2) + (if x % 2 == 1 || y % 2 == 1 then 1 else 0)
  }

  lemma {:induction false} BitOrZero(x: nat)
    ensures BitOr(x, 0) == x
  {
    if x != 0 { BitOrZero(x / 2); }
  }

  lemma BitOrDouble(x: nat, y: nat, b: nat)
    requires b < 2
    ensures BitOr(2 * x, 2 * y + b) == 2 * BitOr(x, y) + b
  {
    assert 2 * x / 2 == x && (2 * y + b) / 2 == y;
    assert BitOr(0, 0) == 0;
  }

  /** Or-ing into cleared low bits fills them in and combines the rest. */
  lemma {:induction false} BitOrShifted(x: nat, y: nat, low: nat, k: nat)
    requires low < Shl(1, k)
    ensures BitOr(Shl(x, k), Shl(y, k) + low) == Shl(BitOr(x, y), k) + low
  {
    if k != 0 {
      BitOrShifted(x, y, low / 2, k - 1);
      BitOrDouble(Shl(x, k - 1), Shl(y, k - 1) + low / 2, low % 2);
    }
  }

  lemma {:induction false} BitOrOnes(x: nat, k: nat)
    requires x < Shl(1, k)
    ensures BitOr(x, Shl(1, k) - 1) == Shl(1, k) - 1
  {
    if k != 0 {
      assert (Shl(1, k) - 1) / 2 == Shl(1, k - 1) - 1;
      BitOrOnes(x / 2, k - 1);
    }
  }

  lemma Shl8(x: nat)
    ensures Shl(x, 5) == 0x20 * x && Shl(x, 8) == 0x100 * x
  {
    assert Shl(x, 1) == 2 * x;
    assert Shl(x, 3) == 4 * Shl(x, 1);
    assert Shl(x, 5) == 4 * Shl(x, 3);
    assert Shl(x, 8) == 8 * Shl(x, 5) by {
      assert Shl(x, 7) == 4 * Shl(x, 5);
    }
  }

  /** `high << 8 | low` for a byte `low`: plain concatenation. */
  lemma BitOrConcat8(high: nat, low: byte)
    ensures BitOr(high * 0x100, low) == high * 0x100 + low
  {
    Shl8(high); Shl8(0); Shl8(1);
    BitOrShifted(high, 0, low, 8);
    BitOrZero(high);
  }

  /** `high << 5 | low` for a five-bit `low`. */
  lemma BitOrConcat5(high: nat, low: nat)
    requires low < 0x20
    ensures BitOr(high * 0x20, low) == high * 0x20 + low
  {
    Shl8(high); Shl8(0); Shl8(1);
    BitOrShifted(high, 0, low, 5);
    BitOrZero(high);
  }

  /** Or-ing a sign-extended negative `char` swamps the upper byte. */
  lemma BitOrSignExtended(high: byte, low: byte)
    ensures BitOr((high as int) * 0x100, 0xFF00 + low) == 0xFF00 + low
  {
    Shl8(high); Shl8(0xFF); Shl8(1);
    BitOrShifted(high, 0xFF, low, 8);
    BitOrOnes(high, 8);
  }

  /** `htons` and `ntohs` on a little-endian host. */
  function Swap16(x: uint16): uint16 {
    x % 0x100 * 0x100 + x / 0x100
  }

  /** The four bytes of a word, most significant first, peeled off by shifts. */
  function BigEndian32(x: uint32): (s: seq<byte>)
    ensures |s| == 4
  {
    [x / 0x100 / 0x100 / 0x100, x / 0x100 / 0x100 % 0x100, x / 0x100 % 0x100, x % 0x100]
  }

  function FromBigEndian32(s: seq<byte>): uint32
    requires |s| == 4
  {
    (((s[0] as int) * 0x100 + s[1]) * 0x100 + s[2]) * 0x100 + s[3]
  }

  /** `htonl` and `ntohl` on a little-endian host. */
  function Swap32(x: uint32): uint32 {
    var b := BigEndian32(x);
    FromBigEndian32([b[3], b[2], b[1], b[0]])
  }

  lemma HornerStep(q: nat, r: byte)
    ensures (q * 0x100 + r) / 0x100 == q && (q * 0x100 + r) % 0x100 == r
  {}

  lemma Swap16Bytes(x: uint16)
    ensures Swap16(x) % 0x100 == x / 0x100 && Swap16(x) / 0x100 == x % 0x100
  {
    HornerStep(x % 0x100, x / 0x100);
  }

  /** Network order: the most significant byte comes first. */
  lemma NetworkOrder(x: uint32)
    ensures var s := BigEndian32(x);
      x == (s[0] as int) * 0x100_0000 + (s[1] as int) * 0x1_0000 + (s[2] as int) * 0x100 + s[3]
  {}

  lemma BigEndianRoundTrip(x: uint32)
    ensures FromBigEndian32(BigEndian32(x)) == x
  {
    var q1 := x / 0x100;
    var q2 := q1 / 0x100;
    assert q1 == q2 / 0x100 * 0x1_0000 + q2 % 0x100 * 0x100 + q1 % 0x100;
  }

  lemma BigEndianInjective(s: seq<byte>)
    requires |s| == 4
    ensures BigEndian32(FromBigEndian32(s)) == s
  {
    var q2 := (s[0] as int) * 0x100 + s[1];
    var q1 := q2 * 0x100 + s[2];
    HornerStep(s[0], s[1]);
    HornerStep(q2, s[2]);
    HornerStep(q1, s[3]);
  }

  lemma Swap32Bytes(x: uint32)
    ensures BigEndian32(Swap32(x))[3] == BigEndian32(x)[0]
    ensures BigEndian32(Swap32(x))[2] == BigEndian32(x)[1]
    ensures BigEndian32(Swap32(x))[1] == BigEndian32(x)[2]
    ensures BigEndian32(Swap32(x))[0] == BigEndian32(x)[3]
  {
    var b := BigEndian32(x);
    BigEndianInjective([b[3], b[2], b[1], b[0]]);
  }
}
