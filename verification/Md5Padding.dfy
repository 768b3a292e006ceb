/** The padding of MD5 and its start, bit by bit as section 3 of RFC 1321 describes them. */
module Md5Padding {
  import opened Common
  import opened Md5

  /** The bits of a byte, the most significant first. */
  function BitsOf(b: Byte): (r: seq<bool>)
    ensures |r| == 8
  {
    [b / 128 % 2 == 1, b / 64 % 2 == 1, b / 32 % 2 == 1, b / 16 % 2 == 1,
     b / 8 % 2 == 1, b / 4 % 2 == 1, b / 2 % 2 == 1, b % 2 == 1]
  }

  function Bits(s: seq<Byte>): (r: seq<bool>)
    ensures |r| == 8 * |s|
  {
    if s == [] then [] else BitsOf(s[0]) + Bits(s[1..])
  }

  function ZeroBits(n: nat): (r: seq<bool>)
    ensures |r| == n
  {
    seq(n, _ => false)
  }

  /** A number in so many bytes, the least significant first. */
  function LittleEndian(n: nat, bytes: nat): (r: seq<Byte>)
    ensures |r| == bytes
  {
    if bytes == 0 then [] else [n % 256] + LittleEndian(n / 256, bytes - 1)
  }

  lemma {:induction false} BitsOfBoth(a: seq<Byte>, b: seq<Byte>)
    ensures Bits(a + b) == Bits(a) + Bits(b)
  {
    if a == [] {
      assert a + b == b;
    } else {
      assert (a + b)[1..] == a[1..] + b;
      BitsOfBoth(a[1..], b);
    }
  }

  lemma {:induction false} BitsOfZeros(n: nat)
    ensures Bits(Zeros(n)) == ZeroBits(8 * n)
  {
    if n > 0 {
      assert Zeros(n)[1..] == Zeros(n - 1);
      BitsOfZeros(n - 1);
    }
  }

  lemma {:induction false} WordIsLittleEndian(n: nat, rest: seq<Byte>)
    requires rest == LittleEndian(n / WORD32, 4)
    ensures EncodeWord(n % WORD32) + rest == LittleEndian(n, 8)
  {
    var b, c, d := n / 256, n / 256 / 256, n / 256 / 256 / 256;
    SplitDivision(n);
    assert LittleEndian(d / 256, 4) == rest;
    assert LittleEndian(d, 5) == [d % 256] + rest;
    assert LittleEndian(c, 6) == [c % 256] + LittleEndian(d, 5);
    assert LittleEndian(b, 7) == [b % 256] + LittleEndian(c, 6);
  }

  lemma {:induction false} NextByte(x: nat, q: nat, k: nat, v: nat)
    requires x == q * (256 * k) + v
    ensures x / 256 == q * k + v / 256 && x % 256 == v % 256
  {
    assert q * (256 * k) == (q * k) * 256;
    DivModUnique(x, 256, q * k + v / 256, v % 256);
  }

  lemma {:induction false} SplitDivision(n: nat)
    ensures n / 256 / 256 / 256 / 256 == n / WORD32
    ensures var w := n % WORD32;
            && w % 256 == n % 256 && w / 0x100 % 256 == n / 256 % 256
            && w / 0x1_0000 % 256 == n / 256 / 256 % 256 && w / 0x100_0000 % 256 == n / 256 / 256 / 256 % 256
  {
    var q, w := n / WORD32, n % WORD32;
    NextByte(n, q, 0x100_0000, w);
    NextByte(n / 256, q, 0x1_0000, w / 256);
    NextByte(n / 256 / 256, q, 0x100, w / 256 / 256);
    NextByte(n / 256 / 256 / 256, q, 1, w / 256 / 256 / 256);
    assert w / 0x1_0000 == w / 256 / 256 && w / 0x100_0000 == w / 256 / 256 / 256;
  }

  lemma {:induction false} CountIsLittleEndian(len: nat)
    ensures EncodeWords(BitCount(len)) == LittleEndian(8 * len, 8)
  {
    var n := 8 * len;
    var high := n / WORD32 % WORD32;
    assert BitCount(len)[1..] == [high] && [high][1..] == [];
    assert EncodeWords([high]) == EncodeWord(high) + [] == EncodeWord(high);
    HighWord(n / WORD32);
    WordIsLittleEndian(n, EncodeWord(high));
  }

  lemma {:induction false} HighWord(n: nat)
    ensures EncodeWord(n % WORD32) == LittleEndian(n, 4)
  {
    SplitDivision(n);
    var b, c, d := n / 256, n / 256 / 256, n / 256 / 256 / 256;
    assert LittleEndian(d, 1) == [d % 256] + [];
    assert LittleEndian(c, 2) == [c % 256] + LittleEndian(d, 1);
    assert LittleEndian(b, 3) == [b % 256] + LittleEndian(c, 2);
  }

  /**
   The padded message: its bits, a one bit, as few zero bits as bring it to 448 modulo 512, and the
   number of its bits in eight bytes, least significant first.
   */
  lemma {:induction false} PaddedBits(msg: seq<Byte>) returns (k: nat)
    ensures k < 512 && (8 * |msg| + 1 + k) % 512 == 448
    ensures Bits(Padded(msg)) == Bits(msg) + [true] + ZeroBits(k) + Bits(LittleEndian(8 * |msg|, 8))
  {
    var z, count := PadLength(|msg|) - 1, LittleEndian(8 * |msg|, 8);
    k := 7 + 8 * z;
    FillsTo448(|msg|, z);
    CountIsLittleEndian(|msg|);
    assert Padded(msg) == msg + [0x80] + Zeros(z) + count;
    PaddedParts(msg, z, count);
  }

  lemma {:induction false} BitsOfFour(a: seq<Byte>, b: seq<Byte>, c: seq<Byte>, d: seq<Byte>)
    ensures Bits(a + b + c + d) == Bits(a) + Bits(b) + Bits(c) + Bits(d)
  {
    BitsOfBoth(a + b + c, d);
    BitsOfBoth(a + b, c);
    BitsOfBoth(a, b);
  }

  lemma {:induction false} PaddedParts(msg: seq<Byte>, z: nat, count: seq<Byte>)
    ensures Bits(msg + [0x80] + Zeros(z) + count) == Bits(msg) + [true] + ZeroBits(7 + 8 * z) + Bits(count)
  {
    BitsOfFour(msg, [0x80], Zeros(z), count);
    BitsOfZeros(z);
    OneBit();
    FillJoins(Bits(msg), z, Bits(count));
  }

  lemma {:induction false} OneBit()
    ensures Bits([0x80]) == [true] + ZeroBits(7)
  {
    assert Bits([0x80]) == BitsOf(0x80) + [];
  }

  lemma {:induction false} FillJoins(a: seq<bool>, z: nat, b: seq<bool>)
    ensures a + ([true] + ZeroBits(7)) + ZeroBits(8 * z) + b == a + [true] + ZeroBits(7 + 8 * z) + b
  {
    assert ZeroBits(7) + ZeroBits(8 * z) == ZeroBits(7 + 8 * z);
    assert a + ([true] + ZeroBits(7)) + ZeroBits(8 * z) == a + [true] + (ZeroBits(7) + ZeroBits(8 * z));
  }

  lemma {:induction false} FillsTo448(len: nat, z: nat)
    requires (len + z + 1) % 64 == 56
    ensures (8 * len + 1 + (7 + 8 * z)) % 512 == 448
  {
    var q := (len + z + 1) / 64;
    assert 8 * (len + z + 1) == 512 * q + 448;
  }

  lemma {:induction false} FourWords(a: Word32, b: Word32, c: Word32, d: Word32)
    ensures EncodeWords([a, b, c, d]) == EncodeWord(a) + EncodeWord(b) + EncodeWord(c) + EncodeWord(d)
  {
    var s := [a, b, c, d];
    assert s[1..] == [b, c, d] && [b, c, d][1..] == [c, d] && [c, d][1..] == [d] && [d][1..] == [];
    assert EncodeWords([d]) == EncodeWord(d) + [];
    assert EncodeWords([c, d]) == EncodeWord(c) + EncodeWords([d]);
    assert EncodeWords([b, c, d]) == EncodeWord(b) + EncodeWords([c, d]);
  }

  /** The start value, in bytes, counts up and down again. */
  lemma {:induction false} InitialBytes()
    ensures Output(INITIAL) == [0x01, 0x23, 0x45, 0x67] + [0x89, 0xab, 0xcd, 0xef]
                               + [0xfe, 0xdc, 0xba, 0x98] + [0x76, 0x54, 0x32, 0x10]
  {
    FourWords(INITIAL.a, INITIAL.b, INITIAL.c, INITIAL.d);
    EncodeDecode([0x01, 0x23, 0x45, 0x67]);
    EncodeDecode([0x89, 0xab, 0xcd, 0xef]);
    EncodeDecode([0xfe, 0xdc, 0xba, 0x98]);
    EncodeDecode([0x76, 0x54, 0x32, 0x10]);
  }
}
