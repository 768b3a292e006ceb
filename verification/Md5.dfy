/**
 Incremental MD5: a message handed over in pieces, with a 64-byte carry buffer and a bit
 count split over two 32-bit words, hashes to the digest of the whole message as section 3
 of RFC 1321 defines it. The block transform is a parameter, so the results hold for MD5's.
 */
module Md5 {
  import opened Common

  const BLOCK: nat := 64

  datatype Words = Words(a: Word32, b: Word32, c: Word32, d: Word32)

  type Transform = (Words, seq<Byte>) -> Words

  const INITIAL := Words(0x67452301, 0xefcdab89, 0x98badcfe, 0x10325476)

  // The one-shot definition.

  function EncodeWord(w: Word32): (s: seq<Byte>)
    ensures |s| == 4
  {
    [LowByte(w), LowByte(w / 0x100), LowByte(w / 0x1_0000), LowByte(w / 0x100_0000)]
  }

  function DecodeWord(s: seq<Byte>): Word32
    requires |s| == 4
  {
    var b0: nat, b1: nat, b2: nat, b3: nat := s[0], s[1], s[2], s[3];
    b0 + b1 * 0x100 + b2 * 0x1_0000 + b3 * 0x100_0000
  }

  lemma DecodeEncode(w: Word32)
    ensures DecodeWord(EncodeWord(w)) == w
  {
    assert w / 0x1_0000 == w / 0x100 / 0x100 && w / 0x100_0000 == w / 0x1_0000 / 0x100;
  }

  lemma EncodeDecode(s: seq<Byte>)
    requires |s| == 4
    ensures EncodeWord(DecodeWord(s)) == s
  {
    var b0: nat, b1: nat, b2: nat, b3: nat := s[0], s[1], s[2], s[3];
    var w := DecodeWord(s);
    DivModUnique(w, 0x100, b1 + b2 * 0x100 + b3 * 0x1_0000, b0);
    DivModUnique(w, 0x1_0000, b2 + b3 * 0x100, b0 + b1 * 0x100);
    DivModUnique(w, 0x100_0000, b3, b0 + b1 * 0x100 + b2 * 0x1_0000);
    DivModUnique(w / 0x100, 0x100, b2 + b3 * 0x100, b1);
    DivModUnique(w / 0x1_0000, 0x100, b3, b2);
  }

  function EncodeWords(ws: seq<Word32>): (s: seq<Byte>)
    ensures |s| == 4 * |ws|
  {
    if ws == [] then [] else EncodeWord(ws[0]) + EncodeWords(ws[1..])
  }

  function Zeros(n: nat): (s: seq<Byte>)
    ensures |s| == n && forall i :: 0 <= i < n ==> s[i] == 0
  {
    seq(n, i => 0)
  }

  /** How many padding bytes bring a message of `len` bytes to 56 modulo 64. */
  function PadLength(len: nat): (n: nat)
    ensures 1 <= n <= BLOCK && (len + n) % BLOCK == 56
  {
    var index := len % BLOCK;
    DivModAdd(len, if index < 56 then 56 - index else 120 - index, BLOCK);
    if index < 56 then 56 - index else 120 - index
  }

  /** The number of bits of a message, modulo 2^64, low word first. */
  function BitCount(len: nat): seq<Word32> {
    [8 * len % WORD32, 8 * len / WORD32 % WORD32]
  }

  function Padded(msg: seq<Byte>): (p: seq<Byte>)
    ensures |p| % BLOCK == 0
  {
    DivModAdd(|msg| + PadLength(|msg|), 8, BLOCK);
    msg + [0x80] + Zeros(PadLength(|msg|) - 1) + EncodeWords(BitCount(|msg|))
  }

  ghost function Fold(f: Transform, st: Words, s: seq<Byte>): Words
    decreases |s|
  {
    if |s| < BLOCK then st else Fold(f, f(st, s[..BLOCK]), s[BLOCK..])
  }

  function Output(st: Words): (d: seq<Byte>)
    ensures |d| == 16
  {
    EncodeWords([st.a, st.b, st.c, st.d])
  }

  ghost function Digest(f: Transform, msg: seq<Byte>): (d: seq<Byte>)
    ensures |d| == 16
  {
    Output(Fold(f, INITIAL, Padded(msg)))
  }

  lemma {:induction false} FoldAppend(f: Transform, st: Words, s: seq<Byte>, t: seq<Byte>)
    requires |s| % BLOCK == 0
    ensures Fold(f, st, s + t) == Fold(f, Fold(f, st, s), t)
    decreases |s|
  {
    if s == [] {
      assert s + t == t;
    } else {
      assert (s + t)[..BLOCK] == s[..BLOCK] && (s + t)[BLOCK..] == s[BLOCK..] + t;
      FoldAppend(f, f(st, s[..BLOCK]), s[BLOCK..], t);
    }
  }

  lemma {:induction false} FoldIgnoresTail(f: Transform, st: Words, s: seq<Byte>)
    ensures Fold(f, st, s) == Fold(f, st, s[..|s| - |s| % BLOCK])
  {
    var whole := s[..|s| - |s| % BLOCK];
    FoldAppend(f, st, whole, s[|s| - |s| % BLOCK..]);
    assert whole + s[|s| - |s| % BLOCK..] == s;
  }

  // The bit counter.

  /** The low word after adding `n` bytes, and the carry the unsigned comparison detects. */
  function AddLow(count: Word32, n: Word32): Word32 {
    (count + n * 8 % WORD32) % WORD32
  }

  function AddHigh(low: Word32, high: Word32, n: Word32): Word32 {
    var carry := if AddLow(low, n) < n * 8 % WORD32 then 1 else 0;
    (high + carry + n / 0x2000_0000) % WORD32
  }

  lemma CounterAdds(len: nat, n: Word32)
    ensures AddLow(BitCount(len)[0], n) == BitCount(len + n)[0]
    ensures AddHigh(BitCount(len)[0], BitCount(len)[1], n) == BitCount(len + n)[1]
  {
    var low, high := 8 * len % WORD32, 8 * len / WORD32;
    var lowN, highN := 8 * (n % 0x2000_0000), n / 0x2000_0000;
    DivModUnique(8 * n, WORD32, highN, lowN);
    DivModAdd(8 * len, 8 * n, WORD32);
    CarryIsDetected(low, lowN);
    ReduceFirst(high, (if low + lowN >= WORD32 then 1 else 0) + highN);
  }

  /** A 32-bit sum is smaller than its second operand exactly when it ran over. */
  lemma CarryIsDetected(a: Word32, b: Word32)
    ensures (a + b) % WORD32 < b <==> a + b >= WORD32
    ensures (a + b) % WORD32 == if a + b >= WORD32 then a + b - WORD32 else a + b
  {
    DivModUnique(a + b, WORD32, if a + b >= WORD32 then 1 else 0, if a + b >= WORD32 then a + b - WORD32 else a + b);
  }

  lemma ReduceFirst(a: nat, b: nat)
    ensures (a % WORD32 + b) % WORD32 == (a + b) % WORD32
  {
    DivModAdd(a, b, WORD32);
    DivModAdd(a % WORD32, b, WORD32);
    DivModUnique(a % WORD32, WORD32, 0, a % WORD32);
  }

  lemma IndexFromCount(len: nat)
    ensures BitCount(len)[0] / 8 % BLOCK == len % BLOCK
  {
  }
}
