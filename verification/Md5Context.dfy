/** The MD5 context that is fed a message in pieces, and HMAC-MD5 on top of it. */
module Md5Context {
  import opened Common
  import opened Md5

  lemma {:induction false} FoldBlock(f: Transform, s: seq<Byte>, block: seq<Byte>)
    requires |s| % BLOCK == 0 && |block| == BLOCK
    ensures Fold(f, INITIAL, s + block) == f(Fold(f, INITIAL, s), block)
  {
    FoldAppend(f, INITIAL, s, block);
    assert block[..BLOCK] == block;
  }

  lemma {:induction false} NextBlock(f: Transform, before: seq<Byte>, input: seq<Byte>, part: nat, i: nat, k: nat)
    requires |before| % BLOCK == 0 && i == part + k * BLOCK && i + BLOCK <= |input|
    ensures Fold(f, INITIAL, before + input[part..i + BLOCK])
         == f(Fold(f, INITIAL, before + input[part..i]), input[i..i + BLOCK])
  {
    DivModUnique(|before| + k * BLOCK, BLOCK, |before| / BLOCK + k, 0);
    FoldBlock(f, before + input[part..i], input[i..i + BLOCK]);
    assert (before + input[part..i]) + input[i..i + BLOCK] == before + input[part..i + BLOCK];
  }

  /** The bytes of a message that wait in the carry buffer. */
  function Carry(msg: seq<Byte>): seq<Byte> {
    msg[|msg| - |msg| % BLOCK..]
  }

  /** Where the unhashed tail of an input of `n` bytes starts when `index` bytes are waiting. */
  function TailStart(index: nat, n: nat): (t: nat)
    requires index < BLOCK
    ensures t <= n
  {
    var part := BLOCK - index;
    if n < part then 0 else part + (n - part) / BLOCK * BLOCK
  }

  lemma {:induction false} TailLength(len: nat, n: nat)
    ensures var index := len % BLOCK;
            n - TailStart(index, n) == if n < BLOCK - index then n else (len + n) % BLOCK
    ensures n < BLOCK - len % BLOCK ==> (len + n) % BLOCK == len % BLOCK + n
  {
    var index := len % BLOCK;
    var part := BLOCK - index;
    if n >= part {
      var rest := (n - part) % BLOCK;
      DivModUnique(len + n, BLOCK, len / BLOCK + 1 + (n - part) / BLOCK, rest);
    } else {
      DivModUnique(len + n, BLOCK, len / BLOCK, index + n);
    }
  }

  /**
   At the end of the input the 32-bit comparison that guards the block loop stops it
   exactly when the loop counter plus 63 does not run over.
   */
  lemma {:induction false} GuardStopsIff(i: nat, n: Word32)
    requires i <= n <= i + 63
    ensures (i + 63) % WORD32 >= n <==> i + 63 < WORD32
  {
    DivModUnique(i + 63, WORD32, if i + 63 < WORD32 then 0 else 1, if i + 63 < WORD32 then i + 63 else i + 63 - WORD32);
  }

  lemma {:induction false} GuardIsExact(part: nat, n: Word32, k: nat)
    requires part + k * BLOCK <= n && part + (n - part) / BLOCK * BLOCK <= WORD32 - BLOCK
    ensures var i := part + k * BLOCK; (i + 63) % WORD32 < n <==> i + BLOCK <= n
  {
    var i := part + k * BLOCK;
    assert (n - part) / BLOCK >= k;
    assert i + 63 < WORD32;
  }

  /**
   Where it does not stop there, it never stops: the counter runs over and the guard holds
   for every value the counter then takes.
   */
  lemma {:induction false} GuardNeverStops(index: nat, n: Word32, k: nat)
    requires index < BLOCK && BLOCK - index <= n && TailStart(index, n) + 63 >= WORD32
    ensures var i := (BLOCK - index + k * BLOCK) % WORD32; (i + 63) % WORD32 < n
  {
    var part := BLOCK - index;
    var sum := part + k * BLOCK;
    var i, q, j := sum % WORD32, sum / WORD32, (n - part) / BLOCK;
    var t := TailStart(index, n);
    assert sum == q * WORD32 + i && WORD32 == 0x400_0000 * BLOCK;
    var d := j - k + q * 0x400_0000;
    assert t - i == d * BLOCK;
    if i + 63 < WORD32 {
      assert d <= 0 ==> d * BLOCK <= 0;
      assert i + 63 < t;
    } else {
      DivModUnique(i + 63, WORD32, 1, i + 63 - WORD32);
    }
  }

  /** One byte is waiting and 2^32 - 1 more arrive in one call. */
  lemma {:induction false} LargestInputNeverEnds(k: nat)
    ensures TailStart(1, WORD32 - 1) == WORD32 - 1
    ensures ((63 + k * BLOCK) % WORD32 + 63) % WORD32 < WORD32 - 1
  {
    GuardNeverStops(1, WORD32 - 1, k);
  }

  function Whole(msg: seq<Byte>): (w: seq<Byte>)
    ensures |w| % BLOCK == 0 && |w| == |msg| - |msg| % BLOCK && w <= msg
  {
    DivModUnique(|msg| - |msg| % BLOCK, BLOCK, |msg| / BLOCK, 0);
    msg[..|msg| - |msg| % BLOCK]
  }

  lemma {:induction false} SplitMessage(f: Transform, msg: seq<Byte>)
    ensures msg == Whole(msg) + Carry(msg)
    ensures Fold(f, INITIAL, msg) == Fold(f, INITIAL, Whole(msg))
  {
    FoldIgnoresTail(f, INITIAL, msg);
  }

  lemma {:induction false} SplitIsUnique(whole: seq<Byte>, carry: seq<Byte>)
    requires |whole| % BLOCK == 0 && |carry| < BLOCK
    ensures Whole(whole + carry) == whole && Carry(whole + carry) == carry
  {
    DivModUnique(|whole| + |carry|, BLOCK, |whole| / BLOCK, |carry|);
  }

  lemma {:induction false} KeepWaiting(f: Transform, msg: seq<Byte>, input: seq<Byte>)
    requires |input| < BLOCK - |msg| % BLOCK
    ensures Fold(f, INITIAL, msg + input) == Fold(f, INITIAL, msg)
    ensures Carry(msg + input) == Carry(msg) + input
  {
    SplitMessage(f, msg);
    SplitMessage(f, msg + input);
    assert msg + input == Whole(msg) + (Carry(msg) + input);
    SplitIsUnique(Whole(msg), Carry(msg) + input);
  }

  /** Once the carry buffer is full, its block and the full blocks that follow are hashed. */
  lemma {:induction false} AbsorbTail(f: Transform, msg: seq<Byte>, input: seq<Byte>, part: nat, i: nat)
    requires part == BLOCK - |msg| % BLOCK && part <= i <= |input| && |input| - i < BLOCK && (i - part) % BLOCK == 0
    ensures Fold(f, INITIAL, Whole(msg) + (Carry(msg) + input[..part]) + input[part..i])
            == Fold(f, INITIAL, msg + input)
    ensures Carry(msg + input) == input[i..] && |input| - i == (|msg| + |input|) % BLOCK
  {
    var whole := Whole(msg) + (Carry(msg) + input[..part]) + input[part..i];
    SplitMessage(f, msg);
    SplitMessage(f, msg + input);
    assert whole + input[i..] == msg + input;
    DivModUnique(|whole|, BLOCK, |msg| / BLOCK + 1 + (i - part) / BLOCK, 0);
    SplitIsUnique(whole, input[i..]);
  }

  class Context {
    const transform: Transform
    var state: Words
    var low: Word32
    var high: Word32
    const buffer: array<Byte>
    ghost var message: seq<Byte>

    ghost predicate Valid()
      reads this, buffer
    {
      && buffer.Length == BLOCK
      && [low, high] == BitCount(|message|)
      && state == Fold(transform, INITIAL, message)
      && buffer[..|message| % BLOCK] == Carry(message)
    }

    constructor (f: Transform)
      ensures Valid() && message == [] && transform == f && fresh(buffer)
    {
      transform := f;
      low, high, state := 0, 0, INITIAL;
      buffer := new Byte[BLOCK];
      message := [];
    }

    method Copy(index: nat, bytes: seq<Byte>)
      requires index + |bytes| <= buffer.Length
      modifies buffer
      ensures buffer[..] == old(buffer[..index]) + bytes + old(buffer[index + |bytes|..])
    {
      var i := 0;
      while i < |bytes|
        invariant 0 <= i <= |bytes|
        invariant forall j :: 0 <= j < buffer.Length ==>
          buffer[j] == if index <= j < index + i then bytes[j - index] else old(buffer[j])
      {
        buffer[index + i] := bytes[i];
        i := i + 1;
      }
    }

    /** Hashes the full blocks of the input from `part` on; the rest starts at the result. */
    method HashBlocks(input: seq<Byte>, part: nat, ghost before: seq<Byte>) returns (i: nat)
      requires part <= |input| < WORD32 && part <= BLOCK
      requires part + (|input| - part) / BLOCK * BLOCK <= WORD32 - BLOCK
      requires |before| % BLOCK == 0 && state == Fold(transform, INITIAL, before)
      modifies this`state
      ensures part <= i <= |input| && |input| - i < BLOCK && (i - part) % BLOCK == 0
      ensures state == Fold(transform, INITIAL, before + input[part..i])
    {
      ghost var k := 0;
      i := part;
      assert before + input[part..part] == before;
      GuardIsExact(part, |input|, k);
      while (i + 63) % WORD32 < |input|
        invariant i == part + k * BLOCK && i <= |input|
        invariant (i + 63) % WORD32 < |input| <==> i + BLOCK <= |input|
        invariant state == Fold(transform, INITIAL, before + input[part..i])
        decreases |input| - i
      {
        NextBlock(transform, before, input, part, i, k);
        state := transform(state, input[i..i + BLOCK]);
        i := i + BLOCK;
        k := k + 1;
        GuardIsExact(part, |input|, k);
      }
      DivModUnique(i - part, BLOCK, k, 0);
    }

    /** Fills up the carry buffer and hashes it. */
    method HashCarry(head: seq<Byte>, ghost msg: seq<Byte>)
      requires buffer.Length == BLOCK && |head| == BLOCK - |msg| % BLOCK
      requires state == Fold(transform, INITIAL, msg) && buffer[..|msg| % BLOCK] == Carry(msg)
      modifies this`state, buffer
      ensures state == Fold(transform, INITIAL, Whole(msg) + (Carry(msg) + head))
    {
      SplitMessage(transform, msg);
      Copy(BLOCK - |head|, head);
      assert buffer[..] == Carry(msg) + head;
      FoldBlock(transform, Whole(msg), buffer[..]);
      state := transform(state, buffer[..]);
    }

    /** Fills up the carry buffer, hashes every full block and keeps the rest. */
    method Absorb(input: seq<Byte>, part: nat, ghost msg: seq<Byte>)
      requires buffer.Length == BLOCK && part == BLOCK - |msg| % BLOCK <= |input| < WORD32
      requires state == Fold(transform, INITIAL, msg) && buffer[..|msg| % BLOCK] == Carry(msg)
      requires TailStart(|msg| % BLOCK, |input|) <= WORD32 - BLOCK
      modifies this`state, buffer
      ensures state == Fold(transform, INITIAL, msg + input)
      ensures buffer[..(|msg| + |input|) % BLOCK] == Carry(msg + input)
    {
      HashCarry(input[..part], msg);
      ghost var before := Whole(msg) + (Carry(msg) + input[..part]);
      DivModAdd(|Whole(msg)|, BLOCK, BLOCK);
      var i := HashBlocks(input, part, before);
      AbsorbTail(transform, msg, input, part, i);
      Keep(input[i..]);
    }

    method Keep(tail: seq<Byte>)
      requires |tail| <= buffer.Length
      modifies buffer
      ensures buffer[..|tail|] == tail
    {
      Copy(0, tail);
    }

    /** Adds `n` bytes to the bit counter of `len` bytes; the result is where the carry buffer stood. */
    method CountBits(ghost len: nat, n: Word32) returns (index: nat)
      requires [low, high] == BitCount(len)
      modifies `low, `high
      ensures [low, high] == BitCount(len + n) && index == len % BLOCK
    {
      IndexFromCount(len);
      CounterAdds(len, n);
      index := low / 8 % BLOCK;
      low, high := AddLow(low, n), AddHigh(low, high, n);
    }

    /** Takes the next piece of the message. */
    method Update(input: seq<Byte>)
      requires Valid() && |input| < WORD32
      requires TailStart(|message| % BLOCK, |input|) <= WORD32 - BLOCK
      modifies this, buffer
      ensures Valid() && message == old(message) + input
    {
      var index := CountBits(|message|, |input|);
      TailLength(|message|, |input|);
      var part := BLOCK - index;
      if |input| >= part {
        Absorb(input, part, message);
      } else {
        KeepWaiting(transform, message, input);
        Copy(index, input);
      }
      message := message + input;
    }

    /** Pads the message, hashes the rest and wipes the context. */
    method Final() returns (digest: seq<Byte>)
      requires Valid()
      modifies this, buffer
      ensures digest == Digest(transform, old(message))
      ensures state == Words(0, 0, 0, 0) && low == 0 && high == 0 && buffer[..] == Zeros(BLOCK)
    {
      var bits := EncodeWords([low, high]);
      IndexFromCount(|message|);
      var index := low / 8 % BLOCK;
      var padLen := if index < 56 then 56 - index else 120 - index;
      ghost var msg := message;
      assert padLen == PadLength(|msg|);
      Update([0x80] + Zeros(padLen - 1));
      Update(bits);
      assert message == Padded(msg);
      digest := Output(state);
      state, low, high := Words(0, 0, 0, 0), 0, 0;
      Copy(0, Zeros(BLOCK));
    }
  }

  ghost function Concat(pieces: seq<seq<Byte>>): seq<Byte> {
    if pieces == [] then [] else Concat(pieces[..|pieces| - 1]) + pieces[|pieces| - 1]
  }

  /** Piece `i` has a 32-bit length, and the block loop ends on it. */
  ghost predicate LoopEnds(pieces: seq<seq<Byte>>, i: nat)
    requires i < |pieces|
  {
    |pieces[i]| < WORD32 && TailStart(|Concat(pieces[..i])| % BLOCK, |pieces[i]|) <= WORD32 - BLOCK
  }

  /** However a message is cut into pieces, the digest is that of the whole. */
  method HashPieces(f: Transform, pieces: seq<seq<Byte>>) returns (digest: seq<Byte>)
    requires forall i :: 0 <= i < |pieces| ==> LoopEnds(pieces, i)
    ensures digest == Digest(f, Concat(pieces))
  {
    var c := new Context(f);
    var i := 0;
    while i < |pieces|
      invariant 0 <= i <= |pieces|
      invariant c.Valid() && c.transform == f && c.message == Concat(pieces[..i])
      invariant fresh(c) && fresh(c.buffer)
    {
      assert pieces[..i + 1][..i] == pieces[..i] && LoopEnds(pieces, i);
      c.Update(pieces[i]);
      i := i + 1;
    }
    assert pieces[..i] == pieces;
    digest := c.Final();
  }

  /** It ends on every piece that is not within 63 bytes of 2^32. */
  lemma {:induction false} ShortLoopsEnd(pieces: seq<seq<Byte>>)
    requires forall i :: 0 <= i < |pieces| ==> |pieces[i]| <= WORD32 - BLOCK
    ensures forall i :: 0 <= i < |pieces| ==> LoopEnds(pieces, i)
  {
  }

  // HMAC, section 2 of RFC 2104.

  function XorAll(s: seq<Byte>, pad: Byte): (r: seq<Byte>)
    ensures |r| == |s|
  {
    seq(|s|, i requires 0 <= i < |s| => XorByte(s[i], pad))
  }

  function XorByte(a: Byte, b: Byte): Byte {
    BitXor(a, b) % 256
  }

  ghost function HmacKey(f: Transform, key: seq<Byte>): (k: seq<Byte>)
    ensures |k| == BLOCK
  {
    var k := if |key| > BLOCK then Digest(f, key) else key;
    k + Zeros(BLOCK - |k|)
  }

  ghost function Hmac(f: Transform, key: seq<Byte>, text: seq<Byte>): seq<Byte> {
    var k := HmacKey(f, key);
    Digest(f, XorAll(k, 0x5c) + Digest(f, XorAll(k, 0x36) + text))
  }

  /** The key, filled up with zeros, masked for the inner and for the outer hash. */
  method Pads(k: seq<Byte>) returns (ipad: array<Byte>, opad: array<Byte>)
    requires |k| <= BLOCK
    ensures ipad.Length == opad.Length == 65
    ensures ipad[..BLOCK] == XorAll(k + Zeros(BLOCK - |k|), 0x36)
    ensures opad[..BLOCK] == XorAll(k + Zeros(BLOCK - |k|), 0x5c)
  {
    ipad, opad := new Byte[65](i => 0), new Byte[65](i => 0);
    var i := 0;
    while i < |k|
      invariant 0 <= i <= |k|
      invariant forall j :: 0 <= j < 65 ==> ipad[j] == opad[j] == if j < i then k[j] else 0
    {
      ipad[i], opad[i] := k[i], k[i];
      i := i + 1;
    }
    ghost var padded := k + Zeros(BLOCK - |k|);
    i := 0;
    while i < BLOCK
      invariant 0 <= i <= BLOCK
      invariant forall j :: 0 <= j < BLOCK ==> ipad[j] == if j < i then XorByte(padded[j], 0x36) else padded[j]
      invariant forall j :: 0 <= j < BLOCK ==> opad[j] == if j < i then XorByte(padded[j], 0x5c) else padded[j]
    {
      ipad[i], opad[i] := XorByte(ipad[i], 0x36), XorByte(opad[i], 0x5c);
      i := i + 1;
    }
  }

  /** The lengths are C ints, so that no piece comes near the limit of the block loop. */
  method HmacMd5(f: Transform, text: seq<Byte>, key: seq<Byte>) returns (digest: seq<Byte>)
    requires |text| < 0x8000_0000 && |key| < 0x8000_0000
    ensures digest == Hmac(f, key, text)
  {
    var k := key;
    if |k| > BLOCK {
      var t := new Context(f);
      t.Update(k);
      assert [] + k == k;
      k := t.Final();
    }
    var ipad, opad := Pads(k);
    ghost var padded := k + Zeros(BLOCK - |k|);
    ShortLoopsEnd([ipad[..BLOCK], text]);
    digest := HashPieces(f, [ipad[..BLOCK], text]);
    ConcatTwo(XorAll(padded, 0x36), text);
    ghost var inner := digest;
    ShortLoopsEnd([opad[..BLOCK], digest]);
    digest := HashPieces(f, [opad[..BLOCK], digest]);
    ConcatTwo(XorAll(padded, 0x5c), inner);
  }

  lemma {:induction false} ConcatTwo(a: seq<Byte>, b: seq<Byte>)
    ensures Concat([a, b]) == a + b
  {
    assert [a, b][..1] == [a] && [a][..0] == [];
    assert Concat([a]) == Concat([]) + a;
  }
}
