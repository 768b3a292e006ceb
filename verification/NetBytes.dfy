/** Numbers in network order, in byte sequences, buffers and the memory packets are read from. */
module NetBytes {
  import opened Common

  /** The memory a packet is read from, counted from the start of the packet. */
  type Memory = nat -> Byte

  function Bytes16(v: Word16): (r: seq<Byte>)
    ensures |r| == 2
  {
    [v / 256, v % 256]
  }

  function Bytes32(v: Word32): (r: seq<Byte>)
    ensures |r| == 4
  {
    [v / 0x100_0000, v / 0x1_0000 % 256, v / 0x100 % 256, v % 256]
  }

  function Read16(m: Memory, p: nat): Word16 {
    m(p) * 256 + m(p + 1)
  }

  function Read32(m: Memory, p: nat): Word32 {
    Read16(m, p) * 0x1_0000 + Read16(m, p + 2)
  }

  ghost predicate Holds(m: Memory, p: nat, s: seq<Byte>) {
    forall i {:trigger s[i]} :: 0 <= i < |s| ==> m(p + i) == s[i]
  }

  lemma {:induction false} HoldsBoth(m: Memory, p: nat, a: seq<Byte>, b: seq<Byte>)
    requires Holds(m, p, a + b)
    ensures Holds(m, p, a) && Holds(m, p + |a|, b)
  {
    forall i | 0 <= i < |a| ensures m(p + i) == a[i] {
      assert (a + b)[i] == a[i];
    }
    forall i | 0 <= i < |b| ensures m(p + |a| + i) == b[i] {
      assert (a + b)[|a| + i] == b[i];
    }
  }

  lemma {:induction false} Reads16(m: Memory, p: nat, v: Word16)
    requires Holds(m, p, Bytes16(v))
    ensures Read16(m, p) == v
  {
    assert m(p + 0) == Bytes16(v)[0] && m(p + 1) == Bytes16(v)[1];
  }

  lemma {:induction false} WordParts(v: Word32)
    ensures v / 0x100_0000 == v / 0x1_0000 / 256 && v / 0x1_0000 % 256 == v / 0x1_0000 - v / 0x100_0000 * 256
    ensures v / 0x100 % 256 == v / 0x100 - v / 0x1_0000 * 256 && v % 256 == v - v / 0x100 * 256
  {
  }

  lemma {:induction false} Reads32(m: Memory, p: nat, v: Word32)
    requires Holds(m, p, Bytes32(v))
    ensures Read32(m, p) == v
  {
    var s := Bytes32(v);
    var a, b, c, d := s[0], s[1], s[2], s[3];
    assert m(p + 0) == a && m(p + 1) == b && m(p + 2) == c && m(p + 3) == d;
    WordParts(v);
  }

  function Slice(m: Memory, p: nat, n: nat): (r: seq<Byte>)
    ensures |r| == n
  {
    seq(n, i requires 0 <= i < n => m(p + i))
  }

  /** Appends `s` at position `p` of the buffer. */
  method Put(a: array<Byte>, p: nat, s: seq<Byte>) returns (q: nat)
    requires p + |s| <= a.Length
    modifies a
    ensures q == p + |s| && a[..q] == old(a[..p]) + s
  {
    forall i | 0 <= i < |s| {
      a[p + i] := s[i];
    }
    q := p + |s|;
  }
}
