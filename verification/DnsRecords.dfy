/** What the packet parser makes of the records of a response: chains of aliases, and records cut short. */
module DnsRecords {
  import opened Common
  import opened DnsNames
  import opened DnsCacheModel
  import opened DnsPacket
  import opened NetBytes

  /** A record of class 1 whose name is a pointer. */
  datatype Record = Record(pointer: Byte, kind: Word16, ttl: Word32, data: seq<Byte>)

  /** Aliases, of any length, and addresses of the right length. */
  predicate InChain(r: Record) {
    |r.data| < 0x1_0000
    && (r.kind == 5 || (r.kind == 1 && |r.data| == 4) || (r.kind == 28 && |r.data| == 16))
  }

  function EncodeRecord(r: Record): (s: seq<Byte>)
    requires InChain(r)
    ensures |s| == 12 + |r.data|
  {
    [0xc0, r.pointer] + Bytes16(r.kind) + Bytes16(1) + Bytes32(r.ttl) + Bytes16(|r.data|) + r.data
  }

  predicate AllInChain(rs: seq<Record>) {
    rs != [] ==> InChain(rs[0]) && AllInChain(rs[1..])
  }

  function EncodeRecords(rs: seq<Record>): seq<Byte>
    requires AllInChain(rs)
  {
    if rs == [] then [] else EncodeRecord(rs[0]) + EncodeRecords(rs[1..])
  }

  /** The smaller of two times to live, of the second only the lower sixteen bits. */
  function Lower(ttl: int, t: Word32): int {
    if t % 65536 < ttl then t % 65536 else ttl
  }

  /** The least of the times to live, of which the lower sixteen bits are looked at. */
  function Least(rs: seq<Record>, ttl: int): int {
    if rs == [] then ttl
    else Least(rs[1..], Lower(ttl, rs[0].ttl))
  }

  lemma {:induction false} RecordSays(m: Memory, p: nat, r: Record)
    requires InChain(r) && Holds(m, p, EncodeRecord(r))
    ensures m(p) == 0xc0 && Read16(m, p + 2) == r.kind && Read16(m, p + 4) == 1
    ensures Read32(m, p + 6) == r.ttl && Read16(m, p + 10) == |r.data|
  {
    var a, k, c, t, n := [0xc0, r.pointer], Bytes16(r.kind), Bytes16(1), Bytes32(r.ttl), Bytes16(|r.data|);
    HoldsBoth(m, p, a + k + c + t + n, r.data);
    HoldsBoth(m, p, a + k + c + t, n);
    HoldsBoth(m, p, a + k + c, t);
    HoldsBoth(m, p, a + k, c);
    HoldsBoth(m, p, a, k);
    assert m(p + 0) == a[0];
    Reads16(m, p + 2, r.kind);
    Reads16(m, p + 4, 1);
    Reads32(m, p + 6, r.ttl);
    Reads16(m, p + 10, |r.data|);
  }

  /** One record of a chain: it must end within the packet, and may lower the time to live. */
  lemma {:induction false} RecordStep(m: Memory, len: nat, n: nat, p: nat, r: Record, ttl: int, out: (bool, int))
    requires InChain(r) && Holds(m, p, EncodeRecord(r)) && out == AliasTtl(m, len, n + 1, p, ttl)
    ensures var q := p + 12 + |r.data|; if q > len then out.0 else out == AliasTtl(m, len, n, q, Lower(ttl, r.ttl))
  {
    RecordSays(m, p, r);
  }

  lemma {:induction false} NoRecordLeft(m: Memory, len: nat, p: nat, ttl: int)
    ensures AliasTtl(m, len, 0, p, ttl) == (false, ttl)
  {
  }

  /**
   The time to live of a chain of aliases and addresses is the least of its records and the value
   started with; the chain is rejected if and only if it does not end within the packet.
   */
  lemma {:induction false} ChainTtl(m: Memory, len: nat, p: nat, rs: seq<Record>, ttl: int, out: (bool, int))
    requires AllInChain(rs) && Holds(m, p, EncodeRecords(rs)) && rs != [] && out == AliasTtl(m, len, |rs|, p, ttl)
    ensures out.0 <==> p + |EncodeRecords(rs)| > len
    ensures !out.0 ==> out.1 == Least(rs, ttl)
    decreases |rs|
  {
    var r, rest := rs[0], rs[1..];
    var q, lower := p + 12 + |r.data|, Lower(ttl, r.ttl);
    FirstRecordHolds(m, p, rs);
    RecordStep(m, len, |rest|, p, r, ttl, out);
    if q <= len {
      if rest != [] {
        ChainTtl(m, len, q, rest, lower, out);
      } else {
        NoRecordLeft(m, len, q, lower);
      }
    }
  }

  lemma {:induction false} FirstRecordHolds(m: Memory, p: nat, rs: seq<Record>)
    requires AllInChain(rs) && Holds(m, p, EncodeRecords(rs)) && rs != []
    ensures Holds(m, p, EncodeRecord(rs[0])) && Holds(m, p + 12 + |rs[0].data|, EncodeRecords(rs[1..]))
    ensures |EncodeRecords(rs)| == 12 + |rs[0].data| + |EncodeRecords(rs[1..])|
  {
    HoldsBoth(m, p, EncodeRecord(rs[0]), EncodeRecords(rs[1..]));
  }

  /** A built answer that is cut anywhere behind its name is rejected, and only then. */
  lemma {:induction false} CutAnswerIsRejected(m: Memory, k: Key, e: Entry, tid: Word16, len: nat, was: Fields)
    requires (k.kind == TYPE_A || k.kind == TYPE_AAAA) && PacketName(k.name)
    requires Holds(m, 0, PacketBytes(k, e, tid)) && 12 + |k.name| <= len
    ensures Verify(m, len, was).0 <==> len < |PacketBytes(k, e, tid)|
  {
    PacketHolds(m, k, e, tid);
    HeaderHolds(m, e, tid);
    QuestionSays(m, k, len);
    VerifyGetsToAnswer(m, len, was, k.name, k.kind, e.flags);
    var p := HEADER + |k.name| + 5;
    RecordHolds(m, p, k, e);
    AddressHolds(m, p + 10, k, e);
  }

  lemma {:induction false} HostRecordInBytes(e: Entry)
    requires e == StaticEntry(0x0a00_0001)
    ensures RecordBytes(Key([1, 97], 1), e) == [0xc0, 0x0c, 0, 1, 0, 1, 0, 0, 0x0e, 0x10, 0, 4, 10, 0, 0, 1]
  {
    assert Bytes32(0x0a00_0001) == [10, 0, 0, 1] && Bytes32(3600) == [0, 0, 0x0e, 0x10];
    assert AddressBytes(Key([1, 97], 1), e) == [0, 4, 10, 0, 0, 1];
  }

  /** The answer for the host "a" with the address 10.0.0.1, byte by byte. */
  lemma {:induction false} HostAnswerInBytes(e: Entry)
    requires e == StaticEntry(0x0a00_0001)
    ensures PacketBytes(Key([1, 97], 1), e, 7) ==
            [0, 7, 0x81, 0x80, 0, 1, 0, 1, 0, 0, 0, 0] + [1, 97, 0, 0, 1, 0, 1]
            + [0xc0, 0x0c, 0, 1, 0, 1, 0, 0, 0x0e, 0x10, 0, 4, 10, 0, 0, 1]
  {
    HostRecordInBytes(e);
    assert HeaderBytes(e, 7) == [0, 7, 0x81, 0x80, 0, 1, 0, 1, 0, 0, 0, 0];
    assert QuestionBytes(Key([1, 97], 1)) == [1, 97, 0, 0, 1, 0, 1];
  }
}
