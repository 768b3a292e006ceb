/** Packets of the DNS proxy: building an answer from the cache, and taking a packet apart. */
module DnsPacket {
  import opened Common
  import opened DnsNames
  import opened DnsCacheModel
  import opened NetBytes

  const HEADER: nat := 12

  // Names.

  /** The bytes of the labels at `ptr`; fails on a compression pointer and past the packet. */
  function NameSpan(m: Memory, ptr: nat, len: nat): Option<nat>
    decreases if ptr <= len then len - ptr + 1 else 0
  {
    if m(ptr) == 0 then Some(0)
    else if m(ptr) >= 64 || ptr + m(ptr) + 1 > len then None
    else
      match NameSpan(m, ptr + m(ptr) + 1, len)
      case None => None
      case Some(n) => Some(m(ptr) + 1 + n)
  }

  /** The length of the name at `ptr` with its final zero, or 0 if it is not acceptable. */
  function NameLen(m: Memory, ptr: nat, len: nat): nat {
    match NameSpan(m, ptr, len)
    case None => 0
    case Some(n) => if n + 1 > MAX_DOMAIN_NAME then 0 else n + 1
  }

  method GetNameLen(m: Memory, start: nat, len: nat) returns (rv: nat)
    ensures rv == NameLen(m, start, len)
  {
    rv := 0;
    var ptr := start;
    while m(ptr) != 0
      invariant NameSpan(m, start, len) ==
        match NameSpan(m, ptr, len) { case None => None case Some(n) => Some(rv + n) }
      decreases if ptr <= len then len - ptr + 1 else 0
    {
      if m(ptr) >= 64 {
        return 0;
      }
      var step := m(ptr) + 1;
      rv, ptr := rv + step, ptr + step;
      if ptr > len {
        return 0;
      }
    }
    rv := rv + 1;
    if rv > MAX_DOMAIN_NAME {
      return 0;
    }
  }

  /** No label is so long that its length is taken for a compression pointer. */
  predicate ShortLabels(s: Name)
    requires WellFormed(s)
  {
    s != [] ==> s[0] < 64 && ShortLabels(s[1 + s[0]..])
  }

  lemma {:induction false} LabelsAreShort(s: Name)
    requires WellFormed(s) && |s| <= 64
    ensures ShortLabels(s)
    decreases |s|
  {
    if s != [] {
      LabelsAreShort(s[1 + s[0]..]);
    }
  }

  /** The memory holds the name at `p`, closed by a zero, within a packet of `len` bytes. */
  ghost predicate HoldsName(m: Memory, p: nat, len: nat, s: Name) {
    Holds(m, p, s) && m(p + |s|) == 0 && p + |s| <= len
  }

  lemma {:induction false} SpanOfName(m: Memory, p: nat, len: nat, s: Name)
    requires WellFormed(s) && ShortLabels(s) && HoldsName(m, p, len, s)
    ensures NameSpan(m, p, len) == Some(|s|)
    decreases |s|
  {
    if s != [] {
      var n := s[0];
      var first, rest := s[..1 + n], s[1 + n..];
      assert m(p + 0) == n && s == first + rest;
      HoldsBoth(m, p, first, rest);
      assert WellFormed(rest);
      var q := p + 1 + n;
      assert Holds(m, q, rest);
      assert q + |rest| == p + |s|;
      SpanOfName(m, q, len, rest);
    }
  }

  // Taking a packet apart.

  /** A 32-bit word as a signed integer. */
  function Signed(v: Word32): int {
    if v >= 0x8000_0000 then v - WORD32 else v
  }

  /** What is known of a packet; the query type is kept in eight bits. */
  datatype Fields = Fields(
    len: int, isResponse: bool, errorCode: Byte, flags: Word16, queryName: Name, queryType: Byte,
    kind: Word16, class_: Word16, ttl: int, ip: Word32, ipv6: Ip6)

  /** What is reset before a packet is read; flags, query type and IPv6 address stay as they were. */
  function Reset(was: Fields, len: int): Fields {
    was.(len := len, isResponse := false, errorCode := 0, queryName := [], kind := 0, class_ := 0, ttl := 0, ip := 0)
  }

  /**
   The smallest time to live, in 16 bits, along a chain of aliases; `n` records are left,
   the next one at `ptr`. The first component says that the packet is bad.
   */
  function AliasTtl(m: Memory, len: int, n: nat, ptr: nat, ttl: int): (bool, int) {
    if n == 0 || m(ptr) < 0xc0 || Read16(m, ptr + 4) != 1 then (false, ttl)
    else
      var t := Read32(m, ptr + 6) % 0x1_0000;
      var least := if t < ttl then t else ttl;
      var kind, data, size := Read16(m, ptr + 2), ptr + 10, Read16(m, ptr + 10);
      if data > len then (true, least)
      else if kind == TYPE_A then
        if size != 4 || data + 6 > len then (true, least) else AliasTtl(m, len, n - 1, data + 6, least)
      else if kind == TYPE_AAAA then
        if size != 16 || data + 18 > len then (true, least) else AliasTtl(m, len, n - 1, data + 18, least)
      else if kind == TYPE_CNAME then
        if data + 2 + size > len then (true, least) else AliasTtl(m, len, n - 1, data + 2 + size, least)
      else AliasTtl(m, len, n - 1, data, least)
  }

  /** The address record at `p`, past its type and class. */
  function AddressFields(m: Memory, len: int, p: nat, f: Fields): (bool, Fields) {
    var g := f.(ttl := Signed(Read32(m, p)));
    var size := if f.kind == TYPE_A then 4 else 16;
    if Read16(m, p + 4) != size then (p + 6 > len, g)
    else if f.kind == TYPE_A then (p + 10 > len, g.(ip := Read32(m, p + 6)))
    else (p + 22 > len, g.(ipv6 := Slice(m, p + 6, 16)))
  }

  /** The first answer, at `p`, must point at the name of the query. */
  function AnswerFields(m: Memory, len: int, answers: nat, p: nat, f: Fields): (bool, Fields) {
    if m(p) != 0xc0 || m(p + 1) != 0x0c then (p > len, f)
    else
      var g := f.(kind := Read16(m, p + 2), class_ := Read16(m, p + 4));
      if g.class_ == 1 && g.kind == TYPE_CNAME then
        var (bad, ttl) := AliasTtl(m, len, answers, p, MAX_TTL);
        (bad || p + 6 > len, g.(ttl := ttl))
      else if g.class_ == 1 && (g.kind == TYPE_A || g.kind == TYPE_AAAA) then AddressFields(m, len, p + 6, g)
      else (p + 6 > len, g)
  }

  /**
   Whether a packet is bad, and the fields found in it; `was` is what the record held before. A
   question that is not read does not make the packet bad: it only leaves the name empty.
   */
  function Verify(m: Memory, len: int, was: Fields): (bool, Fields) {
    var f := Reset(was, len);
    if len < HEADER then (true, f)
    else
      var flags := Read16(m, 2);
      var g := f.(isResponse := flags >= 0x8000, errorCode := flags % 16, flags := flags);
      var n := NameLen(m, HEADER, len);
      if Read16(m, 4) != 1 || n == 0 then (false, g)
      else
        var h := g.(queryName := Slice(m, HEADER, n - 1), queryType := Read16(m, HEADER + n) % 256);
        var p := HEADER + n + 4;
        if Read16(m, 6) == 0 then (p > len, h) else AnswerFields(m, len, Read16(m, 6), p, h)
  }

  /**
   The names taken from packets, as strings, start with a label length below 64; they are empty
   only where no name was taken, or that of the root.
   */
  lemma {:induction false} VerifiedNameStartsShort(m: Memory, len: int, was: Fields)
    ensures var name := Verify(m, len, was).1.queryName;
            && (CString(name) == [] <==> name == [])
            && (name != [] ==> CString(name)[0] == name[0] && 0 < name[0] < 64)
  {
    if len >= HEADER && NameLen(m, HEADER, len) > 1 {
      assert 0 < m(HEADER) < 64;
      assert Slice(m, HEADER, NameLen(m, HEADER, len) - 1)[0] == m(HEADER + 0);
    }
  }

  // Building an answer.

  function AddressBytes(k: Key, e: Entry): seq<Byte> {
    if k.kind == TYPE_A then Bytes16(4) + Bytes32(e.ip)
    else if k.kind == TYPE_AAAA then Bytes16(16) + e.ipv6
    else []
  }

  function HeaderBytes(e: Entry, tid: Word16): (r: seq<Byte>)
    ensures |r| == HEADER
  {
    Bytes16(tid) + Bytes16(e.flags) + Bytes16(1) + Bytes16(1) + Bytes16(0) + Bytes16(0)
  }

  function QuestionBytes(k: Key): (r: seq<Byte>)
    ensures |r| == |k.name| + 5
  {
    k.name + [0] + Bytes16(k.kind) + Bytes16(1)
  }

  function RecordBytes(k: Key, e: Entry): seq<Byte> {
    Bytes16(0xc00c) + Bytes16(k.kind) + Bytes16(1) + Bytes32(e.ttl) + AddressBytes(k, e)
  }

  /** The answer to a query for a cached name. */
  function PacketBytes(k: Key, e: Entry, tid: Word16): seq<Byte> {
    HeaderBytes(e, tid) + QuestionBytes(k) + RecordBytes(k, e)
  }

  lemma {:induction false} HeaderHolds(m: Memory, e: Entry, tid: Word16)
    requires Holds(m, 0, HeaderBytes(e, tid))
    ensures Read16(m, 0) == tid && Read16(m, 2) == e.flags && Read16(m, 4) == 1 && Read16(m, 6) == 1
  {
    var a, b, c, z := Bytes16(tid), Bytes16(e.flags), Bytes16(1), Bytes16(0);
    HoldsBoth(m, 0, a + b + c + c + z, z);
    HoldsBoth(m, 0, a + b + c + c, z);
    HoldsBoth(m, 0, a + b + c, c);
    HoldsBoth(m, 0, a + b, c);
    HoldsBoth(m, 0, a, b);
    Reads16(m, 0, tid);
    Reads16(m, 2, e.flags);
    Reads16(m, 4, 1);
    Reads16(m, 6, 1);
  }

  lemma {:induction false} QuestionHolds(m: Memory, p: nat, k: Key)
    requires Holds(m, p, QuestionBytes(k))
    ensures Holds(m, p, k.name) && m(p + |k.name|) == 0 && Read16(m, p + |k.name| + 1) == k.kind
  {
    var n, z, t := k.name, [0], Bytes16(k.kind);
    HoldsBoth(m, p, n + z + t, Bytes16(1));
    HoldsBoth(m, p, n + z, t);
    HoldsBoth(m, p, n, z);
    assert m(p + |n| + 0) == z[0];
    Reads16(m, p + |n| + 1, k.kind);
  }

  lemma {:induction false} RecordHolds(m: Memory, p: nat, k: Key, e: Entry)
    requires Holds(m, p, RecordBytes(k, e))
    ensures m(p) == 0xc0 && m(p + 1) == 0x0c && Read16(m, p + 2) == k.kind && Read16(m, p + 4) == 1
    ensures Read32(m, p + 6) == e.ttl && Holds(m, p + 10, AddressBytes(k, e))
  {
    var a, b, c, t, d := Bytes16(0xc00c), Bytes16(k.kind), Bytes16(1), Bytes32(e.ttl), AddressBytes(k, e);
    HoldsBoth(m, p, a + b + c + t, d);
    HoldsBoth(m, p, a + b + c, t);
    HoldsBoth(m, p, a + b, c);
    HoldsBoth(m, p, a, b);
    assert m(p + 0) == a[0] && m(p + 1) == a[1];
    Reads16(m, p + 2, k.kind);
    Reads16(m, p + 4, 1);
    Reads32(m, p + 6, e.ttl);
  }

  lemma {:induction false} AddressHolds(m: Memory, p: nat, k: Key, e: Entry)
    requires k.kind == TYPE_A || k.kind == TYPE_AAAA
    requires Holds(m, p, AddressBytes(k, e))
    ensures k.kind == TYPE_A ==> Read16(m, p) == 4 && Read32(m, p + 2) == e.ip
    ensures k.kind == TYPE_AAAA ==> Read16(m, p) == 16 && Slice(m, p + 2, 16) == e.ipv6
  {
    if k.kind == TYPE_A {
      HoldsBoth(m, p, Bytes16(4), Bytes32(e.ip));
      Reads16(m, p, 4);
      Reads32(m, p + 2, e.ip);
    } else {
      HoldsBoth(m, p, Bytes16(16), e.ipv6);
      Reads16(m, p, 16);
    }
  }

  /** Names the parser accepts. */
  predicate PacketName(s: Name) {
    WellFormed(s) && |s| < MAX_DOMAIN_NAME
  }

  /** The parser keeps a host name in a query if and only if it has less than 62 characters. */
  lemma {:induction false} HostNamesParse(m: Memory, len: nat, was: Fields, name: Name)
    requires NoEmptyLabel(name) && |name| < MAX_DOMAIN_NAME
    requires len >= HEADER && Read16(m, 4) == 1 && HoldsName(m, HEADER, len, LabelForm(name))
    ensures NameLen(m, HEADER, len) != 0 <==> |name| < MAX_DOMAIN_NAME - 1
    ensures Verify(m, len, was).1.queryName == if |name| < MAX_DOMAIN_NAME - 1 then LabelForm(name) else []
  {
    var s := LabelForm(name);
    LabelFormDecodes(name);
    LabelsAreShort(s);
    SpanOfName(m, HEADER, len, s);
    assert Slice(m, HEADER, |s|) == s;
    NameIsKept(m, len, was);
  }

  /** The query name of a packet is that at the end of the header, if it is acceptable. */
  lemma {:induction false} NameIsKept(m: Memory, len: nat, was: Fields)
    requires len >= HEADER && Read16(m, 4) == 1
    ensures var n := NameLen(m, HEADER, len);
            Verify(m, len, was).1.queryName == if n == 0 then [] else Slice(m, HEADER, n - 1)
  {
  }

  /**
   A packet whose question is not read, because there is not one question or its name is not
   acceptable, is accepted nevertheless, with the root name and whatever query type was there before.
   */
  lemma {:induction false} UnreadQuestionPasses(m: Memory, len: nat, was: Fields)
    requires len >= HEADER && (Read16(m, 4) != 1 || NameLen(m, HEADER, len) == 0)
    ensures var (bad, f) := Verify(m, len, was); !bad && f.queryName == [] && f.queryType == was.queryType
  {
  }

  /** A query for a host name of 62 characters passes, but as one for the root name. */
  lemma {:induction false} LongHostIsUnnamed(m: Memory, len: nat, was: Fields, name: Name)
    requires NoEmptyLabel(name) && |name| == MAX_DOMAIN_NAME - 1
    requires len >= HEADER && Read16(m, 4) == 1 && HoldsName(m, HEADER, len, LabelForm(name))
    ensures var (bad, f) := Verify(m, len, was); !bad && f.queryName == [] && f.queryType == was.queryType
  {
    HostNamesParse(m, len, was, name);
    UnreadQuestionPasses(m, len, was);
  }

  /** The fields of the header and the question. */
  function Asked(was: Fields, len: int, flags: Word16, name: Name, kind: Byte): Fields {
    Reset(was, len).(isResponse := flags >= 0x8000, errorCode := flags % 16, flags := flags,
                     queryName := name, queryType := kind)
  }

  /** What a packet built from the cache says. */
  function Said(was: Fields, k: Key, e: Entry, len: int): Fields {
    Asked(was, len, e.flags, k.name, k.kind).(
      kind := k.kind, class_ := 1, ttl := e.ttl,
      ip := if k.kind == TYPE_A then e.ip else 0, ipv6 := if k.kind == TYPE_AAAA then e.ipv6 else was.ipv6)
  }

  lemma {:induction false} AnswerSays(m: Memory, was: Fields, k: Key, e: Entry, p: nat, len: int)
    requires k.kind == TYPE_A || k.kind == TYPE_AAAA
    requires Holds(m, p, RecordBytes(k, e)) && len == p + |RecordBytes(k, e)| && e.ttl < 0x8000_0000
    ensures AnswerFields(m, len, 1, p, Asked(was, len, e.flags, k.name, k.kind)) == (false, Said(was, k, e, len))
  {
    RecordHolds(m, p, k, e);
    AddressHolds(m, p + 10, k, e);
  }

  lemma {:induction false} QuestionSays(m: Memory, k: Key, len: nat)
    requires PacketName(k.name) && Holds(m, HEADER, QuestionBytes(k)) && HEADER + |k.name| <= len
    ensures NameLen(m, HEADER, len) == |k.name| + 1 && Slice(m, HEADER, |k.name|) == k.name
    ensures Read16(m, HEADER + |k.name| + 1) == k.kind
  {
    QuestionHolds(m, HEADER, k);
    LabelsAreShort(k.name);
    SpanOfName(m, HEADER, len, k.name);
  }

  lemma {:induction false} VerifyGetsToAnswer(m: Memory, len: nat, was: Fields, name: Name, kind: Byte, flags: Word16)
    requires len >= HEADER && Read16(m, 2) == flags && Read16(m, 4) == 1 && Read16(m, 6) == 1
    requires NameLen(m, HEADER, len) == |name| + 1 && Slice(m, HEADER, |name|) == name
    requires Read16(m, HEADER + |name| + 1) == kind
    ensures Verify(m, len, was) ==
            AnswerFields(m, len, 1, HEADER + |name| + 5, Asked(was, len, flags, name, kind))
  {
  }

  /** A packet built for an address in the cache is accepted, and all that went into it comes out. */
  lemma {:induction false} BuiltPacketVerifies(m: Memory, k: Key, e: Entry, tid: Word16, len: nat, was: Fields)
    requires k.kind == TYPE_A || k.kind == TYPE_AAAA
    requires PacketName(k.name) && e.ttl < 0x8000_0000
    requires Holds(m, 0, PacketBytes(k, e, tid)) && len == |PacketBytes(k, e, tid)|
    ensures Read16(m, 0) == tid && Verify(m, len, was) == (false, Said(was, k, e, len))
  {
    PacketHolds(m, k, e, tid);
    HeaderHolds(m, e, tid);
    QuestionSays(m, k, len);
    VerifyGetsToAnswer(m, len, was, k.name, k.kind, e.flags);
    AnswerSays(m, was, k, e, HEADER + |k.name| + 5, len);
  }

  lemma {:induction false} PacketHolds(m: Memory, k: Key, e: Entry, tid: Word16)
    requires Holds(m, 0, PacketBytes(k, e, tid))
    ensures Holds(m, 0, HeaderBytes(e, tid)) && Holds(m, HEADER, QuestionBytes(k))
    ensures Holds(m, HEADER + |k.name| + 5, RecordBytes(k, e))
    ensures |PacketBytes(k, e, tid)| == HEADER + |k.name| + 5 + |RecordBytes(k, e)|
  {
    HoldsBoth(m, 0, HeaderBytes(e, tid) + QuestionBytes(k), RecordBytes(k, e));
    HoldsBoth(m, 0, HeaderBytes(e, tid), QuestionBytes(k));
  }

  method PutHeader(pkt: array<Byte>, e: Entry, tid: Word16) returns (q: nat)
    requires pkt.Length >= HEADER
    modifies pkt
    ensures q == HEADER && pkt[..q] == HeaderBytes(e, tid)
  {
    q := Put(pkt, 0, Bytes16(tid));
    q := Put(pkt, q, Bytes16(e.flags));
    q := Put(pkt, q, Bytes16(1));
    q := Put(pkt, q, Bytes16(1));
    q := Put(pkt, q, Bytes16(0));
    q := Put(pkt, q, Bytes16(0));
  }

  method PutQuestion(pkt: array<Byte>, p: nat, k: Key) returns (q: nat)
    requires p + |k.name| + 5 <= pkt.Length
    modifies pkt
    ensures q == p + |k.name| + 5 && pkt[..q] == old(pkt[..p]) + QuestionBytes(k)
  {
    ghost var before := pkt[..p];
    q := Put(pkt, p, k.name + [0]);
    q := Put(pkt, q, Bytes16(k.kind));
    q := Put(pkt, q, Bytes16(1));
    assert pkt[..q] == before + QuestionBytes(k);
  }

  method PutAddress(pkt: array<Byte>, p: nat, k: Key, e: Entry) returns (q: nat)
    requires p + 18 <= pkt.Length
    modifies pkt
    ensures q == p + |AddressBytes(k, e)| && pkt[..q] == old(pkt[..p]) + AddressBytes(k, e)
  {
    ghost var before := pkt[..p];
    q := p;
    if k.kind == TYPE_A {
      q := Put(pkt, q, Bytes16(4));
      q := Put(pkt, q, Bytes32(e.ip));
    } else if k.kind == TYPE_AAAA {
      q := Put(pkt, q, Bytes16(16));
      q := Put(pkt, q, e.ipv6);
    }
    assert pkt[..q] == before + AddressBytes(k, e);
  }

  method PutRecord(pkt: array<Byte>, p: nat, k: Key, e: Entry) returns (q: nat)
    requires p + 12 + 16 <= pkt.Length
    modifies pkt
    ensures q == p + |RecordBytes(k, e)| && pkt[..q] == old(pkt[..p]) + RecordBytes(k, e)
  {
    ghost var before := pkt[..p];
    q := Put(pkt, p, Bytes16(0xc00c));
    q := Put(pkt, q, Bytes16(k.kind));
    q := Put(pkt, q, Bytes16(1));
    q := Put(pkt, q, Bytes32(e.ttl));
    ghost var fixed := Bytes16(0xc00c) + Bytes16(k.kind) + Bytes16(1) + Bytes32(e.ttl);
    assert pkt[..q] == before + fixed;
    q := PutAddress(pkt, q, k, e);
    assert before + fixed + AddressBytes(k, e) == before + RecordBytes(k, e);
  }

  /** The length reported for an answer that is not an alias. */
  function ReportedLength(k: Key): nat {
    HEADER + |k.name| + 5 + if k.kind == TYPE_A then 16 else if k.kind == TYPE_AAAA then 28 else 0
  }

  /**
   A query for an alias that was answered by an address is cached; the packet built for the
   next such query is reported without the ten bytes of its record.
   */
  lemma {:induction false} AliasAnsweredByAddress(k: Key, a: Answer, tid: Word16)
    requires k.kind == TYPE_CNAME && a == Answer(0, 60, TYPE_A, 0x8180, 7, NO_IP6, [])
    ensures Learn(map[], k, a) == map[k := EntryFor(a)] && EntryFor(a).cname.None?
    ensures ReportedLength(k) + 10 == |PacketBytes(k, EntryFor(a), tid)|
  {
  }

  /**
   Writes the answer for a cached address, or the stored response of an alias under a new
   id, into `pkt` and reports its length. The length reported is that written exactly for
   aliases and for the two address types.
   */
  method Build(pkt: array<Byte>, k: Key, e: Entry, tid: Word16) returns (rv: nat, written: nat)
    requires pkt.Length == 1500 && |k.name| <= MAX_DOMAIN_NAME
    requires e.cname.Some? ==> 2 <= |e.cname.value| <= pkt.Length
    modifies pkt
    ensures written <= pkt.Length
    ensures e.cname.Some? ==> pkt[..written] == Bytes16(tid) + e.cname.value[2..]
    ensures e.cname.None? ==> pkt[..written] == PacketBytes(k, e, tid) && rv == ReportedLength(k)
    ensures rv == written <==> e.cname.Some? || k.kind == TYPE_A || k.kind == TYPE_AAAA
  {
    if e.cname.Some? {
      var p := Put(pkt, 0, Bytes16(tid));
      p := Put(pkt, p, e.cname.value[2..]);
      return p, p;
    }
    written := PutHeader(pkt, e, tid);
    written := PutQuestion(pkt, written, k);
    rv := HEADER + |k.name| + 1 + 4;
    written := PutRecord(pkt, written, k, e);
    if k.kind == TYPE_A {
      rv := rv + 16;
    } else if k.kind == TYPE_AAAA {
      rv := rv + 16 + 12;
    }
  }
}
