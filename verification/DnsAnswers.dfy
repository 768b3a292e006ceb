/** What a client that is answered from the cache of the DNS proxy is told. */
module DnsAnswers {
  import opened NetBytes
  import opened DnsNames
  import opened DnsCacheModel
  import opened DnsPacket
  import opened DnsProxyModel
  import opened DnsProxyRun
  import Queue = DnsModel
  import CacheRun = DnsCacheRun

  datatype Address = V4(ip: int) | V6(ip6: Ip6)

  predicate IsAddressType(kind: int) {
    kind == TYPE_A || kind == TYPE_AAAA
  }

  /** The address a server's answer gives. */
  function AddressOf(a: Answer): Address {
    if a.kind == TYPE_A then V4(a.ip) else V6(a.ipv6)
  }

  /** The address a reader of a packet takes from it. */
  function AddressIn(f: Fields): Address {
    if f.kind == TYPE_A then V4(f.ip) else V6(f.ipv6)
  }

  /**
   The packet built from an entry learned from a server's address is accepted, and gives that
   address if and only if the type of the answer was the type asked for. An answer of the other
   family turns into the address zero.
   */
  lemma {:induction false} LearnedAddressIsToldIff(m: Memory, k: Key, e: Entry, a: Answer, tid: int, len: nat,
                                                   was: Fields)
    requires IsAddressType(k.kind) && IsAddressType(a.kind) && Cacheable(a) && e == EntryFor(a).(ttl := e.ttl)
    requires PacketName(k.name) && e.ttl <= MAX_TTL && 0 <= tid < 0x1_0000
    requires Holds(m, 0, PacketBytes(k, e, tid)) && len == |PacketBytes(k, e, tid)|
    ensures Read16(m, 0) == tid && !Verify(m, len, was).0 && Verify(m, len, was).1.queryName == k.name
    ensures AddressIn(Verify(m, len, was).1) == AddressOf(a) <==> a.kind == k.kind
    ensures a.kind != k.kind ==> AddressIn(Verify(m, len, was).1) == if k.kind == TYPE_A then V4(0) else V6(NO_IP6)
  {
    BuiltPacketVerifies(m, k, e, tid, len, was);
  }

  /** The names in responses are ones the parser accepts. */
  ghost predicate NamesParsed(run: seq<Event>) {
    forall i :: 0 <= i < |run| && run[i].Response? ==> PacketName(run[i].labels)
  }

  /**
   Over every run: a query for an address that is answered from a learned address gets the
   address an earlier response gave to the same question, under the client's own id, if and
   only if that response was of the type asked for.
   */
  lemma {:induction false} CachedAnswerIsRightIff(s: Proxy, run: seq<Event>, e: Event, before: Proxy,
                                                  m: Memory, len: nat, was: Fields)
    returns (i: nat, j: nat)
    requires s.queue.active == [] && s.cache == map[] && FreshTids(s, run) && NamesParsed(run)
    requires before == ProxyAfter(s, run) && e.Query? && IsAddressType(e.queryType)
    requires Step(before, |run|, e).1 == Queue.FromCache
    requires LookupKey(before, e) in before.cache
    requires var entry := before.cache[LookupKey(before, e)];
             && !entry.isStatic && entry.cname.None?
             && Holds(m, 0, PacketBytes(LookupKey(before, e), entry, e.tid))
             && len == |PacketBytes(LookupKey(before, e), entry, e.tid)|
    ensures AnswersQuery(s, run, i, j) && run[i].queryType == e.queryType && run[i].labels == LookupKey(before, e).name
    ensures Read16(m, 0) == e.tid && !Verify(m, len, was).0
    ensures AddressIn(Verify(m, len, was).1) == AddressOf(run[i].answer) <==> run[i].answer.kind == e.queryType
  {
    var k := LookupKey(before, e);
    var entry := before.cache[k];
    i, j := CachedAnswersAreBacked(s, run, e, before, k);
    LearnedAddressIsToldIff(m, k, entry, run[i].answer, e.tid, len, was);
  }

  // A host that is never found.

  /** No accepted text is the packet form of a host name of 62 characters: one of its labels is too short. */
  lemma {:induction false} TextIsNoLongName(text: Name, name: Name)
    requires DomainText(text) && NoEmptyLabel(name) && |name| == MAX_DOMAIN_NAME - 1
    ensures text != LabelForm(name)
  {
    var n := FirstDot(name, 0);
    var s := LabelForm(name);
    LabelLengthIs(name, 0, n);
    if HostChar(s[0]) {
      TailHasNoEmptyLabel(name, n);
      LabelLengthAtMost(name, n + 1);
      assert s[n + 1] < 45;
    }
  }

  /**
   A query for a host name of 62 characters is taken for one for the root name, and so, with any
   domain the command line accepts, never answered from the entry the host has in the cache.
   */
  lemma {:induction false} LongHostIsNeverFound(m: Memory, len: nat, was: Fields, name: Name, p: Proxy, e: Event)
    requires DomainText(name) && NoEmptyLabel(name) && |name| == MAX_DOMAIN_NAME - 1
    requires len >= HEADER && Read16(m, 4) == 1 && HoldsName(m, HEADER, len, LabelForm(name))
    requires DomainText(p.domain)
    requires e.Query? && e.labels == CString(Verify(m, len, was).1.queryName) && (e.labels == [] ==> e.name == [])
    ensures !Verify(m, len, was).0 && e.labels == []
    ensures LookupKey(p, e).name == p.domain && StaticKey(name) == Key(LabelForm(name), TYPE_A)
    ensures LookupKey(p, e) != StaticKey(name)
  {
    LongHostIsUnnamed(m, len, was, name);
    CacheRun.KeyOfWhole(name);
    TextIsNoLongName(p.domain, name);
    assert [] + p.domain == p.domain;
  }

  // A client that is told the address zero.

  const LABELS: Name := [1, 97, 1, 98]
  const TEXT: Name := [97, DOT, 98]

  const NEW_CLIENT: Event := Query(3, 3, 9, TYPE_A, LABELS, TEXT, 6)

  /**
   A client asks for the IPv4 address of "a.b" and the server answers with an IPv6 address first.
   The next client with the same question is answered from the cache: 0.0.0.0.
   */
  lemma {:induction false} ZeroAddressIsTold(s: Proxy, run: seq<Event>, v6: Ip6)
    requires s == Proxy(Queue.State([], 1, 0, Queue.Config(1, 0, 0)), map[], [])
    requires run == [Query(2, 2, 8, TYPE_A, LABELS, TEXT, 5),
                     Response(1, 5, TYPE_A, LABELS, TEXT, true, Answer(0, 60, TYPE_AAAA, 0x8180, 0, v6, []))]
    ensures var p, k := ProxyAfter(s, run), Key(LABELS, TYPE_A);
            && OutputAt(s, run, 1).Reply? && Step(p, 2, NEW_CLIENT).1 == Queue.FromCache
            && k in p.cache
            && forall m: Memory, len: nat, was: Fields ::
                 Holds(m, 0, PacketBytes(k, p.cache[k], 9)) && len == |PacketBytes(k, p.cache[k], 9)| ==>
                   !Verify(m, len, was).0 && AddressIn(Verify(m, len, was).1) == V4(0)
  {
    var k, a := Key(LABELS, TYPE_A), run[1].answer;
    var p := TwoSteps(s, run);
    forall m: Memory, len: nat, was: Fields |
      Holds(m, 0, PacketBytes(k, p.cache[k], 9)) && len == |PacketBytes(k, p.cache[k], 9)|
      ensures !Verify(m, len, was).0 && AddressIn(Verify(m, len, was).1) == V4(0)
    {
      assert LABELS[2..] == [1, 98] && [1, 98][2..] == [];
      LearnedAddressIsToldIff(m, k, p.cache[k], a, 9, len, was);
    }
  }

  lemma {:induction false} TwoSteps(s: Proxy, run: seq<Event>) returns (p: Proxy)
    requires s == Proxy(Queue.State([], 1, 0, Queue.Config(1, 0, 0)), map[], [])
    requires |run| == 2 && run[0] == Query(2, 2, 8, TYPE_A, LABELS, TEXT, 5) && run[1].Response?
    requires run[1].ip == 1 && run[1].tid == 5 && run[1].queryType == TYPE_A && run[1].name == TEXT && run[1].sent
    requires run[1].labels == LABELS && Cacheable(run[1].answer)
    ensures p == ProxyAfter(s, run) && p.cache == map[Key(LABELS, TYPE_A) := EntryFor(run[1].answer)]
    ensures OutputAt(s, run, 1).Reply? && Step(p, 2, NEW_CLIENT).1 == Queue.FromCache
  {
    var first := run[..1];
    assert run[..|run| - 1] == first && first[..|first| - 1] == [] && ProxyAfter(s, []) == s;
    assert DOT in TEXT by {
      assert TEXT[1] == DOT;
    }
    var q := ProxyAfter(s, first);
    assert q == Step(s, 0, run[0]).0;
    assert q.queue.active == [Queue.Pending(0, Queue.Req(10, TYPE_A, TEXT, 2, 2, 8, 5, 1))];
    p := Step(q, 1, run[1]).0;
  }
}
