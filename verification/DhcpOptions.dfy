/** The options of a DHCP message: writing those of an offer or an acknowledgement, and reading options. */
module DhcpOptions {
  import opened Common
  import opened NetBytes

  const SUBNET_MASK: Byte := 1
  const ROUTER: Byte := 3
  const DNS: Byte := 6
  const DOMAIN_NAME: Byte := 15
  const NTP: Byte := 42
  const REQUESTED_IP: Byte := 50
  const LEASE_TIME: Byte := 51
  const MESSAGE_TYPE: Byte := 53
  const SERVER_ID: Byte := 54
  const RELAY_INFO: Byte := 82
  const END: Byte := 255

  /** Room for options, and where they start in a message. */
  const OPTIONS_SIZE: nat := 1132
  const OPTIONS_AT: nat := 240
  const MAX_PACKET: nat := 1372

  datatype Opt = Opt(code: Byte, data: seq<Byte>)

  function EncodeOpt(o: Opt): (r: seq<Byte>)
    ensures |r| == 2 + |o.data|
  {
    [o.code, |o.data| % 256] + o.data
  }

  function Encode(opts: seq<Opt>): seq<Byte> {
    if opts == [] then [] else EncodeOpt(opts[0]) + Encode(opts[1..])
  }

  lemma {:induction false} EncodeBoth(a: seq<Opt>, b: seq<Opt>)
    ensures Encode(a + b) == Encode(a) + Encode(b)
  {
    if a == [] {
      assert a + b == b;
    } else {
      assert (a + b)[1..] == a[1..] + b;
      EncodeBoth(a[1..], b);
    }
  }

  // Reading options.

  /** What reading leaves in the packet record; positions count from the first option. */
  datatype Found = Found(
    msgType: Option<nat>, opt82: Option<nat>, serverId: Word32, leaseTime: Word32, mask: Word32, requestedIp: Word32,
    end: nat)

  function NothingFound(requestedIp: Word32): Found {
    Found(None, None, 0, 0, 0, requestedIp, 0)
  }

  /** The record after the option at `p`. */
  function Noted(m: Memory, p: nat, f: Found): Found {
    if m(p) == MESSAGE_TYPE then f.(msgType := Some(p + 2))
    else if m(p) == RELAY_INFO then f.(opt82 := Some(p))
    else if m(p) == SERVER_ID then f.(serverId := Read32(m, p + 2))
    else if m(p) == LEASE_TIME then f.(leaseTime := Read32(m, p + 2))
    else if m(p) == SUBNET_MASK then f.(mask := Read32(m, p + 2))
    else if m(p) == REQUESTED_IP then f.(requestedIp := Read32(m, p + 2))
    else f
  }

  /** How reading ends; `RunsOn` says that it has not ended below the limit given. */
  datatype Outcome = Accepted(found: Found) | Rejected | RunsOn

  /** Reads the options from `p` on, as far as `limit`; they end with the end mark, and are rejected at a zero code. */
  function Walk(m: Memory, p: nat, limit: nat, f: Found): Outcome
    decreases limit - p
  {
    if p >= limit then RunsOn
    else if m(p) == 0 then Rejected
    else if m(p) == END then Accepted(f.(end := p))
    else Walk(m, p + 2 + m(p + 1), limit, Noted(m, p, f))
  }

  /** Where reading ends it ends alike however far one looks: beyond the options array as well. */
  lemma {:induction false} EndsAlike(m: Memory, p: nat, limit: nat, further: nat, f: Found)
    requires limit <= further && Walk(m, p, limit, f) != RunsOn
    ensures Walk(m, p, further, f) == Walk(m, p, limit, f)
    decreases limit - p
  {
    if m(p) != 0 && m(p) != END {
      EndsAlike(m, p + 2 + m(p + 1), limit, further, Noted(m, p, f));
    }
  }

  /** Reads the options from the start of the packet's memory, which need not end with the options array. */
  method CheckOptions(m: Memory, limit: nat, requestedIp: Word32) returns (r: Outcome, pktLen: nat)
    ensures r == Walk(m, 0, limit, NothingFound(requestedIp))
    ensures r.Accepted? ==> pktLen == OPTIONS_AT + r.found.end + 1
  {
    var ptr, f := 0, NothingFound(requestedIp);
    pktLen := 0;
    while ptr < limit && m(ptr) != END && m(ptr) != 0
      invariant Walk(m, 0, limit, NothingFound(requestedIp)) == Walk(m, ptr, limit, f)
    {
      f := Noted(m, ptr, f);
      ptr := ptr + 2 + m(ptr + 1);
    }
    if ptr >= limit {
      return RunsOn, 0;
    }
    if m(ptr) != END {
      return Rejected, 0;
    }
    return Accepted(f.(end := ptr)), OPTIONS_AT + ptr + 1;
  }

  // What a list of options says.

  /** The codes mean options, and those whose data is read have enough of it. */
  predicate Proper(o: Opt) {
    && o.code != 0 && o.code != END && |o.data| < 256
    && (o.code == MESSAGE_TYPE ==> |o.data| >= 1)
    && (o.code == SERVER_ID || o.code == LEASE_TIME || o.code == SUBNET_MASK || o.code == REQUESTED_IP ==>
          |o.data| >= 4)
  }

  predicate AllProper(opts: seq<Opt>) {
    opts != [] ==> Proper(opts[0]) && AllProper(opts[1..])
  }

  function Word(data: seq<Byte>): Word32
    requires |data| >= 4
  {
    (data[0] as int * 256 + data[1]) * 0x1_0000 + (data[2] as int * 256 + data[3])
  }

  /** What one option at position `p` says. */
  function Said(o: Opt, p: nat, f: Found): Found
    requires Proper(o)
  {
    if o.code == MESSAGE_TYPE then f.(msgType := Some(p + 2))
    else if o.code == RELAY_INFO then f.(opt82 := Some(p))
    else if o.code == SERVER_ID then f.(serverId := Word(o.data))
    else if o.code == LEASE_TIME then f.(leaseTime := Word(o.data))
    else if o.code == SUBNET_MASK then f.(mask := Word(o.data))
    else if o.code == REQUESTED_IP then f.(requestedIp := Word(o.data))
    else f
  }

  /** What a list of options starting at position `p` says, a later option in place of an earlier one. */
  function AllSaid(opts: seq<Opt>, p: nat, f: Found): Found
    requires AllProper(opts)
  {
    if opts == [] then f else AllSaid(opts[1..], p + 2 + |opts[0].data|, Said(opts[0], p, f))
  }

  lemma {:induction false} NotedIsSaid(m: Memory, p: nat, o: Opt, f: Found)
    requires Proper(o) && Holds(m, p, EncodeOpt(o))
    ensures Noted(m, p, f) == Said(o, p, f) && m(p) == o.code && m(p + 1) == |o.data|
  {
    var s := EncodeOpt(o);
    assert m(p + 0) == s[0] && m(p + 1) == s[1];
    if |o.data| >= 4 {
      assert m(p + 2) == s[2] && m(p + 3) == s[3] && m(p + 4) == s[4] && m(p + 5) == s[5];
    }
  }

  /** Reading the encoding of a list of options, closed by the end mark, finds what the list says. */
  lemma {:induction false} WalkReadsAll(m: Memory, p: nat, limit: nat, opts: seq<Opt>, f: Found)
    requires AllProper(opts) && Holds(m, p, Encode(opts) + [END]) && p + |Encode(opts)| < limit
    ensures Walk(m, p, limit, f) == Accepted(AllSaid(opts, p, f).(end := p + |Encode(opts)|))
    decreases |opts|
  {
    if opts == [] {
      assert m(p + 0) == (Encode(opts) + [END])[0];
    } else {
      var o, rest := opts[0], opts[1..];
      assert Encode(opts) + [END] == EncodeOpt(o) + (Encode(rest) + [END]);
      HoldsBoth(m, p, EncodeOpt(o), Encode(rest) + [END]);
      NotedIsSaid(m, p, o, f);
      WalkReadsAll(m, p + 2 + |o.data|, limit, rest, Said(o, p, f));
    }
  }

  /** The encoding determines the options, those no reader here looks at included. */
  lemma {:induction false} OptionsAreRecovered(a: seq<Opt>, b: seq<Opt>)
    requires AllProper(a) && AllProper(b) && Encode(a) + [END] == Encode(b) + [END]
    ensures a == b
  {
    var s, t := Encode(a) + [END], Encode(b) + [END];
    if a == [] || b == [] {
      assert s[0] == t[0];
    } else {
      SplitFirst(a);
      SplitFirst(b);
      assert s[0] == t[0] && s[1] == t[1];
      var n := 2 + |a[0].data|;
      assert a[0].data == s[2..n] && b[0].data == t[2..n];
      assert Encode(a[1..]) + [END] == s[n..] && Encode(b[1..]) + [END] == t[n..];
      OptionsAreRecovered(a[1..], b[1..]);
    }
  }

  lemma {:induction false} SplitFirst(a: seq<Opt>)
    requires AllProper(a) && a != []
    ensures Encode(a) + [END] == [a[0].code, |a[0].data|] + a[0].data + (Encode(a[1..]) + [END])
  {
  }

  lemma {:induction false} ProperBoth(a: seq<Opt>, b: seq<Opt>)
    requires AllProper(a) && AllProper(b)
    ensures AllProper(a + b)
  {
    if a == [] {
      assert a + b == b;
    } else {
      assert (a + b)[1..] == a[1..] + b;
      ProperBoth(a[1..], b);
    }
  }

  lemma {:induction false} SaidBoth(a: seq<Opt>, b: seq<Opt>, p: nat, f: Found)
    requires AllProper(a) && AllProper(b) && AllProper(a + b)
    ensures AllSaid(a + b, p, f) == AllSaid(b, p + |Encode(a)|, AllSaid(a, p, f))
    decreases |a|
  {
    if a == [] {
      assert a + b == b;
    } else {
      assert (a + b)[1..] == a[1..] + b;
      SaidBoth(a[1..], b, p + 2 + |a[0].data|, Said(a[0], p, f));
    }
  }

  // Writing the options of a reply.

  /** A zero address stands for one that is not configured. */
  datatype Reply = Reply(
    msgType: Byte, serverIp: Word32, lease: Word32, mask: Word32, gw1: Word32, gw2: Word32, dns1: Word32, dns2: Word32,
    ntp1: Word32, ntp2: Word32, domain: seq<Byte>, relayInfo: Option<seq<Byte>>)

  /** The names and the relay information are as long as the records they come from allow. */
  predicate ReplyOk(r: Reply) {
    |r.domain| <= 63 && (r.relayInfo.Some? ==> |r.relayInfo.value| < 256)
  }

  function Addresses(code: Byte, a: Word32, b: Word32): seq<Opt> {
    if a == 0 then [] else [Opt(code, Bytes32(a) + if b != 0 then Bytes32(b) else [])]
  }

  function LeaseOptions(r: Reply): seq<Opt> {
    [Opt(MESSAGE_TYPE, [r.msgType]), Opt(SERVER_ID, Bytes32(r.serverIp)),
     Opt(LEASE_TIME, Bytes32(r.lease)), Opt(SUBNET_MASK, Bytes32(r.mask))]
  }

  function DomainOptions(domain: seq<Byte>): seq<Opt> {
    if domain == [] then [] else [Opt(DOMAIN_NAME, domain)]
  }

  function ServiceOptions(r: Reply): seq<Opt> {
    Addresses(ROUTER, r.gw1, r.gw2) + Addresses(DNS, r.dns1, r.dns2) + Addresses(NTP, r.ntp1, r.ntp2)
    + DomainOptions(r.domain)
  }

  function RelayOptions(r: Reply): seq<Opt> {
    if r.relayInfo.Some? then [Opt(RELAY_INFO, r.relayInfo.value)] else []
  }

  function ReplyOptions(r: Reply): seq<Opt> {
    LeaseOptions(r) + ServiceOptions(r) + RelayOptions(r)
  }

  /** Options of no interest to the reader. */
  predicate Silent(opts: seq<Opt>) {
    opts != [] ==>
      && (opts[0].code == ROUTER || opts[0].code == DNS || opts[0].code == NTP || opts[0].code == DOMAIN_NAME)
      && |opts[0].data| <= 63 && Silent(opts[1..])
  }

  lemma {:induction false} SilentSaysNothing(opts: seq<Opt>, p: nat, f: Found)
    requires Silent(opts)
    ensures AllProper(opts) && AllSaid(opts, p, f) == f
    decreases |opts|
  {
    if opts != [] {
      SilentSaysNothing(opts[1..], p + 2 + |opts[0].data|, f);
    }
  }

  lemma {:induction false} SilentBoth(a: seq<Opt>, b: seq<Opt>)
    requires Silent(a) && Silent(b)
    ensures Silent(a + b) && |Encode(a + b)| == |Encode(a)| + |Encode(b)|
  {
    EncodeBoth(a, b);
    if a == [] {
      assert a + b == b;
    } else {
      assert (a + b)[1..] == a[1..] + b;
      SilentBoth(a[1..], b);
    }
  }

  lemma {:induction false} OneIsSilent(o: Opt)
    requires o.code == ROUTER || o.code == DNS || o.code == NTP || o.code == DOMAIN_NAME
    requires |o.data| <= 63
    ensures Silent([o]) && |Encode([o])| == 2 + |o.data|
  {
    EncodeOne(o);
  }

  lemma {:induction false} AddressesAreSilent(code: Byte, a: Word32, b: Word32)
    requires code == ROUTER || code == DNS || code == NTP
    ensures Silent(Addresses(code, a, b)) && |Encode(Addresses(code, a, b))| <= 10
  {
    if a != 0 {
      OneIsSilent(Opt(code, Bytes32(a) + if b != 0 then Bytes32(b) else []));
    }
  }

  lemma {:induction false} ServicesAreSilent(r: Reply)
    requires ReplyOk(r)
    ensures Silent(ServiceOptions(r)) && |Encode(ServiceOptions(r))| <= 95
  {
    var a, b, c := Addresses(ROUTER, r.gw1, r.gw2), Addresses(DNS, r.dns1, r.dns2), Addresses(NTP, r.ntp1, r.ntp2);
    var d := DomainOptions(r.domain);
    AddressesAreSilent(ROUTER, r.gw1, r.gw2);
    AddressesAreSilent(DNS, r.dns1, r.dns2);
    AddressesAreSilent(NTP, r.ntp1, r.ntp2);
    if r.domain != [] {
      OneIsSilent(Opt(DOMAIN_NAME, r.domain));
    }
    ThreeSilent(a, b, c, d);
  }

  lemma {:induction false} ThreeSilent(a: seq<Opt>, b: seq<Opt>, c: seq<Opt>, d: seq<Opt>)
    requires Silent(a) && Silent(b) && Silent(c) && Silent(d)
    ensures Silent(a + b + c + d)
    ensures |Encode(a + b + c + d)| == |Encode(a)| + |Encode(b)| + |Encode(c)| + |Encode(d)|
  {
    SilentBoth(a, b);
    SilentBoth(a + b, c);
    SilentBoth(a + b + c, d);
  }

  lemma {:induction false} FirstSaid(o: Opt, rest: seq<Opt>, p: nat, f: Found)
    requires Proper(o) && AllProper(rest)
    ensures AllProper([o] + rest) && |Encode([o] + rest)| == 2 + |o.data| + |Encode(rest)|
    ensures AllSaid([o] + rest, p, f) == AllSaid(rest, p + 2 + |o.data|, Said(o, p, f))
  {
    assert ([o] + rest)[1..] == rest;
  }

  lemma {:induction false} LeaseSaid(r: Reply, f: Found)
    ensures AllProper(LeaseOptions(r)) && |Encode(LeaseOptions(r))| == 21
    ensures AllSaid(LeaseOptions(r), 0, f)
            == f.(msgType := Some(2), serverId := r.serverIp, leaseTime := r.lease, mask := r.mask)
  {
    var a, b, c, d := Opt(MESSAGE_TYPE, [r.msgType]), Opt(SERVER_ID, Bytes32(r.serverIp)),
                      Opt(LEASE_TIME, Bytes32(r.lease)), Opt(SUBNET_MASK, Bytes32(r.mask));
    WordOfBytes(r.serverIp);
    WordOfBytes(r.lease);
    WordOfBytes(r.mask);
    var f1 := Said(a, 0, f);
    var f2 := Said(b, 3, f1);
    var f3 := Said(c, 9, f2);
    FirstSaid(d, [], 15, f3);
    FirstSaid(c, [d] + [], 9, f2);
    FirstSaid(b, [c] + ([d] + []), 3, f1);
    FirstSaid(a, [b] + ([c] + ([d] + [])), 0, f);
    assert LeaseOptions(r) == [a] + ([b] + ([c] + ([d] + [])));
  }

  lemma {:induction false} WordOfBytes(v: Word32)
    ensures Word(Bytes32(v)) == v
  {
    WordParts(v);
  }

  /** What a reader finds in a reply: it ends where the relay information, if any, ends. */
  function FoundInReply(r: Reply, requestedIp: Word32): Found {
    var before := |Encode(LeaseOptions(r) + ServiceOptions(r))|;
    Found(Some(2), if r.relayInfo.Some? then Some(before) else None, r.serverIp, r.lease, r.mask, requestedIp,
          before + |Encode(RelayOptions(r))|)
  }

  lemma {:induction false} ReplySaid(r: Reply, f: Found)
    requires ReplyOk(r)
    ensures AllProper(LeaseOptions(r) + ServiceOptions(r)) && AllProper(RelayOptions(r))
    ensures AllSaid(LeaseOptions(r) + ServiceOptions(r), 0, f)
            == f.(msgType := Some(2), serverId := r.serverIp, leaseTime := r.lease, mask := r.mask)
    ensures |Encode(LeaseOptions(r) + ServiceOptions(r))| <= 116
  {
    var a, b := LeaseOptions(r), ServiceOptions(r);
    LeaseSaid(r, f);
    ServicesAreSilent(r);
    SilentSaysNothing(b, |Encode(a)|, AllSaid(a, 0, f));
    ProperBoth(a, b);
    EncodeBoth(a, b);
    SaidBoth(a, b, 0, f);
  }

  lemma {:induction false} RelaySaid(r: Reply, p: nat, f: Found)
    requires ReplyOk(r)
    ensures AllProper(RelayOptions(r)) && |Encode(RelayOptions(r))| <= 257
    ensures AllSaid(RelayOptions(r), p, f) == if r.relayInfo.Some? then f.(opt82 := Some(p)) else f
  {
    if r.relayInfo.Some? {
      EncodeOne(Opt(RELAY_INFO, r.relayInfo.value));
    }
  }

  /**
   Every offer and acknowledgement fits the options array, whatever is configured, and reading
   it recovers the message type, the server, the lease time, the mask and the relay information.
   */
  lemma {:induction false} ReplyIsUnderstood(m: Memory, r: Reply, requestedIp: Word32)
    requires ReplyOk(r) && Holds(m, 0, Encode(ReplyOptions(r)) + [END])
    ensures |Encode(ReplyOptions(r)) + [END]| <= 374 <= OPTIONS_SIZE
    ensures Walk(m, 0, OPTIONS_SIZE, NothingFound(requestedIp)) == Accepted(FoundInReply(r, requestedIp))
    ensures m(2) == r.msgType && FoundInReply(r, requestedIp).end == |Encode(ReplyOptions(r))|
  {
    var ab, c, f := LeaseOptions(r) + ServiceOptions(r), RelayOptions(r), NothingFound(requestedIp);
    ReplySaid(r, f);
    RelaySaid(r, |Encode(ab)|, AllSaid(ab, 0, f));
    ProperBoth(ab, c);
    EncodeBoth(ab, c);
    SaidBoth(ab, c, 0, f);
    WalkReadsAll(m, 0, OPTIONS_SIZE, ReplyOptions(r), f);
    TypeIsThird(m, r);
  }

  lemma {:induction false} TypeIsThird(m: Memory, r: Reply)
    requires Holds(m, 0, Encode(ReplyOptions(r)) + [END])
    ensures m(2) == r.msgType
  {
    var o := Opt(MESSAGE_TYPE, [r.msgType]);
    assert ReplyOptions(r)[0] == o;
    assert Encode(ReplyOptions(r)) + [END] == EncodeOpt(o) + (Encode(ReplyOptions(r)[1..]) + [END]);
    HoldsBoth(m, 0, EncodeOpt(o), Encode(ReplyOptions(r)[1..]) + [END]);
    assert m(0 + 2) == EncodeOpt(o)[2];
  }

  /** Writes one option behind those of `opts`. */
  method PutOption(a: array<Byte>, p: nat, ghost opts: seq<Opt>, code: Byte, data: seq<Byte>) returns (q: nat)
    requires p + 2 + |data| <= a.Length && a[..p] == Encode(opts)
    modifies a
    ensures q == p + 2 + |data| && a[..q] == Encode(opts + [Opt(code, data)])
  {
    q := Put(a, p, [code, |data| % 256]);
    q := Put(a, q, data);
    EncodeBoth(opts, [Opt(code, data)]);
    EncodeOne(Opt(code, data));
    assert Encode(opts) + [code, |data| % 256] + data == Encode(opts) + EncodeOpt(Opt(code, data));
  }

  lemma {:induction false} EncodeOne(o: Opt)
    ensures Encode([o]) == EncodeOpt(o)
  {
    assert [o][1..] == [] && EncodeOpt(o) + [] == EncodeOpt(o);
  }

  /** Writes one or two addresses under `code`, or nothing. */
  method PutAddresses(a: array<Byte>, p: nat, ghost opts: seq<Opt>, code: Byte, first: Word32, second: Word32)
    returns (q: nat)
    requires p + 10 <= a.Length && a[..p] == Encode(opts)
    modifies a
    ensures p <= q <= p + 10 && a[..q] == Encode(opts + Addresses(code, first, second))
  {
    if first == 0 {
      assert opts + [] == opts;
      return p;
    }
    if second == 0 {
      assert Bytes32(first) + [] == Bytes32(first);
      q := PutOption(a, p, opts, code, Bytes32(first));
    } else {
      q := PutOption(a, p, opts, code, Bytes32(first) + Bytes32(second));
    }
  }

  method PutLease(a: array<Byte>, r: Reply) returns (q: nat)
    requires a.Length == OPTIONS_SIZE
    modifies a
    ensures q == 21 && a[..q] == Encode(LeaseOptions(r))
  {
    q := PutOption(a, 0, [], MESSAGE_TYPE, [r.msgType]);
    ghost var opts := [Opt(MESSAGE_TYPE, [r.msgType])];
    assert [] + opts == opts;
    q := PutOption(a, q, opts, SERVER_ID, Bytes32(r.serverIp));
    opts := opts + [Opt(SERVER_ID, Bytes32(r.serverIp))];
    q := PutOption(a, q, opts, LEASE_TIME, Bytes32(r.lease));
    opts := opts + [Opt(LEASE_TIME, Bytes32(r.lease))];
    q := PutOption(a, q, opts, SUBNET_MASK, Bytes32(r.mask));
    assert opts + [Opt(SUBNET_MASK, Bytes32(r.mask))] == LeaseOptions(r);
  }

  /** The options of `ServiceOptions` behind the routers. */
  function NameOptions(r: Reply): seq<Opt> {
    Addresses(DNS, r.dns1, r.dns2) + Addresses(NTP, r.ntp1, r.ntp2) + DomainOptions(r.domain)
  }

  method PutServices(a: array<Byte>, p: nat, ghost opts: seq<Opt>, r: Reply) returns (q: nat)
    requires p + 95 <= a.Length && a[..p] == Encode(opts) && ReplyOk(r)
    modifies a
    ensures p <= q <= p + 95 && a[..q] == Encode(opts + ServiceOptions(r))
  {
    ghost var routers := opts + Addresses(ROUTER, r.gw1, r.gw2);
    q := PutAddresses(a, p, opts, ROUTER, r.gw1, r.gw2);
    q := PutNames(a, q, routers, r);
    assert opts + ServiceOptions(r) == routers + NameOptions(r);
  }

  method PutNames(a: array<Byte>, p: nat, ghost opts: seq<Opt>, r: Reply) returns (q: nat)
    requires p + 85 <= a.Length && a[..p] == Encode(opts) && ReplyOk(r)
    modifies a
    ensures p <= q <= p + 85
    ensures a[..q] == Encode(opts + NameOptions(r))
  {
    ghost var servers := opts + Addresses(DNS, r.dns1, r.dns2);
    ghost var clocks := servers + Addresses(NTP, r.ntp1, r.ntp2);
    q := PutAddresses(a, p, opts, DNS, r.dns1, r.dns2);
    q := PutAddresses(a, q, servers, NTP, r.ntp1, r.ntp2);
    q := PutDomain(a, q, clocks, r.domain);
    assert opts + NameOptions(r) == clocks + DomainOptions(r.domain);
  }

  method PutDomain(a: array<Byte>, p: nat, ghost opts: seq<Opt>, domain: seq<Byte>) returns (q: nat)
    requires p + 2 + |domain| <= a.Length && a[..p] == Encode(opts)
    modifies a
    ensures p <= q <= p + 2 + |domain| && a[..q] == Encode(opts + DomainOptions(domain))
  {
    q := p;
    if domain == [] {
      assert opts + [] == opts;
    } else {
      q := PutOption(a, p, opts, DOMAIN_NAME, domain);
    }
  }

  /** Writes the options of an offer or an acknowledgement and returns the length of the message. */
  method BuildReply(options: array<Byte>, r: Reply) returns (pktLen: nat)
    requires options.Length == OPTIONS_SIZE && ReplyOk(r)
    modifies options
    ensures OPTIONS_AT <= pktLen <= MAX_PACKET
    ensures options[..pktLen - OPTIONS_AT] == Encode(ReplyOptions(r)) + [END]
  {
    var optlen := PutLease(options, r);
    optlen := PutServices(options, optlen, LeaseOptions(r), r);
    ghost var opts := LeaseOptions(r) + ServiceOptions(r);
    if r.relayInfo.Some? {
      optlen := PutOption(options, optlen, opts, RELAY_INFO, r.relayInfo.value);
    }
    assert ReplyOptions(r) == opts + RelayOptions(r) && opts + [] == opts;
    optlen := Put(options, optlen, [END]);
    pktLen := OPTIONS_AT + optlen;
  }

  // Relay information.

  const DOT: Byte := 46

  function RelayInfo(host: seq<Byte>, iface: seq<Byte>): Opt {
    Opt(RELAY_INFO, [1, (|host| + 1 + |iface|) % 256] + host + [DOT] + iface)
  }

  /**
   Puts the relay information option in place of the end mark, unless the packet is too long.
   The length that is checked leaves out the four bytes before the host name, so the new
   packet stays within its limit only if there is room for them as well; `options` is the
   packet record from the options on, with whatever follows their array.
   */
  method AddRelayInfo(options: array<Byte>, end: nat, pktLen: nat, host: seq<Byte>, iface: seq<Byte>,
                      ghost opts: seq<Opt>)
    returns (end': nat, pktLen': nat)
    requires options.Length >= OPTIONS_SIZE + 4 && end < OPTIONS_SIZE && pktLen == OPTIONS_AT + end + 1
    requires options[..end] == Encode(opts) && options[end] == END && |host| <= 16 && |iface| <= 15
    modifies options
    ensures var n := |host| + 1 + |iface|;
            && (pktLen' <= MAX_PACKET <==> pktLen + n + 4 <= MAX_PACKET || pktLen + n >= MAX_PACKET)
            && end' < options.Length && pktLen' == OPTIONS_AT + end' + 1 && options[end'] == END
            && options[..end'] == Encode(if pktLen + n < MAX_PACKET then opts + [RelayInfo(host, iface)] else opts)
  {
    var n := |host| + 1 + |iface|;
    end', pktLen' := end, pktLen;
    if pktLen + n < MAX_PACKET {
      var data := [1, n % 256] + host + [DOT] + iface;
      end' := PutOption(options, end, opts, RELAY_INFO, data);
      options[end'] := END;
      pktLen' := pktLen + n + 4;
    }
  }

  predicate HasNo(opts: seq<Opt>, code: Byte) {
    opts != [] ==> opts[0].code != code && HasNo(opts[1..], code)
  }

  /** The options of a DISCOVER with long names in five further options. */
  function LongOptions(long: seq<Byte>, short: seq<Byte>): seq<Opt> {
    var o := Opt(DOMAIN_NAME, long);
    [Opt(MESSAGE_TYPE, [1]), o, o, o, o, Opt(DOMAIN_NAME, short)]
  }

  lemma {:induction false} LongOptionsAre(long: seq<Byte>, short: seq<Byte>, f: Found)
    requires |long| == 255 && |short| == 64
    ensures var opts := LongOptions(long, short);
            && AllProper(opts) && HasNo(opts, RELAY_INFO) && |Encode(opts)| == 1097
            && AllSaid(opts, 0, f) == f.(msgType := Some(2))
  {
    var t, o, last := Opt(MESSAGE_TYPE, [1]), Opt(DOMAIN_NAME, long), Opt(DOMAIN_NAME, short);
    var g := f.(msgType := Some(2));
    OneMore(last, [], 0, 1031, g);
    OneMore(o, [last], 66, 774, g);
    OneMore(o, [o, last], 323, 517, g);
    OneMore(o, [o, o, last], 580, 260, g);
    OneMore(o, [o, o, o, last], 837, 3, g);
    var rest := [o, o, o, o, last];
    assert LongOptions(long, short) == [t] + rest && ([t] + rest)[1..] == rest;
  }

  /** A domain name in front of options of `n` bytes says nothing more. */
  lemma {:induction false} OneMore(o: Opt, rest: seq<Opt>, n: nat, p: nat, f: Found)
    requires o.code == DOMAIN_NAME && |o.data| < 256 && AllProper(rest) && HasNo(rest, RELAY_INFO)
    requires |Encode(rest)| == n && AllSaid(rest, p + 2 + |o.data|, f) == f
    ensures AllProper([o] + rest) && HasNo([o] + rest, RELAY_INFO)
    ensures |Encode([o] + rest)| == n + 2 + |o.data| && AllSaid([o] + rest, p, f) == f
  {
    assert ([o] + rest)[1..] == rest;
  }

  /**
   A DISCOVER that is read without complaint and has no relay information: its options leave room
   for the longest names, but not for the header of the option they are put in.
   */
  lemma {:induction false} RoomCheckFallsShort(m: Memory, long: seq<Byte>, short: seq<Byte>,
                                               host: seq<Byte>, iface: seq<Byte>)
    requires |long| == 255 && |short| == 64 && |host| == 16 && |iface| == 15
    requires Holds(m, 0, Encode(LongOptions(long, short)) + [END])
    ensures var opts := LongOptions(long, short);
            var r := Walk(m, 0, OPTIONS_SIZE, NothingFound(0));
            && r.Accepted? && r.found.msgType == Some(2) && m(2) == 1 && r.found.opt82.None?
            && OPTIONS_AT + r.found.end + 1 + |host| + 1 + |iface| < MAX_PACKET
            && OPTIONS_AT + |Encode(opts + [RelayInfo(host, iface)])| + 1 > MAX_PACKET
  {
    var opts, f := LongOptions(long, short), NothingFound(0);
    LongOptionsAre(long, short, f);
    WalkReadsAll(m, 0, OPTIONS_SIZE, opts, f);
    EncodeBoth(opts, [RelayInfo(host, iface)]);
    EncodeOne(RelayInfo(host, iface));
    assert m(0 + 2) == (Encode(opts) + [END])[2];
  }

  lemma {:induction false} NoRelayInfoSaid(opts: seq<Opt>, p: nat, f: Found)
    requires AllProper(opts) && HasNo(opts, RELAY_INFO)
    ensures AllSaid(opts, p, f).opt82 == f.opt82
    decreases |opts|
  {
    if opts != [] {
      NoRelayInfoSaid(opts[1..], p + 2 + |opts[0].data|, Said(opts[0], p, f));
    }
  }

  /** A reader of the packet with relay information finds it, and all that was there before. */
  lemma {:induction false} RelayInfoKeepsOthers(m: Memory, m': Memory, opts: seq<Opt>, host: seq<Byte>,
                                                iface: seq<Byte>, requestedIp: Word32)
    requires AllProper(opts) && HasNo(opts, RELAY_INFO) && |host| <= 16 && |iface| <= 15
    requires |Encode(opts)| + |host| + |iface| + 5 < OPTIONS_SIZE
    requires Holds(m, 0, Encode(opts) + [END]) && Holds(m', 0, Encode(opts + [RelayInfo(host, iface)]) + [END])
    ensures var before, after := Walk(m, 0, OPTIONS_SIZE, NothingFound(requestedIp)),
                                  Walk(m', 0, OPTIONS_SIZE, NothingFound(requestedIp));
            && before.Accepted? && before.found.opt82.None?
            && after == Accepted(before.found.(
                 opt82 := Some(before.found.end), end := before.found.end + |host| + |iface| + 5))
  {
    var f, o := NothingFound(requestedIp), RelayInfo(host, iface);
    WalkReadsAll(m, 0, OPTIONS_SIZE, opts, f);
    NoRelayInfoSaid(opts, 0, f);
    EncodeBoth(opts, [o]);
    EncodeOne(o);
    ProperBoth(opts, [o]);
    SaidBoth(opts, [o], 0, f);
    WalkReadsAll(m', 0, OPTIONS_SIZE, opts + [o], f);
  }
}
