/** What a client that reads a reply is told, by the option codes of RFC 2132. */
module DhcpReader {
  import opened Common
  import opened NetBytes
  import opened DhcpOptions

  /** Where the first option with the code starts, as any reader of options finds it. */
  function OptionAt(m: Memory, p: nat, limit: nat, code: Byte): Option<nat>
    decreases limit - p
  {
    if p >= limit || m(p) == 255 then None
    else if m(p) == code then Some(p)
    else OptionAt(m, p + 2 + m(p + 1), limit, code)
  }

  function FirstWith(opts: seq<Opt>, code: Byte): Option<Opt> {
    if opts == [] then None
    else if opts[0].code == code then Some(opts[0])
    else FirstWith(opts[1..], code)
  }

  /** The option of the list is what the reader finds. */
  lemma {:induction false} FindsFirst(m: Memory, p: nat, limit: nat, opts: seq<Opt>, code: Byte)
    requires AllProper(opts) && Holds(m, p, Encode(opts) + [255]) && p + |Encode(opts)| < limit
    ensures match FirstWith(opts, code)
            case None => OptionAt(m, p, limit, code) == None
            case Some(o) =>
              var r := OptionAt(m, p, limit, code); r.Some? && Holds(m, r.value, EncodeOpt(o)) && |o.data| < 256
    decreases |opts|
  {
    if opts == [] {
      assert m(p + 0) == (Encode(opts) + [255])[0];
    } else {
      var o, rest := opts[0], opts[1..];
      assert Encode(opts) + [255] == EncodeOpt(o) + (Encode(rest) + [255]);
      HoldsBoth(m, p, EncodeOpt(o), Encode(rest) + [255]);
      assert m(p + 0) == EncodeOpt(o)[0] && m(p + 1) == EncodeOpt(o)[1];
      if o.code != code {
        FindsFirst(m, p + 2 + |o.data|, limit, rest, code);
      }
    }
  }

  lemma {:induction false} FirstOfBoth(a: seq<Opt>, b: seq<Opt>, code: Byte)
    ensures FirstWith(a + b, code) == if FirstWith(a, code).Some? then FirstWith(a, code) else FirstWith(b, code)
  {
    if a == [] {
      assert a + b == b;
    } else {
      assert (a + b)[1..] == a[1..] + b;
      FirstOfBoth(a[1..], b, code);
    }
  }

  lemma {:induction false} FirstOfParts(r: Reply, code: Byte)
    ensures FirstWith(ReplyOptions(r), code) ==
            var lease, routers := FirstWith(LeaseOptions(r), code), FirstWith(Addresses(ROUTER, r.gw1, r.gw2), code);
            var dns := FirstWith(Addresses(DNS, r.dns1, r.dns2), code);
            var ntp := FirstWith(Addresses(NTP, r.ntp1, r.ntp2), code);
            var domain, relay := FirstWith(DomainOptions(r.domain), code), FirstWith(RelayOptions(r), code);
            if lease.Some? then lease
            else if routers.Some? then routers
            else if dns.Some? then dns
            else if ntp.Some? then ntp
            else if domain.Some? then domain
            else relay
  {
    var a, b := LeaseOptions(r), Addresses(ROUTER, r.gw1, r.gw2);
    var c, d, e := Addresses(DNS, r.dns1, r.dns2), Addresses(NTP, r.ntp1, r.ntp2), DomainOptions(r.domain);
    FirstOfBoth(a + ServiceOptions(r), RelayOptions(r), code);
    FirstOfBoth(a, ServiceOptions(r), code);
    FirstOfBoth(b + c + d, e, code);
    FirstOfBoth(b + c, d, code);
    FirstOfBoth(b, c, code);
  }

  /** The reader finds one or two addresses under the code, or none. */
  predicate TellsAddresses(m: Memory, code: Byte, a: Word32, b: Word32) {
    var r := OptionAt(m, 0, 1132, code);
    if a == 0 then r.None?
    else
      && r.Some? && m(r.value + 1) == (if b == 0 then 4 else 8) && Read32(m, r.value + 2) == a
      && (b != 0 ==> Read32(m, r.value + 6) == b)
  }

  /** The reader finds exactly these bytes under the code, or nothing if there are none. */
  predicate TellsBytes(m: Memory, code: Byte, data: seq<Byte>) {
    var r := OptionAt(m, 0, 1132, code);
    if data == [] then r.None? else r.Some? && m(r.value + 1) == |data| && Slice(m, r.value + 2, |data|) == data
  }

  lemma {:induction false} DataIsTold(m: Memory, p: nat, o: Opt)
    requires Holds(m, p, EncodeOpt(o)) && |o.data| < 256
    ensures m(p + 1) == |o.data| && Holds(m, p + 2, o.data) && Slice(m, p + 2, |o.data|) == o.data
  {
    assert m(p + 1) == EncodeOpt(o)[1];
    HoldsBoth(m, p, [o.code, |o.data| % 256], o.data);
  }

  lemma {:induction false} BytesTold(m: Memory, r: Reply, code: Byte, data: seq<Byte>)
    requires ReplyHeld(m, r) && |data| < 256
    requires FirstWith(ReplyOptions(r), code) == if data == [] then None else Some(Opt(code, data))
    ensures TellsBytes(m, code, data)
  {
    FindsFirst(m, 0, 1132, ReplyOptions(r), code);
    if data != [] {
      DataIsTold(m, OptionAt(m, 0, 1132, code).value, Opt(code, data));
    }
  }

  /** The memory holds the options of the reply, as `BuildReply` writes them. */
  ghost predicate ReplyHeld(m: Memory, r: Reply) {
    && ReplyOk(r) && Holds(m, 0, Encode(ReplyOptions(r)) + [255])
    && AllProper(ReplyOptions(r)) && |Encode(ReplyOptions(r))| < 1132
  }

  lemma {:induction false} EveryReplyIsHeld(m: Memory, r: Reply)
    requires ReplyOk(r) && Holds(m, 0, Encode(ReplyOptions(r)) + [255])
    ensures ReplyHeld(m, r)
  {
    ReplyIsUnderstood(m, r, 0);
    ReplySaid(r, NothingFound(0));
    RelaySaid(r, 0, NothingFound(0));
    ProperBoth(LeaseOptions(r) + ServiceOptions(r), RelayOptions(r));
  }

  lemma {:induction false} FirstWithIs(opts: seq<Opt>, k: nat)
    requires k < |opts| && forall j :: 0 <= j < k ==> opts[j].code != opts[k].code
    ensures FirstWith(opts, opts[k].code) == Some(opts[k])
    decreases k
  {
    if k > 0 {
      assert forall j :: 0 <= j < k - 1 ==> opts[1..][j].code == opts[j + 1].code;
      FirstWithIs(opts[1..], k - 1);
    }
  }

  lemma {:induction false} NoneWith(opts: seq<Opt>, code: Byte)
    requires forall j :: 0 <= j < |opts| ==> opts[j].code != code
    ensures FirstWith(opts, code) == None
  {
    if opts != [] {
      NoneWith(opts[1..], code);
    }
  }

  lemma {:induction false} TermTold(m: Memory, r: Reply, k: nat)
    requires ReplyHeld(m, r) && k < 4
    ensures var o := LeaseOptions(r)[k]; TellsBytes(m, o.code, o.data)
  {
    var l := LeaseOptions(r);
    FirstWithIs(l, k);
    FirstOfParts(r, l[k].code);
    BytesTold(m, r, l[k].code, l[k].data);
  }

  /** The terms of the lease are told under the codes 53, 54, 51 and 1. */
  lemma {:induction false} TermsAreTold(m: Memory, r: Reply)
    requires ReplyOk(r) && Holds(m, 0, Encode(ReplyOptions(r)) + [255])
    ensures TellsBytes(m, 53, [r.msgType]) && TellsBytes(m, 54, Bytes32(r.serverIp))
    ensures TellsBytes(m, 51, Bytes32(r.lease)) && TellsBytes(m, 1, Bytes32(r.mask))
  {
    EveryReplyIsHeld(m, r);
    TermTold(m, r, 0);
    TermTold(m, r, 1);
    TermTold(m, r, 2);
    TermTold(m, r, 3);
  }

  function AddressData(a: Word32, b: Word32): seq<Byte> {
    if a == 0 then [] else Bytes32(a) + if b != 0 then Bytes32(b) else []
  }

  lemma {:induction false} AddressesFromBytes(m: Memory, code: Byte, a: Word32, b: Word32)
    requires TellsBytes(m, code, AddressData(a, b))
    ensures TellsAddresses(m, code, a, b)
  {
    if a != 0 {
      var p, rest := OptionAt(m, 0, 1132, code).value + 2, if b != 0 then Bytes32(b) else [];
      SliceHolds(m, p, Bytes32(a) + rest);
      HoldsBoth(m, p, Bytes32(a), rest);
      Reads32(m, p, a);
      if b != 0 {
        Reads32(m, p + 4, b);
      }
    }
  }

  lemma {:induction false} SliceHolds(m: Memory, p: nat, s: seq<Byte>)
    requires Slice(m, p, |s|) == s
    ensures Holds(m, p, s)
  {
    forall i | 0 <= i < |s| ensures m(p + i) == s[i] {
      assert Slice(m, p, |s|)[i] == m(p + i);
    }
  }

  /** What is put under the code in the four kinds of service options. */
  function ServiceData(r: Reply, code: Byte): seq<Byte> {
    if code == 3 then AddressData(r.gw1, r.gw2)
    else if code == 6 then AddressData(r.dns1, r.dns2)
    else if code == 42 then AddressData(r.ntp1, r.ntp2)
    else r.domain
  }

  lemma {:induction false} ServiceTold(m: Memory, r: Reply, code: Byte)
    requires ReplyHeld(m, r) && (code == 3 || code == 6 || code == 42 || code == 15)
    ensures TellsBytes(m, code, ServiceData(r, code))
  {
    NoneWith(LeaseOptions(r), code);
    NoneWith(RelayOptions(r), code);
    FirstOfAddresses(3, r.gw1, r.gw2, code);
    FirstOfAddresses(6, r.dns1, r.dns2, code);
    FirstOfAddresses(42, r.ntp1, r.ntp2, code);
    FirstOfParts(r, code);
    BytesTold(m, r, code, ServiceData(r, code));
  }

  lemma {:induction false} FirstOfAddresses(own: Byte, a: Word32, b: Word32, code: Byte)
    ensures FirstWith(Addresses(own, a, b), code) ==
            if own == code && a != 0 then Some(Opt(code, AddressData(a, b))) else None
  {
  }

  /** Routers are told under code 3, name servers under 6, time servers under 42, the domain name under 15. */
  lemma {:induction false} ServicesAreTold(m: Memory, r: Reply)
    requires ReplyOk(r) && Holds(m, 0, Encode(ReplyOptions(r)) + [255])
    ensures TellsAddresses(m, 3, r.gw1, r.gw2) && TellsAddresses(m, 6, r.dns1, r.dns2)
    ensures TellsAddresses(m, 42, r.ntp1, r.ntp2) && TellsBytes(m, 15, r.domain)
  {
    EveryReplyIsHeld(m, r);
    ServiceTold(m, r, 3);
    ServiceTold(m, r, 6);
    ServiceTold(m, r, 42);
    ServiceTold(m, r, 15);
    AddressesFromBytes(m, 3, r.gw1, r.gw2);
    AddressesFromBytes(m, 6, r.dns1, r.dns2);
    AddressesFromBytes(m, 42, r.ntp1, r.ntp2);
  }

  /** Relay information is sent back under code 82 exactly as it came. */
  lemma {:induction false} RelayInfoIsToldBack(m: Memory, r: Reply)
    requires ReplyOk(r) && Holds(m, 0, Encode(ReplyOptions(r)) + [255])
    requires r.relayInfo.Some? ==> r.relayInfo.value != []
    ensures TellsBytes(m, 82, if r.relayInfo.Some? then r.relayInfo.value else [])
  {
    EveryReplyIsHeld(m, r);
    NoneWith(LeaseOptions(r), 82);
    FirstOfParts(r, 82);
    BytesTold(m, r, 82, if r.relayInfo.Some? then r.relayInfo.value else []);
  }

  lemma {:induction false} HasNoMeansNone(opts: seq<Opt>, code: Byte)
    requires HasNo(opts, code)
    ensures FirstWith(opts, code) == None
  {
    if opts != [] {
      HasNoMeansNone(opts[1..], code);
    }
  }

  /**
   The option a relay adds is told under code 82: suboption 1, which holds the host name, a dot and
   the name of the interface.
   */
  lemma {:induction false} AddedRelayInfoIsTold(m: Memory, opts: seq<Opt>, host: seq<Byte>, iface: seq<Byte>)
    requires AllProper(opts) && HasNo(opts, 82) && |host| <= 16 && |iface| <= 15
    requires Holds(m, 0, Encode(opts + [RelayInfo(host, iface)]) + [255])
    requires |Encode(opts + [RelayInfo(host, iface)])| < 1132
    ensures TellsBytes(m, 82, [1, |host| + 1 + |iface|] + host + [46] + iface)
  {
    var o := RelayInfo(host, iface);
    HasNoMeansNone(opts, 82);
    FirstOfBoth(opts, [o], 82);
    ProperBoth(opts, [o]);
    FindsFirst(m, 0, 1132, opts + [o], 82);
    DataIsTold(m, OptionAt(m, 0, 1132, 82).value, o);
  }

  function LastWith(opts: seq<Opt>, code: Byte): Option<Opt> {
    if opts == [] then None
    else if LastWith(opts[1..], code).Some? then LastWith(opts[1..], code)
    else if opts[0].code == code then Some(opts[0])
    else None
  }

  /** The word under the code, in the last option that has it. */
  function WordUnder(opts: seq<Opt>, code: Byte, otherwise: Word32): Word32
    requires code == 54 || code == 51 || code == 1 || code == 50
    requires AllProper(opts)
  {
    LastIsProper(opts, code);
    match LastWith(opts, code) case None => otherwise case Some(o) => Word(o.data)
  }

  lemma {:induction false} LastIsProper(opts: seq<Opt>, code: Byte)
    requires AllProper(opts)
    ensures LastWith(opts, code).Some? ==> Proper(LastWith(opts, code).value) && LastWith(opts, code).value.code == code
  {
    if opts != [] {
      LastIsProper(opts[1..], code);
    }
  }

  /**
   What the server and the relay read from a list of options: the server under code 54, the lease
   time under 51, the mask under 1, the requested address under 50, and whether there is a message
   type, code 53, and relay information, code 82; the last option of a kind counts.
   */
  lemma {:induction false} ReadByCode(opts: seq<Opt>, p: nat, f: Found)
    requires AllProper(opts)
    ensures var g := AllSaid(opts, p, f);
            && g.serverId == WordUnder(opts, 54, f.serverId) && g.leaseTime == WordUnder(opts, 51, f.leaseTime)
            && g.mask == WordUnder(opts, 1, f.mask) && g.requestedIp == WordUnder(opts, 50, f.requestedIp)
            && (g.msgType.Some? <==> f.msgType.Some? || LastWith(opts, 53).Some?)
            && (g.opt82.Some? <==> f.opt82.Some? || LastWith(opts, 82).Some?)
    decreases |opts|
  {
    if opts != [] {
      ReadByCode(opts[1..], p + 2 + |opts[0].data|, Said(opts[0], p, f));
    }
  }

  /** A list of options that comes to a zero code in place of the end mark is rejected. */
  lemma {:induction false} ZeroCodeIsRejected(m: Memory, p: nat, limit: nat, opts: seq<Opt>, f: Found)
    requires AllProper(opts) && Holds(m, p, Encode(opts) + [0]) && p + |Encode(opts)| < limit
    ensures Walk(m, p, limit, f) == Rejected
    decreases |opts|
  {
    if opts == [] {
      assert m(p + 0) == (Encode(opts) + [0])[0];
    } else {
      var o, rest := opts[0], opts[1..];
      assert Encode(opts) + [0] == EncodeOpt(o) + (Encode(rest) + [0]);
      HoldsBoth(m, p, EncodeOpt(o), Encode(rest) + [0]);
      NotedIsSaid(m, p, o, f);
      ZeroCodeIsRejected(m, p + 2 + |o.data|, limit, rest, Said(o, p, f));
    }
  }
}
