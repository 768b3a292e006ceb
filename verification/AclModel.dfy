/** Access lists: what the configured entries mean, and what the generated chains decide. */
module AclModel {
  import opened Common

  datatype Action = Permit | Deny

  datatype ConnState = New | Established | Related | Invalid

  /** The fields of the three kinds of entries; zero, or empty, stands for "any". */
  datatype Match =
    | Simple(ip: Word32, bits: nat)
    | Extended(
        ip: Word32, bits: nat, port: Word16, protocol: Byte, destIp: Word32, destBits: nat, destPort: Word16,
        outInterface: string, states: set<ConnState>, mac: nat)
    | Icmp(ip: Word32, bits: nat, destIp: Word32, destBits: nat, icmpType: nat, mac: nat)

  datatype Entry = Entry(list: Byte, action: Action, match_: Match)

  datatype Packet = Packet(
    src: Word32, dst: Word32, protocol: Byte, sport: Word16, dport: Word16,
    outInterface: string, state: ConnState, mac: nat, icmpType: nat)

  const PROTOCOL_ICMP: Byte := 1
  const PROTOCOL_ANY: Byte := 255

  predicate InNetwork(a: Word32, ip: Word32, bits: nat) {
    var host := Power2(if bits <= 32 then 32 - bits else 0);
    a / host == ip / host
  }

  // What an entry means.

  predicate MatchesProtocol(protocol: Byte, p: Packet) {
    protocol == PROTOCOL_ANY || protocol == 0 || p.protocol == protocol
  }

  predicate EntryMatches(m: Match, p: Packet) {
    match m
    case Simple(ip, bits) => ip == 0 || InNetwork(p.src, ip, bits)
    case Extended(ip, bits, port, protocol, destIp, destBits, destPort, outInterface, states, mac) =>
      && (mac == 0 || p.mac == mac)
      && MatchesProtocol(protocol, p)
      && (ip == 0 || InNetwork(p.src, ip, bits))
      && (port == 0 || p.sport == port)
      && (if outInterface != "" then p.outInterface == outInterface
          else destIp == 0 || InNetwork(p.dst, destIp, destBits))
      && (destPort == 0 || p.dport == destPort)
      && (states == {} || p.state in states)
    case Icmp(ip, bits, destIp, destBits, icmpType, mac) =>
      && (mac == 0 || p.mac == mac)
      && p.protocol == PROTOCOL_ICMP
      && (icmpType == 0 || p.icmpType == icmpType)
      && (ip == 0 || InNetwork(p.src, ip, bits))
      && (destIp == 0 || InNetwork(p.dst, destIp, destBits))
  }

  datatype Verdict = Accept | Drop | FallThrough

  /** An entry of the list decides about the packet. */
  ghost predicate Decides(entries: set<Entry>, n: nat, a: Action, p: Packet) {
    exists e :: e in entries && e.list == n && e.action == a && EntryMatches(e.match_, p)
  }

  ghost predicate HasPermit(entries: set<Entry>, n: nat) {
    exists e :: e in entries && e.list == n && e.action == Permit
  }

  /** Denies come first; a list with any permit drops what it does not permit. */
  ghost function Meaning(entries: set<Entry>, n: nat, p: Packet): Verdict {
    if Decides(entries, n, Deny, p) then Drop
    else if Decides(entries, n, Permit, p) then Accept
    else if HasPermit(entries, n) then Drop
    else FallThrough
  }

  // The generated rules.

  datatype Cond =
    | MacSource(mac: nat)
    | Protocol(protocol: Byte)
    | Source(ip: Word32, bits: nat)
    | SourcePort(port: Word16)
    | OutInterface(name: string)
    | Destination(ip: Word32, bits: nat)
    | DestinationPort(port: Word16)
    | State(states: seq<ConnState>)
    | IcmpType(icmpType: nat)

  /** A line of the script: create a chain, or append a rule to one. */
  datatype Line = NewChain(list: nat) | Append(list: nat, conds: seq<Cond>, target: Verdict)

  predicate Holds(c: Cond, p: Packet) {
    match c
    case MacSource(mac) => p.mac == mac
    case Protocol(protocol) => protocol == 0 || p.protocol == protocol
    case Source(ip, bits) => InNetwork(p.src, ip, bits)
    case SourcePort(port) => p.sport == port
    case OutInterface(name) => p.outInterface == name
    case Destination(ip, bits) => InNetwork(p.dst, ip, bits)
    case DestinationPort(port) => p.dport == port
    case State(states) => p.state in states
    case IcmpType(t) => p.icmpType == t
  }

  predicate AllHold(cs: seq<Cond>, p: Packet) {
    cs == [] || (Holds(cs[0], p) && AllHold(cs[1..], p))
  }

  function Optional(omit: bool, c: Cond): seq<Cond> {
    if omit then [] else [c]
  }

  function StateList(states: set<ConnState>): seq<ConnState> {
    (if New in states then [New] else []) + (if Established in states then [Established] else [])
    + (if Related in states then [Related] else []) + (if Invalid in states then [Invalid] else [])
  }

  /** The last options of an extended rule; an output interface replaces the destination. */
  function DestinationAndState(m: Match): seq<Cond>
    requires m.Extended?
  {
    (if m.outInterface != "" then [OutInterface(m.outInterface)]
     else Optional(m.destIp == 0, Destination(m.destIp, m.destBits)))
    + (Optional(m.destPort == 0, DestinationPort(m.destPort))
    + Optional(m.states == {}, State(StateList(m.states))))
  }

  /** The options of the rule generated for an entry, in the order they are printed. */
  function Compile(m: Match): seq<Cond> {
    match m
    case Simple(ip, bits) => Optional(ip == 0, Source(ip, bits))
    case Extended(ip, bits, port, protocol, destIp, destBits, destPort, outInterface, states, mac) =>
      Optional(mac == 0, MacSource(mac))
      + (Optional(protocol == PROTOCOL_ANY, Protocol(protocol))
      + (Optional(ip == 0, Source(ip, bits))
      + (Optional(port == 0, SourcePort(port))
      + DestinationAndState(m))))
    case Icmp(ip, bits, destIp, destBits, icmpType, mac) =>
      Optional(mac == 0, MacSource(mac))
      + ([Protocol(PROTOCOL_ICMP)]
      + (Optional(icmpType == 0, IcmpType(icmpType))
      + (Optional(ip == 0, Source(ip, bits))
      + Optional(destIp == 0, Destination(destIp, destBits)))))
  }

  lemma {:induction false} AllHoldAppend(a: seq<Cond>, b: seq<Cond>, p: Packet)
    ensures AllHold(a + b, p) <==> AllHold(a, p) && AllHold(b, p)
  {
    if a == [] {
      assert a + b == b;
    } else {
      assert (a + b)[1..] == a[1..] + b;
      AllHoldAppend(a[1..], b, p);
    }
  }

  lemma {:induction false} OptionalHolds(omit: bool, c: Cond, rest: seq<Cond>, p: Packet)
    ensures AllHold(Optional(omit, c) + rest, p) <==> (omit || Holds(c, p)) && AllHold(rest, p)
  {
    AllHoldAppend(Optional(omit, c), rest, p);
    assert [c][1..] == [];
  }

  lemma {:induction false} StateListHolds(states: set<ConnState>, s: ConnState)
    ensures s in StateList(states) <==> s in states
  {
    match s
    case New =>
    case Established =>
    case Related =>
    case Invalid =>
  }

  lemma {:induction false} DestinationAndStateHold(m: Match, p: Packet)
    requires m.Extended?
    ensures AllHold(DestinationAndState(m), p) <==>
      && (if m.outInterface != "" then p.outInterface == m.outInterface
          else m.destIp == 0 || InNetwork(p.dst, m.destIp, m.destBits))
      && (m.destPort == 0 || p.dport == m.destPort)
      && (m.states == {} || p.state in m.states)
  {
    var c7 := Optional(m.states == {}, State(StateList(m.states)));
    var c6 := Optional(m.destPort == 0, DestinationPort(m.destPort)) + c7;
    var dest := if m.outInterface != "" then OutInterface(m.outInterface) else Destination(m.destIp, m.destBits);
    OptionalHolds(m.outInterface == "" && m.destIp == 0, dest, c6, p);
    OptionalHolds(m.destPort == 0, DestinationPort(m.destPort), c7, p);
    assert c7 + [] == c7;
    OptionalHolds(m.states == {}, State(StateList(m.states)), [], p);
    StateListHolds(m.states, p.state);
  }

  lemma {:induction false} CompileExtended(m: Match, p: Packet)
    requires m.Extended?
    ensures AllHold(Compile(m), p) <==> EntryMatches(m, p)
  {
    var c4 := Optional(m.port == 0, SourcePort(m.port)) + DestinationAndState(m);
    var c3 := Optional(m.ip == 0, Source(m.ip, m.bits)) + c4;
    var c2 := Optional(m.protocol == PROTOCOL_ANY, Protocol(m.protocol)) + c3;
    OptionalHolds(m.mac == 0, MacSource(m.mac), c2, p);
    OptionalHolds(m.protocol == PROTOCOL_ANY, Protocol(m.protocol), c3, p);
    OptionalHolds(m.ip == 0, Source(m.ip, m.bits), c4, p);
    OptionalHolds(m.port == 0, SourcePort(m.port), DestinationAndState(m), p);
    DestinationAndStateHold(m, p);
  }

  lemma {:induction false} CompileIcmp(m: Match, p: Packet)
    requires m.Icmp?
    ensures AllHold(Compile(m), p) <==> EntryMatches(m, p)
  {
    var c5 := Optional(m.destIp == 0, Destination(m.destIp, m.destBits));
    var c4 := Optional(m.ip == 0, Source(m.ip, m.bits)) + c5;
    var c3 := Optional(m.icmpType == 0, IcmpType(m.icmpType)) + c4;
    var c2 := Optional(false, Protocol(PROTOCOL_ICMP)) + c3;
    assert Compile(m) == Optional(m.mac == 0, MacSource(m.mac)) + c2;
    OptionalHolds(m.mac == 0, MacSource(m.mac), c2, p);
    OptionalHolds(false, Protocol(PROTOCOL_ICMP), c3, p);
    OptionalHolds(m.icmpType == 0, IcmpType(m.icmpType), c4, p);
    OptionalHolds(m.ip == 0, Source(m.ip, m.bits), c5, p);
    assert c5 + [] == c5;
    OptionalHolds(m.destIp == 0, Destination(m.destIp, m.destBits), [], p);
  }

  /** The generated rule matches exactly the packets its entry stands for. */
  lemma {:induction false} CompilePreservesMeaning(m: Match, p: Packet)
    ensures AllHold(Compile(m), p) <==> EntryMatches(m, p)
  {
    match m
    case Simple(ip, bits) =>
      OptionalHolds(ip == 0, Source(ip, bits), [], p);
      assert Compile(m) + [] == Compile(m);
    case Extended(_, _, _, _, _, _, _, _, _, _) => CompileExtended(m, p);
    case Icmp(_, _, _, _, _, _) => CompileIcmp(m, p);
  }

  // What a chain decides.

  /** The rules of chain `n`, in the order the script appends them. */
  function ChainOf(script: seq<Line>, n: nat): seq<Line> {
    if script == [] then []
    else
      var last := script[|script| - 1];
      ChainOf(script[..|script| - 1], n) + if last.Append? && last.list == n then [last] else []
  }

  /** The target of the first rule of a chain that matches the packet. */
  function FirstMatch(rules: seq<Line>, p: Packet): Verdict {
    if rules == [] then FallThrough
    else if rules[0].Append? && AllHold(rules[0].conds, p) then rules[0].target
    else FirstMatch(rules[1..], p)
  }

  lemma {:induction false} FirstMatchAppend(a: seq<Line>, b: seq<Line>, p: Packet)
    requires forall i :: 0 <= i < |a| && a[i].Append? ==> a[i].target != FallThrough
    ensures FirstMatch(a + b, p) == if FirstMatch(a, p) != FallThrough then FirstMatch(a, p) else FirstMatch(b, p)
  {
    if a == [] {
      assert a + b == b;
    } else {
      assert (a + b)[1..] == a[1..] + b;
      FirstMatchAppend(a[1..], b, p);
    }
  }

  lemma {:induction false} ChainOfAppend(a: seq<Line>, b: seq<Line>, n: nat)
    ensures ChainOf(a + b, n) == ChainOf(a, n) + ChainOf(b, n)
  {
    if b == [] {
      assert a + b == a;
    } else {
      assert (a + b)[..|a + b| - 1] == a + b[..|b| - 1];
      ChainOfAppend(a, b[..|b| - 1], n);
    }
  }
}
