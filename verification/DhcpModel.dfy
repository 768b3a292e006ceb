/**
 The DHCP server as a transition function on the lease database and the configuration.
 Every event carries the time at which it is handled.
 */
module DhcpModel {
  import opened Common
  import opened LeaseModel

  const IP_MAX: Ip := 0xffff_ffff

  datatype Network = Network(
    valid: bool, ip: Ip, mask: Ip, rangeStart: Ip, rangeEnd: Ip,
    days: Byte, hours: Byte, minutes: Byte, lastIp: Ip)

  datatype Host = Host(valid: bool, mac: Mac, ip: Ip)

  datatype Config = Config(networks: seq<Network>, hosts: seq<Host>)

  datatype State = State(db: Db, cfg: Config)

  datatype Event =
    | Discover(mac: Mac, tid: Word32, giaddr: Ip, ifIp: Ip, ifMask: Ip)
    | Request(mac: Mac, tid: Word32, requested: Ip, ciaddr: Ip)
    | Decline(mac: Mac, tid: Word32, requested: Ip, ciaddr: Ip)
    | Release(mac: Mac, ciaddr: Ip)
    | Tick
    | Configure(cfg: Config)

  datatype Output =
    | Silent
    | Offer(mac: Mac, ip: Ip, seconds: nat, mask: Ip)
    | Ack(mac: Mac, ip: Ip, seconds: nat, mask: Ip)
    | Nak(mac: Mac)

  function LeaseSeconds(n: Network): nat {
    n.minutes * 60 + n.hours * 3600 + n.days * 24 * 3600
  }

  /** The index of the first element that satisfies `p`, if any. */
  function FirstIndex<T>(s: seq<T>, p: T -> bool): (r: Option<nat>)
    ensures r.Some? ==> r.value < |s| && p(s[r.value]) && forall i :: 0 <= i < r.value ==> !p(s[i])
    ensures r.None? ==> forall i :: 0 <= i < |s| ==> !p(s[i])
  {
    if s == [] then None
    else if p(s[0]) then Some(0)
    else
      var r := FirstIndex(s[1..], p);
      assert forall i :: 0 < i < |s| ==> s[i] == s[1..][i - 1];
      if r.Some? then Some(r.value + 1) else None
  }

  // Choosing an address.

  predicate Reserves(h: Host, mac: Mac, n: Network) {
    h.valid && h.mac == mac && BitAnd(h.ip, n.mask) == BitAnd(n.ip, n.mask)
  }

  function ReservesFor(mac: Mac, n: Network): Host -> bool {
    h => Reserves(h, mac, n)
  }

  /**
   The first unleased address the loop over `lo` to `hi` meets. The loop counter is 32
   bits wide, so that a loop up to the largest address goes on to address zero.
   */
  ghost function FirstFree(db: Db, lo: nat, hi: Ip): (r: Option<Ip>)
    requires lo <= IP_MAX + 1
    decreases IP_MAX + 1 - lo
  {
    if lo > IP_MAX then Some(0)
    else if lo > hi then None
    else if !Leased(db, lo) then Some(lo)
    else FirstFree(db, lo + 1, hi)
  }

  function SearchStart(n: Network): Ip {
    if n.lastIp == 0 || n.lastIp == IP_MAX then n.rangeStart
    else if n.lastIp + 1 < n.rangeStart || n.lastIp + 1 > n.rangeEnd then n.rangeStart
    else n.lastIp + 1
  }

  /** Zero when the range is used up. */
  ghost function NextFree(n: Network, db: Db): Ip {
    var start := SearchStart(n);
    match FirstFree(db, start, n.rangeEnd)
    case Some(ip) => ip
    case None =>
      match FirstFree(db, n.rangeStart, start)
      case Some(ip) => ip
      case None => 0
  }

  /** The address for `mac` and the network with its search position moved on. */
  ghost function AssignIp(n: Network, hosts: seq<Host>, mac: Mac, db: Db): (Ip, Network) {
    match FirstIndex(hosts, ReservesFor(mac, n))
    case Some(i) => (hosts[i].ip, n)
    case None => var ip := NextFree(n, db); (ip, n.(lastIp := ip))
  }

  // Choosing a network.

  predicate Serves(n: Network, giaddr: Ip, ifIp: Ip, ifMask: Ip) {
    && n.valid
    && (if giaddr == 0 then BitAnd(ifIp, ifMask) == n.ip && ifMask == n.mask else BitAnd(giaddr, n.mask) == n.ip)
    && n.rangeStart != 0 && n.rangeEnd != 0
  }

  function ServesClient(giaddr: Ip, ifIp: Ip, ifMask: Ip): Network -> bool {
    n => Serves(n, giaddr, ifIp, ifMask)
  }

  predicate Contains(n: Network, ip: Ip, mask: Ip) {
    n.valid && BitAnd(ip, mask) == n.ip && mask == n.mask
  }

  function ContainsLease(ip: Ip, mask: Ip): Network -> bool {
    n => Contains(n, ip, mask)
  }

  function NetworkOf(cfg: Config, l: LeaseRec): (r: Option<nat>)
    ensures r.Some? ==> r.value < |cfg.networks|
  {
    FirstIndex(cfg.networks, ContainsLease(l.ip, l.mask))
  }

  /** Reserves an address for twenty seconds; no lease is made when none can be found. */
  ghost function AssignLease(s: State, now: nat, mac: Mac, giaddr: Ip, ifIp: Ip, ifMask: Ip): State {
    match FirstIndex(s.cfg.networks, ServesClient(giaddr, ifIp, ifMask))
    case None => s
    case Some(i) =>
      var n := s.cfg.networks[i];
      var (ip, n') := AssignIp(n, s.cfg.hosts, mac, s.db);
      var cfg' := s.cfg.(networks := s.cfg.networks[i := n']);
      if ip == 0 || mac in s.db || Leased(s.db, ip) then State(s.db, cfg')
      else State(s.db[mac := LeaseRec(ip, n.mask, now + OFFER_LEASE_TIME, LeaseSeconds(n), 0, false)], cfg')
  }

  // The message handlers.

  ghost function StepDiscover(s: State, now: nat, mac: Mac, tid: Word32, giaddr: Ip, ifIp: Ip, ifMask: Ip)
    : (State, Output)
  {
    if mac in s.db && s.db[mac].declined then (s, Silent)
    else
      var s1 := if mac in s.db then s else AssignLease(s, now, mac, giaddr, ifIp, ifMask);
      if mac !in s1.db || NetworkOf(s1.cfg, s1.db[mac]).None? then (s1, Silent)
      else
        var l := s1.db[mac];
        (s1.(db := s1.db[mac := l.(tid := tid)]), Offer(mac, l.ip, l.lease, l.mask))
  }

  /** The client holds the lease of `ip`, and an outstanding offer has transaction id `tid`. */
  predicate Holds(db: Db, mac: Mac, ip: Ip, tid: Word32) {
    ip != 0 && mac in db && db[mac].ip == ip && (db[mac].tid == 0 || db[mac].tid == tid)
  }

  function Named(requested: Ip, ciaddr: Ip): Ip {
    if requested == 0 then ciaddr else requested
  }

  function StepRequest(s: State, now: nat, mac: Mac, tid: Word32, ip: Ip): (State, Output) {
    if !Holds(s.db, mac, ip, tid) then (s, Nak(mac))
    else
      var l := s.db[mac].(tid := 0);
      match NetworkOf(s.cfg, l)
      case None => (s.(db := s.db[mac := l]), Silent)
      case Some(i) =>
        var seconds := LeaseSeconds(s.cfg.networks[i]);
        (s.(db := s.db[mac := l.(tstamp := now + seconds, lease := seconds)]), Ack(mac, ip, seconds, l.mask))
  }

  function StepDecline(s: State, mac: Mac, tid: Word32, ip: Ip): State {
    if !Holds(s.db, mac, ip, tid) then s
    else s.(db := s.db[mac := s.db[mac].(declined := true)])
  }

  function StepRelease(s: State, now: nat, mac: Mac, ip: Ip): State {
    if ip == 0 || mac !in s.db || s.db[mac].ip != ip || s.db[mac].tid != 0 || NetworkOf(s.cfg, s.db[mac]).None? then s
    else
      s.(db := s.db[mac :=
        s.db[mac].(tstamp := now + OFFER_LEASE_TIME, lease := OFFER_LEASE_TIME, declined := true)])
  }

  ghost function Step(s: State, now: nat, e: Event): (State, Output) {
    match e
    case Discover(mac, tid, giaddr, ifIp, ifMask) => StepDiscover(s, now, mac, tid, giaddr, ifIp, ifMask)
    case Request(mac, tid, requested, ciaddr) => StepRequest(s, now, mac, tid, Named(requested, ciaddr))
    case Decline(mac, tid, requested, ciaddr) => (StepDecline(s, mac, tid, Named(requested, ciaddr)), Silent)
    case Release(mac, ciaddr) => (StepRelease(s, now, mac, ciaddr), Silent)
    case Tick => (s.(db := Sweep(s.db, now)), Silent)
    case Configure(cfg) => (s.(cfg := cfg), Silent)
  }

  /** No two clients share an address, and address zero is never leased. */
  ghost predicate Inv(db: Db) {
    UniqueIps(db) && !Leased(db, 0)
  }

  /** A lease that keeps its address keeps the invariant. */
  lemma {:induction false} UpdateKeepsInv(db: Db, m: Mac, rec: LeaseRec)
    requires Inv(db) && m in db && rec.ip == db[m].ip
    ensures Inv(db[m := rec])
  {
    UniqueIpsUpdate(db, m, rec);
    LeasedUpdate(db, m, rec, 0);
  }

  lemma {:induction false} AssignLeaseKeepsInv(s: State, now: nat, mac: Mac, giaddr: Ip, ifIp: Ip, ifMask: Ip)
    requires Inv(s.db)
    ensures Inv(AssignLease(s, now, mac, giaddr, ifIp, ifMask).db)
  {
    var db := AssignLease(s, now, mac, giaddr, ifIp, ifMask).db;
    if db != s.db {
      UniqueIpsAdd(s.db, mac, db[mac]);
    }
  }

  lemma {:induction false} DiscoverKeepsInv(s: State, now: nat, mac: Mac, tid: Word32, giaddr: Ip, ifIp: Ip, ifMask: Ip)
    requires Inv(s.db)
    ensures Inv(StepDiscover(s, now, mac, tid, giaddr, ifIp, ifMask).0.db)
  {
    AssignLeaseKeepsInv(s, now, mac, giaddr, ifIp, ifMask);
    var s1 := if mac in s.db then s else AssignLease(s, now, mac, giaddr, ifIp, ifMask);
    if mac in s1.db {
      UpdateKeepsInv(s1.db, mac, s1.db[mac].(tid := tid));
    }
  }

  lemma {:induction false} StepKeepsInv(s: State, now: nat, e: Event)
    requires Inv(s.db)
    ensures Inv(Step(s, now, e).0.db)
  {
    match e
    case Discover(mac, tid, giaddr, ifIp, ifMask) => DiscoverKeepsInv(s, now, mac, tid, giaddr, ifIp, ifMask);
    case Request(mac, _, _, _) =>
      if mac in s.db && mac in Step(s, now, e).0.db {
        UpdateKeepsInv(s.db, mac, Step(s, now, e).0.db[mac]);
      }
    case Decline(mac, _, _, _) =>
      if mac in s.db {
        UpdateKeepsInv(s.db, mac, s.db[mac].(declined := true));
      }
    case Release(mac, _) =>
      if mac in s.db {
        UpdateKeepsInv(s.db, mac, Step(s, now, e).0.db[mac]);
      }
    case Tick =>
      assert forall m :: m in Sweep(s.db, now) ==> m in s.db && Sweep(s.db, now)[m] == s.db[m];
    case Configure(_) =>
  }
}
