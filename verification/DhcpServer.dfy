/** The DHCP server process: message handlers over the lease tables and the configuration. */
module DhcpServer {
  import opened Common
  import opened Chains
  import opened KeyedStore
  import opened LeaseModel
  import opened LeaseDb
  import opened DhcpModel

  class Server {
    const leases: LeaseTable
    var cfg: Config

    ghost predicate Valid()
      reads this, leases
    {
      leases.Valid() && !Leased(leases.View(), 0)
    }

    ghost function State(): State
      reads this, leases
    {
      DhcpModel.State(leases.View(), cfg)
    }

    constructor (cfg: Config)
      ensures Valid() && fresh(leases) && State() == DhcpModel.State(map[], cfg)
    {
      this.cfg := cfg;
      leases := new LeaseTable();
    }

    method FindHost(mac: Mac, n: Network) returns (r: Option<nat>)
      ensures r == FirstIndex(cfg.hosts, ReservesFor(mac, n))
    {
      var i := 0;
      while i < |cfg.hosts| && !Reserves(cfg.hosts[i], mac, n)
        invariant 0 <= i <= |cfg.hosts|
        invariant forall j :: 0 <= j < i ==> !ReservesFor(mac, n)(cfg.hosts[j])
      {
        i := i + 1;
      }
      r := if i < |cfg.hosts| then Some(i) else None;
    }

    method FindNetwork(ip: Ip, mask: Ip) returns (r: Option<nat>)
      ensures r == FirstIndex(cfg.networks, ContainsLease(ip, mask))
    {
      var i := 0;
      while i < |cfg.networks| && !Contains(cfg.networks[i], ip, mask)
        invariant 0 <= i <= |cfg.networks|
        invariant forall j :: 0 <= j < i ==> !ContainsLease(ip, mask)(cfg.networks[j])
      {
        i := i + 1;
      }
      r := if i < |cfg.networks| then Some(i) else None;
    }

    method FindServing(giaddr: Ip, ifIp: Ip, ifMask: Ip) returns (r: Option<nat>)
      ensures r == FirstIndex(cfg.networks, ServesClient(giaddr, ifIp, ifMask))
    {
      var i := 0;
      while i < |cfg.networks| && !Serves(cfg.networks[i], giaddr, ifIp, ifMask)
        invariant 0 <= i <= |cfg.networks|
        invariant forall j :: 0 <= j < i ==> !ServesClient(giaddr, ifIp, ifMask)(cfg.networks[j])
      {
        i := i + 1;
      }
      r := if i < |cfg.networks| then Some(i) else None;
    }

    /** The search loop; its counter is 32 bits wide and wraps. */
    method SearchFree(lo: Ip, hi: Ip) returns (r: Option<Ip>)
      requires Valid()
      ensures r == FirstFree(leases.View(), lo, hi)
    {
      var ip := lo;
      ghost var n: nat := lo;
      while ip <= hi
        invariant n <= WORD32 && ip == (if n == WORD32 then 0 else n)
        invariant FirstFree(leases.View(), lo, hi) == FirstFree(leases.View(), n, hi)
        decreases WORD32 - n
      {
        var p := leases.FindIp(ip);
        if p.None? {
          return Some(ip);
        }
        ip := if ip == IP_MAX then 0 else ip + 1;
        n := n + 1;
      }
      return None;
    }

    method AssignIp(i: nat, mac: Mac) returns (ip: Ip)
      requires Valid() && i < |cfg.networks|
      modifies this`cfg
      ensures var (a, n) := DhcpModel.AssignIp(old(cfg).networks[i], old(cfg).hosts, mac, leases.View());
              ip == a && cfg == old(cfg).(networks := old(cfg).networks[i := n])
    {
      var n := cfg.networks[i];
      var host := FindHost(mac, n);
      if host.Some? {
        return cfg.hosts[host.value].ip;
      }
      var start := SearchStart(n);
      var free := SearchFree(start, n.rangeEnd);
      if free.None? {
        free := SearchFree(n.rangeStart, start);
      }
      ip := if free.Some? then free.value else 0;
      cfg := cfg.(networks := cfg.networks[i := n.(lastIp := ip)]);
    }

    /** Adds a lease for the time of an offer, with the terms of network `n`. */
    method Reserve(now: nat, mac: Mac, ip: Ip, n: Network, at: Ptr) returns (p: Option<Ptr>)
      requires leases.Valid() && mac !in leases.View() && at !in leases.tables.store
      modifies leases
      ensures leases.Valid() && (p.None? <==> Leased(old(leases.View()), ip))
      ensures p.None? ==> leases.View() == old(leases.View())
      ensures var rec := LeaseRec(ip, n.mask, now + OFFER_LEASE_TIME, LeaseSeconds(n), 0, false);
              p.Some? ==> p.value in leases.tables.store && leases.At(p.value) == Item(mac, rec)
                          && leases.View() == old(leases.View())[mac := rec]
    {
      p := leases.Add(mac, ip, now + OFFER_LEASE_TIME, now, at);
      if p.Some? {
        var offered := leases.At(p.value).value;
        var rec := offered.(lease := LeaseSeconds(n), mask := n.mask);
        UpdateTwice(old(leases.View()), mac, offered, rec);
        leases.Set(p.value, rec);
      }
    }

    /** `at` is the address the memory allocator provides for a new lease. */
    method AssignLease(now: nat, mac: Mac, giaddr: Ip, ifIp: Ip, ifMask: Ip, at: Ptr) returns (p: Option<Ptr>)
      requires Valid() && mac !in leases.View() && at !in leases.tables.store
      modifies this`cfg, leases
      ensures Valid() && State() == DhcpModel.AssignLease(old(State()), now, mac, giaddr, ifIp, ifMask)
      ensures p.None? <==> mac !in leases.View()
      ensures p.Some? ==> p.value in leases.tables.store && leases.At(p.value).key == mac
                          && leases.At(p.value).value == leases.View()[mac]
    {
      var i := FindServing(giaddr, ifIp, ifMask);
      if i.None? {
        return None;
      }
      var n := cfg.networks[i.value];
      var ip := AssignIp(i.value, mac);
      if ip == 0 {
        return None;
      }
      p := Reserve(now, mac, ip, n, at);
    }

    method Discover(now: nat, mac: Mac, tid: Word32, giaddr: Ip, ifIp: Ip, ifMask: Ip, at: Ptr) returns (out: Output)
      requires Valid() && at !in leases.tables.store
      modifies this`cfg, leases
      ensures Valid() && (State(), out) == StepDiscover(old(State()), now, mac, tid, giaddr, ifIp, ifMask)
    {
      var p := leases.FindMac(mac);
      if p.Some? && leases.At(p.value).value.declined {
        return Silent;
      }
      if p.None? {
        p := AssignLease(now, mac, giaddr, ifIp, ifMask, at);
      }
      if p.None? {
        return Silent;
      }
      var l := leases.At(p.value).value;
      var net := FindNetwork(l.ip, l.mask);
      if net.None? {
        return Silent;
      }
      LeasedUpdate(leases.View(), mac, l.(tid := tid), 0);
      leases.Set(p.value, l.(tid := tid));
      return Offer(mac, l.ip, l.lease, l.mask);
    }

    /** The lease found both by `ip` and by `mac`, if its transaction id is settled or matches. */
    method FindHeld(mac: Mac, ip: Ip, tid: Word32) returns (p: Option<Ptr>)
      requires Valid()
      ensures p.Some? <==> Holds(leases.View(), mac, ip, tid)
      ensures p.Some? ==> p.value in leases.tables.store && leases.At(p.value) == Item(mac, leases.View()[mac])
    {
      if ip == 0 {
        return None;
      }
      var p1 := leases.FindIp(ip);
      var p2 := leases.FindMac(mac);
      if p1.None? || p2.None? || p1 != p2 {
        return None;
      }
      var l := leases.At(p1.value).value;
      if l.tid != 0 && l.tid != tid {
        return None;
      }
      return p1;
    }

    method Request(now: nat, mac: Mac, tid: Word32, requested: Ip, ciaddr: Ip) returns (out: Output)
      requires Valid()
      modifies leases
      ensures Valid() && (State(), out) == StepRequest(old(State()), now, mac, tid, Named(requested, ciaddr))
    {
      var p := FindHeld(mac, Named(requested, ciaddr), tid);
      if p.None? {
        return Nak(mac);
      }
      var l := leases.At(p.value).value;
      LeasedUpdate(leases.View(), mac, l.(tid := 0), 0);
      leases.Set(p.value, l.(tid := 0));
      var net := FindNetwork(l.ip, l.mask);
      if net.None? {
        return Silent;
      }
      var seconds := LeaseSeconds(cfg.networks[net.value]);
      var granted := l.(tid := 0, tstamp := now + seconds, lease := seconds);
      UpdateTwice(old(leases.View()), mac, l.(tid := 0), granted);
      LeasedUpdate(old(leases.View()), mac, granted, 0);
      leases.Renew(p.value, granted);
      return Ack(mac, l.ip, seconds, l.mask);
    }

    method Decline(mac: Mac, tid: Word32, requested: Ip, ciaddr: Ip)
      requires Valid()
      modifies leases
      ensures Valid() && State() == StepDecline(old(State()), mac, tid, Named(requested, ciaddr))
    {
      var p := FindHeld(mac, Named(requested, ciaddr), tid);
      if p.Some? {
        leases.Set(p.value, leases.At(p.value).value.(declined := true));
      }
    }

    method Release(now: nat, mac: Mac, ciaddr: Ip)
      requires Valid()
      modifies leases
      ensures Valid() && State() == StepRelease(old(State()), now, mac, ciaddr)
    {
      var p := FindHeld(mac, ciaddr, 0);
      if p.None? {
        return;
      }
      var l := leases.At(p.value).value;
      var net := FindNetwork(l.ip, l.mask);
      if net.None? {
        return;
      }
      LeasedUpdate(leases.View(), mac,
                   l.(tstamp := now + OFFER_LEASE_TIME, lease := OFFER_LEASE_TIME, declined := true), 0);
      leases.Renew(p.value, l.(tstamp := now + OFFER_LEASE_TIME, lease := OFFER_LEASE_TIME, declined := true));
    }

    /** Handles one event as the abstract server does. */
    method Handle(now: nat, e: Event, at: Ptr) returns (out: Output)
      requires Valid() && at !in leases.tables.store
      modifies this`cfg, leases
      ensures Valid() && (State(), out) == Step(old(State()), now, e)
    {
      out := Silent;
      match e
      case Discover(mac, tid, giaddr, ifIp, ifMask) => out := Discover(now, mac, tid, giaddr, ifIp, ifMask, at);
      case Request(mac, tid, requested, ciaddr) => out := Request(now, mac, tid, requested, ciaddr);
      case Decline(mac, tid, requested, ciaddr) => Decline(mac, tid, requested, ciaddr);
      case Release(mac, ciaddr) => Release(now, mac, ciaddr);
      case Tick => leases.Timeout(now);
      case Configure(c) => cfg := c;
    }
  }
}
