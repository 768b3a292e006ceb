/**
 What the DHCP server answers. Networks are looked at in plain arithmetic here, and requests by
 what their messages say, so that nothing depends on how the server finds its answer.
 */
module DhcpService {
  import opened Common
  import opened LeaseModel
  import opened DhcpModel
  import opened DhcpPool
  import opened DhcpSafety

  // Networks in arithmetic.

  /** The mask leaves `k` bits for hosts. */
  predicate HostBits(mask: Ip, k: nat) {
    k <= 32 && mask + Power2(k) == WORD32
  }

  /** A network as the command line takes it, address and number of bits: its host bits are zero. */
  ghost predicate WellMasked(n: Network) {
    exists k: nat :: HostBits(n.mask, k) && n.ip % Power2(k) == 0
  }

  ghost predicate AllWellMasked(cfg: Config) {
    forall i :: 0 <= i < |cfg.networks| && cfg.networks[i].valid ==> WellMasked(cfg.networks[i])
  }

  /** The addresses of a network are a block of `2^32 - mask` of them. */
  predicate InBlock(n: Network, a: Ip) {
    var size := WORD32 - n.mask;
    a / size == n.ip / size
  }

  lemma {:induction false} HalfOf(a: nat, d: nat)
    requires d > 0
    ensures a / (2 * d) == a / 2 / d
  {
    var q := a / 2 / d;
    DivModUnique(a, 2 * d, q, 2 * (a / 2 - q * d) + a % 2);
  }

  lemma {:induction false} MaskClearsHostBits(a: nat, k: nat, j: nat, low: nat, all: nat)
    requires low == Power2(k) && all == Power2(k + j) && a < all
    ensures all >= low && BitAnd(a, all - low) == a / low * low
    decreases k, j
  {
    if k == 0 {
      AllOnesKeep(a, j);
    } else {
      assert low == 2 * Power2(k - 1) && all == 2 * Power2(k - 1 + j);
      MaskClearsHostBits(a / 2, k - 1, j, Power2(k - 1), Power2(k - 1 + j));
      ClearsOneMore(a, Power2(k - 1), Power2(k - 1 + j));
    }
  }

  lemma {:induction false} ClearsOneMore(a: nat, low: nat, all: nat)
    requires all >= low > 0 && BitAnd(a / 2, all - low) == a / 2 / low * low
    ensures BitAnd(a, 2 * all - 2 * low) == a / (2 * low) * (2 * low)
  {
    var q, m := a / 2 / low, all - low;
    HalfOf(a, low);
    assert 2 * m % 2 == 0 && 2 * m / 2 == m;
    assert q * (2 * low) == 2 * (q * low);
  }

  lemma {:induction false} AllOnesKeep(a: nat, j: nat)
    requires a < Power2(j)
    ensures BitAnd(a, Power2(j) - 1) == a
  {
    if j > 0 {
      AllOnesKeep(a / 2, j - 1);
      assert (Power2(j) - 1) / 2 == Power2(j - 1) - 1 && (Power2(j) - 1) % 2 == 1;
    }
  }

  lemma {:induction false} Power2Adds(k: nat, j: nat)
    requires k + j == 32
    ensures Power2(k + j) == WORD32
  {
    assert Power2(8) == 256;
    assert Power2(16) == 256 * Power2(8);
    assert Power2(24) == 256 * Power2(16);
    assert Power2(32) == 256 * Power2(24);
  }

  /** Masking an address gives the network address exactly in the block of the network. */
  lemma {:induction false} MaskedIffInBlock(n: Network, a: Ip)
    requires WellMasked(n)
    ensures BitAnd(a, n.mask) == n.ip <==> InBlock(n, a)
  {
    var k: nat :| HostBits(n.mask, k) && n.ip % Power2(k) == 0;
    MaskedBy(a, n.mask, k, Power2(k));
    SameBlock(a, n.ip, Power2(k));
  }

  lemma {:induction false} MaskedBy(a: Ip, mask: Ip, k: nat, size: nat)
    requires HostBits(mask, k) && size == Power2(k)
    ensures BitAnd(a, mask) == a / size * size
  {
    var j := 32 - k;
    Power2Adds(k, j);
    MaskClearsHostBits(a, k, j, size, WORD32);
  }

  lemma {:induction false} SameBlock(a: nat, ip: nat, size: nat)
    requires size > 0 && ip % size == 0
    ensures a / size * size == ip <==> a / size == ip / size
  {
    var x, y := a / size, ip / size;
    assert ip == y * size;
    if x * size == y * size {
      DivModUnique(x * size, size, x, 0);
      DivModUnique(y * size, size, y, 0);
    }
  }

  /** Network `i` is valid, has the mask and contains the address. */
  predicate Covers(cfg: Config, i: nat, ip: Ip, mask: Ip)
    requires i < |cfg.networks|
  {
    var n := cfg.networks[i];
    n.valid && n.mask == mask && InBlock(n, ip)
  }

  ghost predicate Covered(cfg: Config, ip: Ip, mask: Ip) {
    exists i: nat :: i < |cfg.networks| && Covers(cfg, i, ip, mask)
  }

  ghost predicate FirstCovers(cfg: Config, i: nat, ip: Ip, mask: Ip) {
    i < |cfg.networks| && Covers(cfg, i, ip, mask) && forall j: nat :: j < i ==> !Covers(cfg, j, ip, mask)
  }

  lemma {:induction false} NetworkOfIff(cfg: Config, l: LeaseRec)
    requires AllWellMasked(cfg)
    ensures NetworkOf(cfg, l).Some? <==> Covered(cfg, l.ip, l.mask)
    ensures forall i: nat :: FirstCovers(cfg, i, l.ip, l.mask) ==> NetworkOf(cfg, l) == Some(i)
  {
    forall i: nat | i < |cfg.networks|
      ensures ContainsLease(l.ip, l.mask)(cfg.networks[i]) <==> Covers(cfg, i, l.ip, l.mask)
    {
      if cfg.networks[i].valid && cfg.networks[i].mask == l.mask {
        MaskedIffInBlock(cfg.networks[i], l.ip);
      }
    }
    var r := NetworkOf(cfg, l);
    if r.Some? {
      assert Covers(cfg, r.value, l.ip, l.mask);
    }
    forall i: nat | FirstCovers(cfg, i, l.ip, l.mask) ensures r == Some(i) {
      assert ContainsLease(l.ip, l.mask)(cfg.networks[i]);
    }
  }

  /** The seconds in so many days, hours and minutes. */
  function SecondsOf(n: Network): nat {
    n.days * 86400 + n.hours * 3600 + n.minutes * 60
  }

  // Answers to requests.

  /** A tick came at or after the expiry, a multiple of 256 seconds after it. */
  ghost predicate SweptBy(ins: seq<Input>, expiry: nat) {
    exists i :: 0 <= i < |ins| && ins[i].event.Tick? && ins[i].now >= expiry && (ins[i].now - expiry) % 256 == 0
  }

  lemma {:induction false} SweptByIff(ins: seq<Input>, expiry: nat)
    ensures SweptBy(ins, expiry) <==> Swept(ins, expiry)
  {
    forall i | 0 <= i < |ins| && ins[i].now >= expiry
      ensures (ins[i].now - expiry) % 256 == 0 <==> SweptAt(expiry, ins[i].now)
    {
      DivModAdd(expiry, ins[i].now - expiry, 256);
    }
    if SweptBy(ins, expiry) {
      var i :| 0 <= i < |ins| && ins[i].event.Tick? && ins[i].now >= expiry && (ins[i].now - expiry) % 256 == 0;
      assert SweptAt(expiry, ins[i].now);
    }
    if Swept(ins, expiry) {
      var i :| 0 <= i < |ins| && ins[i].event.Tick? && SweptAt(expiry, ins[i].now);
      assert (ins[i].now - expiry) % 256 == 0;
    }
  }

  /** The message names the address, as the one requested or else as the client's own. */
  predicate Names(requested: Ip, ciaddr: Ip, ip: Ip) {
    requested == ip || (requested == 0 && ciaddr == ip)
  }

  /** The answer to any REQUEST of a client whose lease is `l`, as long as it is there. */
  lemma {:induction false} AnswerToRequest(s: State, now: nat, m: Mac, l: LeaseRec, tid: Word32, requested: Ip,
                                           ciaddr: Ip)
    requires AllWellMasked(s.cfg) && l.ip != 0 && (m in s.db ==> s.db[m] == l)
    ensures var (s', a) := Step(s, now, Request(m, tid, requested, ciaddr));
            var held := m in s.db && Names(requested, ciaddr, l.ip) && (l.tid == 0 || l.tid == tid);
            && (!held ==> (s', a) == (s, Nak(m)))
            && (a.Ack? <==> held && Covered(s.cfg, l.ip, l.mask))
            && (a.Ack? ==> a == Ack(m, l.ip, a.seconds, l.mask)
                           && s'.db == s.db[m := l.(tid := 0, tstamp := now + a.seconds, lease := a.seconds)])
            && (a.Ack? ==> forall i: nat :: FirstCovers(s.cfg, i, l.ip, l.mask) ==>
                             a.seconds == SecondsOf(s.cfg.networks[i]))
            && (held && !a.Ack? ==> a == Silent)
  {
    NetworkOfIff(s.cfg, l);
    assert NetworkOf(s.cfg, l.(tid := 0)) == NetworkOf(s.cfg, l);
  }

  /**
   After an acknowledgement and any run without messages of its client, a REQUEST of that client
   is acknowledged, under any transaction id and with the same address and mask, if and only if it
   names the address, the lease was not swept and a network still contains it. It is refused,
   leaving the server as it was, if it names another address or the lease was swept.
   */
  lemma {:induction false} AckedClientIsAnswered(s: State, now: nat, e: Event, between: seq<Input>, later: nat,
                                                 tid: Word32, requested: Ip, ciaddr: Ip)
    requires Step(s, now, e).1.Ack?
    requires forall i :: 0 <= i < |between| ==> !NamesClient(between[i].event, Step(s, now, e).1.mac)
    requires AllWellMasked(StateAfter(Step(s, now, e).0, between).cfg)
    ensures var (s1, o) := Step(s, now, e);
            var s2 := StateAfter(s1, between);
            var (s3, a) := Step(s2, later, Request(o.mac, tid, requested, ciaddr));
            var there := Names(requested, ciaddr, o.ip) && !SweptBy(between, now + o.seconds);
            && (a.Ack? <==> there && Covered(s2.cfg, o.ip, o.mask))
            && (a.Ack? ==> a == Ack(o.mac, o.ip, a.seconds, o.mask))
            && (a.Ack? ==> forall i: nat :: FirstCovers(s2.cfg, i, o.ip, o.mask) ==>
                             a.seconds == SecondsOf(s2.cfg.networks[i]))
            && (!there ==> (s3, a) == (s2, Nak(o.mac)))
  {
    var (s1, o) := Step(s, now, e);
    AckLeavesLease(s, now, e);
    LeaseGoesWhenSwept(s1, between, o.mac);
    SweptByIff(between, now + o.seconds);
    AnswerToRequest(StateAfter(s1, between), later, o.mac, s1.db[o.mac], tid, requested, ciaddr);
  }

  lemma {:induction false} AckLeavesLease(s: State, now: nat, e: Event)
    requires Step(s, now, e).1.Ack?
    ensures var (s1, o) := Step(s, now, e);
            && o.mac in s1.db && o.ip != 0 && s1.db[o.mac].ip == o.ip && s1.db[o.mac].mask == o.mask
            && s1.db[o.mac].tstamp == now + o.seconds && s1.db[o.mac].tid == 0
  {
  }

  /**
   After an offer, a REQUEST of its client is acknowledged if and only if, besides, it carries the
   transaction id of the offer, or that is zero. Under another id it is refused, and the server is
   as it was.
   */
  lemma {:induction false} OfferedClientIsAnswered(s: State, now: nat, offer: Event, between: seq<Input>, later: nat,
                                                   tid: Word32, requested: Ip, ciaddr: Ip)
    requires Inv(s.db) && offer.Discover? && Step(s, now, offer).1.Offer?
    requires forall i :: 0 <= i < |between| ==> !NamesClient(between[i].event, offer.mac)
    requires AllWellMasked(StateAfter(Step(s, now, offer).0, between).cfg)
    ensures var (s1, o) := Step(s, now, offer);
            var s2 := StateAfter(s1, between);
            var (s3, a) := Step(s2, later, Request(offer.mac, tid, requested, ciaddr));
            var held := Names(requested, ciaddr, o.ip) && (offer.tid == 0 || tid == offer.tid);
            && offer.mac in s1.db
            && (var there := held && !SweptBy(between, s1.db[offer.mac].tstamp);
                && (a.Ack? <==> there && Covered(s2.cfg, o.ip, o.mask))
                && (a.Ack? ==> a == Ack(offer.mac, o.ip, a.seconds, o.mask))
                && (!there ==> (s3, a) == (s2, Nak(offer.mac))))
  {
    var (s1, o) := Step(s, now, offer);
    OfferHasLease(s, now, offer);
    var l := s1.db[offer.mac];
    LeaseGoesWhenSwept(s1, between, offer.mac);
    SweptByIff(between, l.tstamp);
    AnswerToRequest(StateAfter(s1, between), later, offer.mac, l, tid, requested, ciaddr);
  }

  // Answers to discovers.

  /** The network serves clients on an interface, or behind a relay if there is a relay address. */
  predicate Suits(n: Network, giaddr: Ip, ifIp: Ip, ifMask: Ip) {
    && n.valid && n.rangeStart != 0 && n.rangeEnd != 0
    && (if giaddr == 0 then n.mask == ifMask && InBlock(n, ifIp) else InBlock(n, giaddr))
  }

  ghost predicate FirstSuits(cfg: Config, i: nat, giaddr: Ip, ifIp: Ip, ifMask: Ip) {
    && i < |cfg.networks| && Suits(cfg.networks[i], giaddr, ifIp, ifMask)
    && forall j: nat :: j < i ==> !Suits(cfg.networks[j], giaddr, ifIp, ifMask)
  }

  lemma {:induction false} SuitsIffServes(n: Network, giaddr: Ip, ifIp: Ip, ifMask: Ip)
    requires n.valid ==> WellMasked(n)
    ensures Suits(n, giaddr, ifIp, ifMask) <==> ServesClient(giaddr, ifIp, ifMask)(n)
  {
    if n.valid {
      MaskedIffInBlock(n, ifIp);
      MaskedIffInBlock(n, giaddr);
    }
  }

  lemma {:induction false} FirstSuitsIsServing(cfg: Config, i: nat, giaddr: Ip, ifIp: Ip, ifMask: Ip)
    requires AllWellMasked(cfg)
    ensures FirstSuits(cfg, i, giaddr, ifIp, ifMask) <==>
            FirstIndex(cfg.networks, ServesClient(giaddr, ifIp, ifMask)) == Some(i)
  {
    forall j: nat | j < |cfg.networks|
      ensures Suits(cfg.networks[j], giaddr, ifIp, ifMask) <==> ServesClient(giaddr, ifIp, ifMask)(cfg.networks[j])
    {
      SuitsIffServes(cfg.networks[j], giaddr, ifIp, ifMask);
    }
  }

  /** The range is in the network, as the command line makes sure. */
  predicate RangeInside(n: Network) {
    0 < n.rangeStart <= n.rangeEnd && InBlock(n, n.rangeStart) && InBlock(n, n.rangeEnd)
  }

  /** Where the search can reach from: all of the range, but for one that ends at the largest address. */
  function ReachableFrom(n: Network): nat {
    if n.rangeEnd < 0xffff_ffff then n.rangeStart
    else if n.rangeStart <= n.lastIp + 1 <= n.rangeEnd then n.lastIp + 1
    else n.rangeStart
  }

  ghost predicate HasFree(n: Network, db: Db) {
    exists a: Ip :: ReachableFrom(n) <= a <= n.rangeEnd && !Leased(db, a)
  }

  lemma {:induction false} NextFreeIff(n: Network, db: Db)
    requires ValidRange(n)
    ensures NextFree(n, db) != 0 <==> HasFree(n, db)
    ensures NextFree(n, db) != 0 ==> n.rangeStart <= NextFree(n, db) <= n.rangeEnd && !Leased(db, NextFree(n, db))
  {
    if n.rangeEnd < IP_MAX {
      NoneFreeIffAllLeased(n, db);
    } else {
      TopRangeIsNotCyclic(n, db);
      assert ReachableFrom(n) == SearchStart(n);
    }
  }

  lemma {:induction false} QuotientGrows(a: nat, b: nat, d: nat)
    requires a <= b && d > 0
    ensures a / d <= b / d
  {
    DivModAdd(a, b - a, d);
  }

  lemma {:induction false} BetweenInBlock(n: Network, a: Ip)
    requires RangeInside(n) && n.rangeStart <= a <= n.rangeEnd
    ensures InBlock(n, a)
  {
    var size := WORD32 - n.mask;
    QuotientGrows(n.rangeStart, a, size);
    QuotientGrows(a, n.rangeEnd, size);
  }

  /** The host entry is for the client, and its address in the network. */
  predicate ReservedIn(h: Host, mac: Mac, n: Network) {
    h.valid && h.mac == mac && InBlock(n, h.ip)
  }

  ghost predicate FirstReserved(hosts: seq<Host>, k: nat, mac: Mac, n: Network) {
    k < |hosts| && ReservedIn(hosts[k], mac, n) && forall j: nat :: j < k ==> !ReservedIn(hosts[j], mac, n)
  }

  lemma {:induction false} ReservedIffReserves(h: Host, mac: Mac, n: Network)
    requires WellMasked(n)
    ensures ReservedIn(h, mac, n) <==> ReservesFor(mac, n)(h)
  {
    MaskedIffInBlock(n, h.ip);
    MaskedIffInBlock(n, n.ip);
  }

  lemma {:induction false} FirstReservedIs(hosts: seq<Host>, mac: Mac, n: Network)
    requires WellMasked(n)
    ensures var r := FirstIndex(hosts, ReservesFor(mac, n));
            && (forall k: nat :: FirstReserved(hosts, k, mac, n) ==> r == Some(k))
            && (r.None? <==> forall k: nat :: k < |hosts| ==> !ReservedIn(hosts[k], mac, n))
  {
    forall j: nat | j < |hosts| ensures ReservedIn(hosts[j], mac, n) <==> ReservesFor(mac, n)(hosts[j]) {
      ReservedIffReserves(hosts[j], mac, n);
    }
  }

  /** The answer to a DISCOVER of a new client once the address `ip` in network `i` was picked for it. */
  lemma {:induction false} PickedIsOffered(s: State, now: nat, mac: Mac, tid: Word32, giaddr: Ip, ifIp: Ip, ifMask: Ip,
                                           i: nat, ip: Ip, n': Network)
    requires AllWellMasked(s.cfg) && mac !in s.db
    requires FirstIndex(s.cfg.networks, ServesClient(giaddr, ifIp, ifMask)) == Some(i)
    requires (ip, n') == AssignIp(s.cfg.networks[i], s.cfg.hosts, mac, s.db)
    requires ip != 0 ==> InBlock(s.cfg.networks[i], ip)
    ensures var (s', out) := Step(s, now, Discover(mac, tid, giaddr, ifIp, ifMask));
            var n := s.cfg.networks[i];
            s'.cfg == s.cfg.(networks := s.cfg.networks[i := n']) &&
            if ip != 0 && !Leased(s.db, ip) then
              && out == Offer(mac, ip, SecondsOf(n), n.mask)
              && s'.db == s.db[mac := LeaseRec(ip, n.mask, now + 20, SecondsOf(n), tid, false)]
            else out == Silent && s'.db == s.db
  {
    var n := s.cfg.networks[i];
    var s1 := AssignLease(s, now, mac, giaddr, ifIp, ifMask);
    assert s1.cfg == s.cfg.(networks := s.cfg.networks[i := n']);
    if ip != 0 && !Leased(s.db, ip) {
      MaskedIffInBlock(n, ip);
      assert ContainsLease(ip, n.mask)(s1.cfg.networks[i]);
      assert NetworkOf(s1.cfg, s1.db[mac]).Some?;
    }
  }

  /**
   A DISCOVER of a client without a lease and without a reserved address, served by network `i`, is
   answered by an offer if and only if an address of the range that the search reaches is free. The
   offer has a free address of the range and the terms of the network, and the next search goes on
   from that address; else nothing is sent.
   */
  lemma {:induction false} NewClientIsServed(s: State, now: nat, mac: Mac, tid: Word32, giaddr: Ip, ifIp: Ip,
                                             ifMask: Ip, i: nat)
    requires AllWellMasked(s.cfg) && mac !in s.db && FirstSuits(s.cfg, i, giaddr, ifIp, ifMask)
    requires RangeInside(s.cfg.networks[i])
    requires forall k: nat :: k < |s.cfg.hosts| ==> !ReservedIn(s.cfg.hosts[k], mac, s.cfg.networks[i])
    ensures var (s', out) := Step(s, now, Discover(mac, tid, giaddr, ifIp, ifMask));
            var n := s.cfg.networks[i];
            && (out.Offer? <==> HasFree(n, s.db))
            && (out.Offer? ==> n.rangeStart <= out.ip <= n.rangeEnd && !Leased(s.db, out.ip)
                               && out == Offer(mac, out.ip, SecondsOf(n), n.mask))
            && (!out.Offer? ==> out == Silent && s'.db == s.db)
            && s'.cfg == s.cfg.(networks := s.cfg.networks[i := n.(lastIp := if out.Offer? then out.ip else 0)])
  {
    var n := s.cfg.networks[i];
    FirstSuitsIsServing(s.cfg, i, giaddr, ifIp, ifMask);
    FirstReservedIs(s.cfg.hosts, mac, n);
    NextFreeIff(n, s.db);
    var ip := NextFree(n, s.db);
    if ip != 0 {
      BetweenInBlock(n, ip);
    }
    PickedIsOffered(s, now, mac, tid, giaddr, ifIp, ifMask, i, ip, n.(lastIp := ip));
  }

  /** A client with a reserved address in the network that serves it is offered that address unless it is leased. */
  lemma {:induction false} ReservedClientIsServed(s: State, now: nat, mac: Mac, tid: Word32, giaddr: Ip, ifIp: Ip,
                                                  ifMask: Ip, i: nat, k: nat)
    requires AllWellMasked(s.cfg) && mac !in s.db && FirstSuits(s.cfg, i, giaddr, ifIp, ifMask)
    requires FirstReserved(s.cfg.hosts, k, mac, s.cfg.networks[i])
    ensures var (s', out) := Step(s, now, Discover(mac, tid, giaddr, ifIp, ifMask));
            var n, ip := s.cfg.networks[i], s.cfg.hosts[k].ip;
            out == if ip != 0 && !Leased(s.db, ip) then Offer(mac, ip, SecondsOf(n), n.mask) else Silent
  {
    var n := s.cfg.networks[i];
    FirstSuitsIsServing(s.cfg, i, giaddr, ifIp, ifMask);
    FirstReservedIs(s.cfg.hosts, mac, n);
    PickedIsOffered(s, now, mac, tid, giaddr, ifIp, ifMask, i, s.cfg.hosts[k].ip, n);
  }

  /** A client no network serves, without a lease, gets no answer. */
  lemma {:induction false} UnservedClientIsIgnored(s: State, now: nat, mac: Mac, tid: Word32, giaddr: Ip, ifIp: Ip,
                                                   ifMask: Ip)
    requires AllWellMasked(s.cfg) && mac !in s.db
    requires forall j: nat :: j < |s.cfg.networks| ==> !Suits(s.cfg.networks[j], giaddr, ifIp, ifMask)
    ensures Step(s, now, Discover(mac, tid, giaddr, ifIp, ifMask)) == (s, Silent)
  {
    var r := FirstIndex(s.cfg.networks, ServesClient(giaddr, ifIp, ifMask));
    if r.Some? {
      SuitsIffServes(s.cfg.networks[r.value], giaddr, ifIp, ifMask);
    }
  }

  /** A client that has a lease is offered the same again, unless it cools down or no network contains it. */
  lemma {:induction false} KnownClientIsServed(s: State, now: nat, mac: Mac, tid: Word32, giaddr: Ip, ifIp: Ip,
                                               ifMask: Ip)
    requires AllWellMasked(s.cfg) && mac in s.db
    ensures var l := s.db[mac];
            Step(s, now, Discover(mac, tid, giaddr, ifIp, ifMask)) ==
            if !l.declined && Covered(s.cfg, l.ip, l.mask) then
              (s.(db := s.db[mac := l.(tid := tid)]), Offer(mac, l.ip, l.lease, l.mask))
            else (s, Silent)
  {
    NetworkOfIff(s.cfg, s.db[mac]);
  }

  // Declines and releases.

  /** What a DECLINE of a client does whose lease is `l`, as long as it is there. */
  lemma {:induction false} EffectOfDecline(s: State, now: nat, m: Mac, l: LeaseRec, tid: Word32, requested: Ip,
                                           ciaddr: Ip)
    requires l.ip != 0 && (m in s.db ==> s.db[m] == l)
    ensures Step(s, now, Decline(m, tid, requested, ciaddr)).0 ==
            if m in s.db && Names(requested, ciaddr, l.ip) && (l.tid == 0 || l.tid == tid) then
              s.(db := s.db[m := l.(declined := true)])
            else s
  {
  }

  /**
   After an acknowledgement and any run without messages of its client, a DECLINE under any
   transaction id that names the address starts the cooling time; one that names another changes
   nothing.
   */
  lemma {:induction false} AckedClientDeclines(s: State, now: nat, e: Event, between: seq<Input>, later: nat,
                                               tid: Word32, requested: Ip, ciaddr: Ip)
    requires Step(s, now, e).1.Ack?
    requires forall i :: 0 <= i < |between| ==> !NamesClient(between[i].event, Step(s, now, e).1.mac)
    ensures var (s1, o) := Step(s, now, e);
            var s2 := StateAfter(s1, between);
            var s3 := Step(s2, later, Decline(o.mac, tid, requested, ciaddr)).0;
            if Names(requested, ciaddr, o.ip) && !SweptBy(between, now + o.seconds) then
              o.mac in s2.db && s3 == s2.(db := s2.db[o.mac := s2.db[o.mac].(declined := true)])
            else s3 == s2
  {
    var (s1, o) := Step(s, now, e);
    AckLeavesLease(s, now, e);
    LeaseGoesWhenSwept(s1, between, o.mac);
    SweptByIff(between, now + o.seconds);
    EffectOfDecline(StateAfter(s1, between), later, o.mac, s1.db[o.mac], tid, requested, ciaddr);
  }

  /** What a RELEASE of a client does whose lease is `l`, as long as it is there. */
  lemma {:induction false} EffectOfRelease(s: State, now: nat, m: Mac, l: LeaseRec, ciaddr: Ip)
    requires AllWellMasked(s.cfg) && l.ip != 0 && (m in s.db ==> s.db[m] == l)
    ensures Step(s, now, Release(m, ciaddr)).0 ==
            if m in s.db && ciaddr == l.ip && l.tid == 0 && Covered(s.cfg, l.ip, l.mask) then
              s.(db := s.db[m := l.(tstamp := now + 20, lease := 20, declined := true)])
            else s
  {
    NetworkOfIff(s.cfg, l);
  }

  /**
   Likewise a RELEASE of the address, if a network still contains it, leaves the lease twenty
   seconds and marks it; any other RELEASE of that client changes nothing.
   */
  lemma {:induction false} AckedClientReleases(s: State, now: nat, e: Event, between: seq<Input>, later: nat,
                                               ciaddr: Ip)
    requires Step(s, now, e).1.Ack?
    requires forall i :: 0 <= i < |between| ==> !NamesClient(between[i].event, Step(s, now, e).1.mac)
    requires AllWellMasked(StateAfter(Step(s, now, e).0, between).cfg)
    ensures var (s1, o) := Step(s, now, e);
            var s2 := StateAfter(s1, between);
            var s3 := Step(s2, later, Release(o.mac, ciaddr)).0;
            if ciaddr == o.ip && !SweptBy(between, now + o.seconds) && Covered(s2.cfg, o.ip, o.mask) then
              && o.mac in s2.db
              && s3 == s2.(db := s2.db[o.mac := s2.db[o.mac].(tstamp := later + 20, lease := 20, declined := true)])
            else s3 == s2
  {
    var (s1, o) := Step(s, now, e);
    AckLeavesLease(s, now, e);
    LeaseGoesWhenSwept(s1, between, o.mac);
    SweptByIff(between, now + o.seconds);
    EffectOfRelease(StateAfter(s1, between), later, o.mac, s1.db[o.mac], ciaddr);
  }
}
