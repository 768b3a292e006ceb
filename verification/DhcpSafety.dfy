/** What the DHCP server keeps over whole runs. */
module DhcpSafety {
  import opened LeaseModel
  import opened DhcpModel

  datatype Input = Input(now: nat, event: Event)

  ghost function StateAfter(s: State, ins: seq<Input>): State {
    if ins == [] then s
    else
      var last := ins[|ins| - 1];
      Step(StateAfter(s, ins[..|ins| - 1]), last.now, last.event).0
  }

  /** The answer to the last input of a run. */
  ghost function LastOutput(s: State, ins: seq<Input>): Output
    requires ins != []
  {
    var last := ins[|ins| - 1];
    Step(StateAfter(s, ins[..|ins| - 1]), last.now, last.event).1
  }

  ghost predicate Monotone(ins: seq<Input>) {
    forall i, j :: 0 <= i < j < |ins| ==> ins[i].now <= ins[j].now
  }

  /**
   Until when the messages exchanged so far entitle `m` to use `ip`: the expiry of its
   latest acknowledgement, cut to twenty seconds once it sent a release. This looks only
   at the messages, never at the server's database.
   */
  ghost function PromisedUntil(s: State, ins: seq<Input>, m: Mac, ip: Ip): nat {
    if ins == [] then 0
    else
      var last := ins[|ins| - 1];
      var before := PromisedUntil(s, ins[..|ins| - 1], m, ip);
      var out := LastOutput(s, ins);
      if out.Ack? && out.mac == m && out.ip == ip then last.now + out.seconds
      else if last.event == Release(m, ip) && last.now + OFFER_LEASE_TIME < before then last.now + OFFER_LEASE_TIME
      else before
  }

  /** Every promise that is still running is backed by a lease that outlives it. */
  ghost predicate Backed(s: State, ins: seq<Input>, now: nat) {
    var db := StateAfter(s, ins).db;
    forall m, ip {:trigger PromisedUntil(s, ins, m, ip)} :: PromisedUntil(s, ins, m, ip) > now ==>
      m in db && db[m].ip == ip && PromisedUntil(s, ins, m, ip) <= db[m].tstamp
  }

  lemma {:induction false} RunKeepsInv(s: State, ins: seq<Input>)
    requires Inv(s.db)
    ensures Inv(StateAfter(s, ins).db)
  {
    if ins != [] {
      var last := ins[|ins| - 1];
      RunKeepsInv(s, ins[..|ins| - 1]);
      StepKeepsInv(StateAfter(s, ins[..|ins| - 1]), last.now, last.event);
    }
  }

  /** A lease that has not expired stays with its client; only that client moves its expiry. */
  lemma StepKeepsLease(s: State, now: nat, e: Event, m: Mac)
    requires m in s.db && s.db[m].tstamp > now
    ensures var (s', out) := Step(s, now, e);
            && m in s'.db && s'.db[m].ip == s.db[m].ip
            && (|| s'.db[m].tstamp == s.db[m].tstamp
                || (e == Release(m, s.db[m].ip) && s'.db[m].tstamp == now + OFFER_LEASE_TIME)
                || (out.Ack? && out.mac == m && out.ip == s.db[m].ip))
  {
  }

  lemma AckRestamps(s: State, now: nat, e: Event)
    requires Step(s, now, e).1.Ack?
    ensures var (s', out) := Step(s, now, e);
            out.mac in s'.db && s'.db[out.mac].ip == out.ip && s'.db[out.mac].tstamp == now + out.seconds
  {
  }

  lemma {:induction false} PromisesAreBacked(s: State, ins: seq<Input>, now: nat)
    requires Monotone(ins) && (ins != [] ==> ins[|ins| - 1].now <= now)
    ensures Backed(s, ins, now)
  {
    if ins != [] {
      var last := ins[|ins| - 1];
      var prior := ins[..|ins| - 1];
      PromisesAreBacked(s, prior, last.now);
      forall m, ip | PromisedUntil(s, ins, m, ip) > now
        ensures var db := StateAfter(s, ins).db;
                m in db && db[m].ip == ip && PromisedUntil(s, ins, m, ip) <= db[m].tstamp
      {
        var out := LastOutput(s, ins);
        if out.Ack? && out.mac == m && out.ip == ip {
          AckRestamps(StateAfter(s, prior), last.now, last.event);
        } else {
          assert PromisedUntil(s, prior, m, ip) > last.now;
          StepKeepsLease(StateAfter(s, prior), last.now, last.event, m);
        }
      }
    }
  }

  /**
   No address in use by two clients: while `m` is entitled to `ip`, the server neither
   acknowledges nor offers `ip` to anyone else. The run may reconfigure the server
   at will and may start from any database in which addresses are not shared.
   */
  lemma NoDoubleGrant(s: State, ins: seq<Input>, m: Mac, ip: Ip)
    requires Inv(s.db) && Monotone(ins) && ins != []
    requires LastOutput(s, ins).Ack? || LastOutput(s, ins).Offer?
    requires LastOutput(s, ins).mac != m && LastOutput(s, ins).ip == ip
    ensures PromisedUntil(s, ins[..|ins| - 1], m, ip) <= ins[|ins| - 1].now
  {
    var last := ins[|ins| - 1];
    var prior := ins[..|ins| - 1];
    RunKeepsInv(s, prior);
    RunKeepsInv(s, ins);
    PromisesAreBacked(s, prior, last.now);
    if PromisedUntil(s, prior, m, ip) > last.now {
      StepKeepsLease(StateAfter(s, prior), last.now, last.event, m);
      GrantHasLease(StateAfter(s, prior), last.now, last.event);
    }
  }

  lemma GrantHasLease(s: State, now: nat, e: Event)
    requires Step(s, now, e).1.Ack? || Step(s, now, e).1.Offer?
    ensures var (s', out) := Step(s, now, e);
            out.mac in s'.db && s'.db[out.mac].ip == out.ip
  {
  }

  /** The lease of `m` is there from the first to the last state of the run. */
  ghost predicate StaysLeased(s: State, ins: seq<Input>, m: Mac) {
    forall i {:trigger ins[..i]} :: 0 <= i <= |ins| ==> m in StateAfter(s, ins[..i]).db
  }

  /**
   A lease that was declined or released cools down: as long as it is in the database its
   client gets no offer, whatever else happens.
   */
  lemma {:induction false} DeclinedCoolsDown(s: State, ins: seq<Input>, m: Mac)
    requires m in s.db && s.db[m].declined && StaysLeased(s, ins, m)
    ensures m in StateAfter(s, ins).db && StateAfter(s, ins).db[m].declined
    ensures ins != [] && ins[|ins| - 1].event.Discover? && ins[|ins| - 1].event.mac == m ==>
              LastOutput(s, ins) == Silent
  {
    assert ins[..|ins|] == ins;
    if ins != [] {
      var prior := ins[..|ins| - 1];
      assert StaysLeased(s, prior, m) by {
        forall i | 0 <= i <= |prior| ensures m in StateAfter(s, prior[..i]).db {
          assert prior[..i] == ins[..i];
        }
      }
      DeclinedCoolsDown(s, prior, m);
    }
  }

  /** A decline or a release that is accepted starts such a time. */
  lemma {:induction false} DeclineStartsCooling(s: State, now: nat, e: Event, m: Mac)
    requires m in s.db && Step(s, now, e).0 != s
    requires (e.Decline? || e.Release?) && e.mac == m
    ensures m in Step(s, now, e).0.db && Step(s, now, e).0.db[m].declined
  {
  }

  // Expiry.

  ghost predicate NamesClient(e: Event, m: Mac) {
    !e.Tick? && !e.Configure? && e.mac == m
  }

  ghost predicate Swept(ins: seq<Input>, tstamp: nat) {
    exists i :: 0 <= i < |ins| && ins[i].event.Tick? && SweptAt(tstamp, ins[i].now)
  }

  lemma StepWithoutClient(s: State, now: nat, e: Event, m: Mac)
    requires !NamesClient(e, m)
    ensures var db := Step(s, now, e).0.db;
            && (m in db <==> m in s.db && !(e.Tick? && SweptAt(s.db[m].tstamp, now)))
            && (m in db ==> db[m] == s.db[m])
  {
  }

  lemma SweptStep(ins: seq<Input>, tstamp: nat)
    requires ins != []
    ensures var last := ins[|ins| - 1];
            Swept(ins, tstamp) <==> Swept(ins[..|ins| - 1], tstamp) || (last.event.Tick? && SweptAt(tstamp, last.now))
  {
    var prior := ins[..|ins| - 1];
    if Swept(prior, tstamp) {
      var i :| 0 <= i < |prior| && prior[i].event.Tick? && SweptAt(tstamp, prior[i].now);
      assert ins[i] == prior[i];
    }
    if Swept(ins, tstamp) {
      var i :| 0 <= i < |ins| && ins[i].event.Tick? && SweptAt(tstamp, ins[i].now);
      assert i < |prior| ==> prior[i] == ins[i];
    }
  }

  /**
   With ticks skipped at will: the lease of a silent client goes at the first tick that is
   neither before its expiry nor in another bucket, and not before.
   */
  lemma {:induction false} LeaseGoesWhenSwept(s: State, ins: seq<Input>, m: Mac)
    requires m in s.db && forall i :: 0 <= i < |ins| ==> !NamesClient(ins[i].event, m)
    ensures m in StateAfter(s, ins).db <==> !Swept(ins, s.db[m].tstamp)
    ensures m in StateAfter(s, ins).db ==> StateAfter(s, ins).db[m] == s.db[m]
  {
    if ins != [] {
      var last := ins[|ins| - 1];
      var prior := ins[..|ins| - 1];
      assert forall i :: 0 <= i < |prior| ==> prior[i] == ins[i];
      LeaseGoesWhenSwept(s, prior, m);
      SweptStep(ins, s.db[m].tstamp);
      StepWithoutClient(StateAfter(s, prior), last.now, last.event, m);
    }
  }

  /** The answer to a REQUEST for the address of a lease, under the transaction id it records. */
  lemma RequestForLease(s: State, now: nat, m: Mac, l: LeaseRec)
    requires l.ip != 0 && (m in s.db ==> s.db[m] == l)
    ensures var (s', a) := Step(s, now, Request(m, l.tid, l.ip, 0));
            && (a.Ack? <==> m in s.db && NetworkOf(s.cfg, l).Some?)
            && (a.Ack? ==> a == Ack(m, l.ip, a.seconds, l.mask)
                           && s'.db[m] == l.(tid := 0, tstamp := now + a.seconds, lease := a.seconds))
  {
    assert NetworkOf(s.cfg, l.(tid := 0)) == NetworkOf(s.cfg, l);
  }

  lemma OfferHasLease(s: State, now: nat, offer: Event)
    requires Inv(s.db) && offer.Discover? && Step(s, now, offer).1.Offer?
    ensures var (s', o) := Step(s, now, offer);
            && o.mac == offer.mac && o.mac in s'.db && o.ip != 0
            && s'.db[o.mac].ip == o.ip && s'.db[o.mac].mask == o.mask && s'.db[o.mac].tid == offer.tid
            && (if o.mac in s.db then s'.db[o.mac] == s.db[o.mac].(tid := offer.tid)
                else s'.db[o.mac].tstamp == now + OFFER_LEASE_TIME)
  {
    StepKeepsInv(s, now, offer);
  }

  /**
   An offer is good as long as its lease lasts, whatever else happens in between, reconfiguration
   included: the client that asks for it with the offer's transaction id is acknowledged, with the
   same address and mask, if and only if the lease was not swept and a network still contains it.
   It is not swept before its expiry, which is twenty seconds away for a client without a lease.
   */
  lemma OfferThenRequest(s: State, now: nat, offer: Event, between: seq<Input>, later: nat)
    requires Inv(s.db) && offer.Discover? && Step(s, now, offer).1.Offer?
    requires forall i :: 0 <= i < |between| ==> !NamesClient(between[i].event, offer.mac)
    ensures var (s1, o) := Step(s, now, offer);
            var s2 := StateAfter(s1, between);
            var (s3, a) := Step(s2, later, Request(offer.mac, offer.tid, o.ip, 0));
            && o.mac == offer.mac && o.ip != 0 && o.mac in s1.db
            && (a.Ack? <==> !Swept(between, s1.db[o.mac].tstamp) && NetworkOf(s2.cfg, s1.db[o.mac]).Some?)
            && (a.Ack? ==> a == Ack(o.mac, o.ip, a.seconds, o.mask)
                           && s3.db[o.mac].tstamp == later + a.seconds && s3.db[o.mac].tid == 0)
            && ((forall i :: 0 <= i < |between| ==> between[i].now < s1.db[o.mac].tstamp) ==>
                  !Swept(between, s1.db[o.mac].tstamp))
            && (o.mac !in s.db ==> s1.db[o.mac].tstamp == now + OFFER_LEASE_TIME)
  {
    var (s1, o) := Step(s, now, offer);
    OfferHasLease(s, now, offer);
    var l := s1.db[o.mac];
    LeaseGoesWhenSwept(s1, between, o.mac);
    RequestForLease(StateAfter(s1, between), later, o.mac, l);
  }

  ghost predicate PositiveLeases(cfg: Config) {
    forall i :: 0 <= i < |cfg.networks| ==> LeaseSeconds(cfg.networks[i]) > 0
  }

  /** The time of the latest tick of a run that began at `from`. */
  ghost function LastTick(from: nat, ins: seq<Input>): nat {
    if ins == [] then from
    else if ins[|ins| - 1].event.Tick? then ins[|ins| - 1].now
    else LastTick(from, ins[..|ins| - 1])
  }

  /** No second passes without a tick, and messages come at or after the latest tick. */
  ghost predicate TicksEverySecond(from: nat, ins: seq<Input>) {
    ins == [] ||
    (var last := ins[|ins| - 1];
     var prior := ins[..|ins| - 1];
     && TicksEverySecond(from, prior)
     && LastTick(from, prior) <= last.now
     && (last.event.Tick? ==> last.now <= LastTick(from, prior) + 1)
     && (last.event.Configure? ==> PositiveLeases(last.event.cfg)))
  }

  ghost predicate AllExpireAfter(db: Db, t: nat) {
    forall m :: m in db ==> db[m].tstamp > t
  }

  /**
   With a tick every second no expired lease survives a tick, although each tick
   visits only one of the 256 buckets.
   */
  lemma {:induction false} NoExpiredLeaseSurvives(s: State, from: nat, ins: seq<Input>)
    requires PositiveLeases(s.cfg) && TicksEverySecond(from, ins) && AllExpireAfter(s.db, from)
    ensures PositiveLeases(StateAfter(s, ins).cfg)
    ensures AllExpireAfter(StateAfter(s, ins).db, LastTick(from, ins))
  {
    if ins != [] {
      var last := ins[|ins| - 1];
      var prior := ins[..|ins| - 1];
      NoExpiredLeaseSurvives(s, from, prior);
      StepKeepsPositive(StateAfter(s, prior), last.now, last.event);
      if last.event.Tick? {
        SweepIsComplete(StateAfter(s, prior).db, LastTick(from, prior), last.now);
      } else {
        StepExpiresLater(StateAfter(s, prior), LastTick(from, prior), last.now, last.event);
      }
    }
  }

  lemma StepKeepsPositive(s: State, now: nat, e: Event)
    requires PositiveLeases(s.cfg) && (e.Configure? ==> PositiveLeases(e.cfg))
    ensures PositiveLeases(Step(s, now, e).0.cfg)
  {
    if e.Discover? {
      var s1 := AssignLease(s, now, e.mac, e.giaddr, e.ifIp, e.ifMask);
      assert |s1.cfg.networks| == |s.cfg.networks|;
      forall i | 0 <= i < |s1.cfg.networks| ensures LeaseSeconds(s1.cfg.networks[i]) > 0 {
        assert LeaseSeconds(s1.cfg.networks[i]) == LeaseSeconds(s.cfg.networks[i]);
      }
    }
  }

  lemma SweepIsComplete(db: Db, tick: nat, now: nat)
    requires AllExpireAfter(db, tick) && tick <= now <= tick + 1
    ensures AllExpireAfter(Sweep(db, now), now)
  {
  }

  lemma StepExpiresLater(s: State, tick: nat, now: nat, e: Event)
    requires PositiveLeases(s.cfg) && tick <= now && !e.Tick? && AllExpireAfter(s.db, tick)
    ensures AllExpireAfter(Step(s, now, e).0.db, tick)
  {
    var db := Step(s, now, e).0.db;
    forall m | m in db ensures db[m].tstamp > tick {
      if NamesClient(e, m) {
        if m in s.db {
          if e.Request? && Step(s, now, e).1.Ack? {
            AckRestamps(s, now, e);
          }
        }
      } else {
        StepWithoutClient(s, now, e, m);
      }
    }
  }

  /**
   The positive lease time is needed, exactly: an acknowledged lease outlives its expiry
   past the next tick if and only if it was granted for zero seconds.
   */
  lemma OnlyZeroLeasesOutliveTheirTick(s: State, now: nat, e: Event)
    requires Step(s, now, e).1.Ack?
    ensures var (s1, out) := Step(s, now, e);
            var db := Step(s1, now + 1, Tick).0.db;
            (out.mac in db && db[out.mac].tstamp <= now + 1) <==> out.seconds == 0
  {
    AckRestamps(s, now, e);
  }
}
