/**
 The lease database: every lease is linked into three hash tables, keyed by its
 MAC address, its IP address and its expiry time. `store` is the memory the leases
 live in, so that a pointer to a lease stays good exactly while the lease is allocated.
 */
module LeaseDb {
  import opened Common
  import opened Chains
  import opened KeyedStore
  import opened LeaseModel

  /** A lease in memory, keyed by its MAC address. */
  type Lease = Item<Mac, LeaseRec>

  datatype Tables = Tables(store: map<Ptr, Lease>, byMac: Links, byIp: Links, byTstamp: Links)

  datatype Shapes = Shapes(mac: Shape, ip: Shape, tstamp: Shape, owner: map<Mac, Ptr>)

  /** The three tables link exactly the allocated leases. */
  ghost predicate Linkage(t: Tables, g: Shapes) {
    && Rep(t.byMac, g.mac) && |t.byMac.heads| == MAC_HASH_MAX
    && Rep(t.byIp, g.ip) && |t.byIp.heads| == IP_HASH_MAX
    && Rep(t.byTstamp, g.tstamp) && |t.byTstamp.heads| == TSTAMP_HASH_MAX
    && g.mac.home.Keys == g.ip.home.Keys == g.tstamp.home.Keys == t.store.Keys
  }

  /** Every lease sits in the bucket of its current key. */
  ghost predicate Bucketed(store: map<Ptr, Lease>, mac: map<Ptr, nat>, ip: map<Ptr, nat>, tstamp: map<Ptr, nat>)
    requires mac.Keys == ip.Keys == tstamp.Keys == store.Keys
  {
    && (forall p {:trigger HashMac(store[p].key)} :: p in store ==> mac[p] == HashMac(store[p].key))
    && (forall p {:trigger HashIp(store[p].value.ip)} :: p in store ==> ip[p] == HashIp(store[p].value.ip))
    && (forall p {:trigger HashTstamp(store[p].value.tstamp)} ::
          p in store ==> tstamp[p] == HashTstamp(store[p].value.tstamp))
  }

  ghost predicate Consistent(t: Tables, g: Shapes) {
    && Linkage(t, g)
    && Bucketed(t.store, g.mac.home, g.ip.home, g.tstamp.home)
    && Owned(t.store, g.owner)
  }

  method LinkAll(t: Tables, ghost g: Shapes, at: Ptr, l: Lease) returns (t': Tables, ghost g': Shapes)
    requires Linkage(t, g) && at !in t.store && Bucketed(t.store, g.mac.home, g.ip.home, g.tstamp.home)
    ensures Linkage(t', g') && t'.store == t.store[at := l] && g'.owner == g.owner[l.key := at]
    ensures Bucketed(t'.store, g'.mac.home, g'.ip.home, g'.tstamp.home)
  {
    var byMac, macShape := Push(t.byMac, g.mac, HashMac(l.key), at);
    var byIp, ipShape := Push(t.byIp, g.ip, HashIp(l.value.ip), at);
    var byTstamp, tstampShape := Push(t.byTstamp, g.tstamp, HashTstamp(l.value.tstamp), at);
    t' := Tables(t.store[at := l], byMac, byIp, byTstamp);
    g' := Shapes(macShape, ipShape, tstampShape, g.owner[l.key := at]);
  }

  method UnlinkAll(t: Tables, ghost g: Shapes, p: Ptr) returns (t': Tables, ghost g': Shapes)
    requires Consistent(t, g) && p in t.store
    ensures Consistent(t', g') && t'.store == t.store - {p}
    ensures ViewOf(t'.store, g'.owner) == ViewOf(t.store, g.owner) - {t.store[p].key}
    ensures var b := g.tstamp.home[p];
            && b < TSTAMP_HASH_MAX && p in g.tstamp.chains[b]
            && g'.tstamp.chains == g.tstamp.chains[b := Without(g.tstamp.chains[b], IndexIn(g.tstamp.chains[b], p))]
  {
    ViewUnlink(t.store, g.owner, p);
    var l := t.store[p];
    var byMac, macShape := Unlink(t.byMac, g.mac, HashMac(l.key), p);
    var byIp, ipShape := Unlink(t.byIp, g.ip, HashIp(l.value.ip), p);
    var byTstamp, tstampShape := Unlink(t.byTstamp, g.tstamp, HashTstamp(l.value.tstamp), p);
    t' := Tables(t.store - {p}, byMac, byIp, byTstamp);
    g' := Shapes(macShape, ipShape, tstampShape, g.owner - {l.key});
  }

  /** Relinks lease `p` by the expiry time of `rec` and stores `rec`. */
  method Restamp(t: Tables, ghost g: Shapes, p: Ptr, rec: LeaseRec) returns (t': Tables, ghost g': Shapes)
    requires Consistent(t, g) && p in t.store && rec.ip == t.store[p].value.ip
    ensures var l := t.store[p];
            && Consistent(t', g') && t'.store == t.store[p := l.(value := rec)]
            && ViewOf(t'.store, g'.owner) == ViewOf(t.store, g.owner)[l.key := rec]
  {
    var l := t.store[p];
    ViewUpdate(t.store, g.owner, p, rec);
    var byTstamp, shape := Unlink(t.byTstamp, g.tstamp, HashTstamp(l.value.tstamp), p);
    byTstamp, shape := Push(byTstamp, shape, HashTstamp(rec.tstamp), p);
    t' := t.(store := t.store[p := l.(value := rec)], byTstamp := byTstamp);
    g' := g.(tstamp := shape);
  }

  /** What a tick leaves of the memory: the leases it does not sweep. */
  function Kept(store: map<Ptr, Lease>, now: nat): map<Ptr, Lease> {
    map p | p in store && !SweptAt(store[p].value.tstamp, now) :: store[p]
  }

  lemma InTstampChain(t: Tables, g: Shapes, p: Ptr)
    requires Consistent(t, g) && p in t.store
    ensures p in g.tstamp.chains[HashTstamp(t.store[p].value.tstamp)]
  {
    InChain(g.tstamp.chains, g.tstamp.home, p);
  }

  lemma InStore(t: Tables, g: Shapes, p: Ptr, b: nat)
    requires Consistent(t, g) && b < TSTAMP_HASH_MAX && p in g.tstamp.chains[b]
    ensures p in t.store && g.tstamp.home[p] == b && HashTstamp(t.store[p].value.tstamp) == b
  {
  }

  /** `s'` is part of `s`, and only leases the tick sweeps are missing. */
  ghost predicate SweptSoFar(s: map<Ptr, Lease>, s': map<Ptr, Lease>, now: nat) {
    && (forall p :: p in s' ==> p in s && s'[p] == s[p])
    && (forall p :: p in s && p !in s' ==> SweptAt(s[p].value.tstamp, now))
  }

  /** Unlinks `p`, which lies between `kept` and `rest` in its chain, if it has expired. */
  method SweepNode(t: Tables, ghost g: Shapes, p: Ptr, now: nat, ghost kept: seq<Ptr>, ghost rest: seq<Ptr>)
    returns (t': Tables, ghost g': Shapes, ghost kept': seq<Ptr>)
    requires Consistent(t, g) && g.tstamp.chains[HashTstamp(now)] == kept + [p] + rest
    ensures Consistent(t', g') && g'.tstamp.chains[HashTstamp(now)] == kept' + rest
    ensures p in t.store
    ensures var expired := t.store[p].value.tstamp <= now;
            && (expired ==> SweptAt(t.store[p].value.tstamp, now))
            && kept' == (if expired then kept else kept + [p])
            && t'.store == (if expired then t.store - {p} else t.store)
  {
    ghost var chain := g.tstamp.chains[HashTstamp(now)];
    assert chain[|kept|] == p;
    InStore(t, g, p, HashTstamp(now));
    t', g', kept' := t, g, kept + [p];
    if t.store[p].value.tstamp <= now {
      assert Distinct(chain);
      WithoutMiddle(chain, kept, p, rest);
      t', g' := UnlinkAll(t, g, p);
      kept' := kept;
    }
  }

  /** The nodes that a walk has passed and left in place. */
  ghost predicate NotExpired(kept: seq<Ptr>, store: map<Ptr, Lease>, now: nat) {
    forall p :: p in kept ==> p in store && store[p].value.tstamp > now
  }

  /** Moves on from node `p`, unlinking it once its link has been read if it has expired. */
  method SweepNext(t: Tables, ghost g: Shapes, p: Ptr, now: nat, ghost store: map<Ptr, Lease>,
                   ghost kept: seq<Ptr>, ghost rest: seq<Ptr>)
    returns (t': Tables, ghost g': Shapes, next: Option<Ptr>, ghost kept': seq<Ptr>)
    requires Consistent(t, g) && g.tstamp.chains[HashTstamp(now)] == kept + rest && HeadOf(rest) == Some(p)
    requires SweptSoFar(store, t.store, now) && NotExpired(kept, store, now)
    ensures Consistent(t', g') && g'.tstamp.chains[HashTstamp(now)] == kept' + rest[1..] && next == HeadOf(rest[1..])
    ensures SweptSoFar(store, t'.store, now) && NotExpired(kept', store, now)
  {
    SplitAt(g.tstamp.chains[HashTstamp(now)], kept, rest);
    next := Next(t.byTstamp, g.tstamp, p, HashTstamp(now), |kept|);
    t', g', kept' := SweepNode(t, g, p, now, kept, rest[1..]);
    SweptNext(store, t.store, now, p, kept);
  }

  lemma {:induction false} SweptNext(store: map<Ptr, Lease>, before: map<Ptr, Lease>, now: nat, p: Ptr, kept: seq<Ptr>)
    requires SweptSoFar(store, before, now) && NotExpired(kept, store, now) && p in before
    ensures SweptAt(before[p].value.tstamp, now) ==> SweptSoFar(store, before - {p}, now)
    ensures before[p].value.tstamp > now ==> NotExpired(kept + [p], store, now)
  {
  }

  /** Walks the one bucket of expiry times congruent to `now`, unlinking what has expired. */
  method SweepBucket(t: Tables, ghost g: Shapes, now: nat) returns (t': Tables, ghost g': Shapes)
    requires Consistent(t, g)
    ensures Consistent(t', g') && t'.store == Kept(t.store, now)
    ensures ViewOf(t'.store, g'.owner) == Sweep(ViewOf(t.store, g.owner), now)
  {
    var h := HashTstamp(now);
    t', g' := t, g;
    ghost var kept, rest := [], g.tstamp.chains[h];
    var ptr := First(t.byTstamp, g.tstamp, h);
    while ptr.Some?
      invariant Consistent(t', g')
      invariant ptr == HeadOf(rest) && g'.tstamp.chains[h] == kept + rest
      invariant SweptSoFar(t.store, t'.store, now)
      invariant NotExpired(kept, t.store, now)
      decreases |rest|
    {
      t', g', ptr, kept := SweepNext(t', g', ptr.value, now, t.store, kept, rest);
      rest := rest[1..];
    }
    SweepDone(t, g, t', g', now, kept);
  }

  lemma SweepDone(t: Tables, g: Shapes, t': Tables, g': Shapes, now: nat, kept: seq<Ptr>)
    requires Consistent(t, g) && Consistent(t', g') && SweptSoFar(t.store, t'.store, now)
    requires g'.tstamp.chains[HashTstamp(now)] == kept + []
    requires NotExpired(kept, t.store, now)
    ensures t'.store == Kept(t.store, now)
    ensures ViewOf(t'.store, g'.owner) == Sweep(ViewOf(t.store, g.owner), now)
  {
    forall p | p in t'.store ensures !SweptAt(t.store[p].value.tstamp, now) {
      if SweptAt(t.store[p].value.tstamp, now) {
        InTstampChain(t', g', p);
      }
    }
    ViewSweep(t.store, g.owner, t'.store, g'.owner, now);
  }

  lemma ViewSweep(s: map<Ptr, Lease>, o: map<Mac, Ptr>, s': map<Ptr, Lease>, o': map<Mac, Ptr>, now: nat)
    requires Owned(s, o) && Owned(s', o') && s' == Kept(s, now)
    ensures ViewOf(s', o') == Sweep(ViewOf(s, o), now)
  {
    var v, v' := Sweep(ViewOf(s, o), now), ViewOf(s', o');
    forall m ensures m in v <==> m in v' {
      if m in v {
        assert o[m] in s';
      }
    }
  }

  class LeaseTable {
    var tables: Tables
    ghost var shapes: Shapes

    /**
     Every live lease is reachable exactly once from each of the three tables, in the
     bucket of its current key, and no two live leases share a MAC or an IP address.
     */
    ghost predicate Valid()
      reads this
    {
      Consistent(tables, shapes) && UniqueIps(View())
    }

    /** The leases the tables stand for, as a value. */
    ghost function View(): Db
      reads this
    {
      ViewOf(tables.store, shapes.owner)
    }

    function At(p: Ptr): Lease
      requires p in tables.store
      reads this
    {
      tables.store[p]
    }

    constructor ()
      ensures Valid() && View() == map[]
    {
      new;
      var byMac, macShape := Empty(MAC_HASH_MAX);
      var byIp, ipShape := Empty(IP_HASH_MAX);
      var byTstamp, tstampShape := Empty(TSTAMP_HASH_MAX);
      tables := Tables(map[], byMac, byIp, byTstamp);
      shapes := Shapes(macShape, ipShape, tstampShape, map[]);
    }

    method FindMac(mac: Mac) returns (p: Option<Ptr>)
      requires Valid()
      ensures p.None? <==> mac !in View()
      ensures p.Some? ==> p.value in tables.store && At(p.value).key == mac && At(p.value).value == View()[mac]
    {
      var s := tables.store;
      p := Find(tables.byMac, shapes.mac, HashMac(mac), x => x in s && s[x].key == mac);
    }

    method FindIp(ip: Ip) returns (p: Option<Ptr>)
      requires Valid()
      ensures p.None? <==> !Leased(View(), ip)
      ensures p.Some? ==> p.value in tables.store && At(p.value).value.ip == ip
      ensures p.Some? ==> At(p.value).key in View() && At(p.value).value == View()[At(p.value).key]
    {
      var s := tables.store;
      p := Find(tables.byIp, shapes.ip, HashIp(ip), x => x in s && s[x].value.ip == ip);
      if p.Some? {
        assert View()[s[p.value].key].ip == ip;
      }
    }

    /**
     Adds a lease expiring at `tstamp`, unless its MAC or its IP is taken or it is
     already stale. `at` is the address the memory allocator provides.
     */
    method Add(mac: Mac, ip: Ip, tstamp: nat, now: nat, at: Ptr) returns (p: Option<Ptr>)
      requires Valid() && at !in tables.store
      modifies this
      ensures Valid()
      ensures p == (if mac in old(View()) || Leased(old(View()), ip) || tstamp < now then None else Some(at))
      ensures p.None? ==> View() == old(View())
      ensures p.Some? ==> at in tables.store && At(at) == Item(mac, LeaseRec(ip, 0, tstamp, 0, 0, false))
      ensures p.Some? ==> View() == old(View())[mac := At(at).value]
    {
      p := FindMac(mac);
      if p.Some? {
        return None;
      }
      p := FindIp(ip);
      if p.Some? || tstamp < now {
        return None;
      }
      UniqueIpsAdd(View(), mac, LeaseRec(ip, 0, tstamp, 0, 0, false));
      var l := Item(mac, LeaseRec(ip, 0, tstamp, 0, 0, false));
      ViewLink(tables.store, shapes.owner, at, l);
      tables, shapes := LinkAll(tables, shapes, at, l);
      p := Some(at);
    }

    method Delete(p: Ptr)
      requires Valid() && p in tables.store
      modifies this
      ensures Valid() && View() == old(View()) - {old(At(p)).key}
    {
      tables, shapes := UnlinkAll(tables, shapes, p);
    }

    /** Moves the lease to the bucket of its new expiry time, and stores its other fields. */
    method Renew(p: Ptr, rec: LeaseRec)
      requires Valid() && p in tables.store && rec.ip == At(p).value.ip
      modifies this
      ensures Valid() && p in tables.store && At(p) == old(At(p)).(value := rec)
      ensures View() == old(View())[At(p).key := rec]
    {
      UniqueIpsUpdate(View(), At(p).key, rec);
      tables, shapes := Restamp(tables, shapes, p, rec);
    }

    /** Assigns the fields of a lease that no table is keyed by. */
    method Set(p: Ptr, rec: LeaseRec)
      requires Valid() && p in tables.store
      requires rec.ip == At(p).value.ip && rec.tstamp == At(p).value.tstamp
      modifies this
      ensures Valid() && p in tables.store
      ensures At(p) == old(At(p)).(value := rec)
      ensures View() == old(View())[At(p).key := rec]
    {
      ViewUpdate(tables.store, shapes.owner, p, rec);
      UniqueIpsUpdate(View(), At(p).key, rec);
      tables := tables.(store := tables.store[p := tables.store[p].(value := rec)]);
    }

    method Timeout(now: nat)
      requires Valid()
      modifies this
      ensures Valid() && View() == Sweep(old(View()), now)
    {
      tables, shapes := SweepBucket(tables, shapes, now);
    }
  }
}
