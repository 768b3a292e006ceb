/**
 The request queue of the DNS proxy: a fixed pool of records, each linked into the list of
 active or of inactive requests by the same link field.
 */
module DnsQueue {
  import opened Common
  import opened Chains
  import opened DnsModel

  const ACTIVE: nat := 0
  const INACTIVE: nat := 1

  datatype Pool = Pool(links: Links, reqs: map<Ptr, Req>)

  /** The requests at the addresses of `c`, in order. */
  ghost function Pends(c: seq<Ptr>, reqs: map<Ptr, Req>, serials: map<Ptr, nat>): (r: seq<Pending>)
    requires reqs.Keys == serials.Keys && forall i :: 0 <= i < |c| ==> c[i] in reqs
    ensures |r| == |c|
  {
    seq(|c|, i requires 0 <= i < |c| => Pending(serials[c[i]], reqs[c[i]]))
  }

  /** Every record of the pool is in exactly one of the two lists. */
  ghost predicate Consistent(t: Pool, s: Shape, serials: map<Ptr, nat>) {
    && Rep(t.links, s) && |t.links.heads| == 2
    && s.home.Keys == t.reqs.Keys == serials.Keys
  }

  ghost function ViewOf(t: Pool, s: Shape, serials: map<Ptr, nat>): seq<Pending>
    requires Consistent(t, s, serials)
  {
    ChainInPool(t, s, serials, ACTIVE);
    Pends(s.chains[ACTIVE], t.reqs, serials)
  }

  lemma {:induction false} ChainInPool(t: Pool, s: Shape, serials: map<Ptr, nat>, b: nat)
    requires Consistent(t, s, serials) && b < 2
    ensures forall i :: 0 <= i < |s.chains[b]| ==> s.chains[b][i] in t.reqs && s.home[s.chains[b][i]] == b
    ensures Distinct(s.chains[b])
  {
    forall i | 0 <= i < |s.chains[b]| ensures s.chains[b][i] in t.reqs && s.home[s.chains[b][i]] == b {
      assert s.chains[b][i] in s.chains[b];
    }
  }

  /** Moves record `p` from one list to the front of the other. */
  method Move(t: Pool, ghost s: Shape, ghost serials: map<Ptr, nat>, p: Ptr, from: nat, target: nat)
    returns (t': Pool, ghost s': Shape)
    requires Consistent(t, s, serials) && from < 2 && target < 2 && from != target
    requires p in s.home && s.home[p] == from
    ensures Consistent(t', s', serials) && t'.reqs == t.reqs
    ensures p in s.chains[from]
    ensures s'.chains[from] == Without(s.chains[from], IndexIn(s.chains[from], p))
    ensures s'.chains[target] == [p] + s.chains[target] && s'.home == s.home[p := target]
  {
    var links, shape := Unlink(t.links, s, from, p);
    links, shape := Push(links, shape, target, p);
    t', s' := t.(links := links), shape;
  }

  lemma {:induction false} PendsWithout(c: seq<Ptr>, k: nat, reqs: map<Ptr, Req>, serials: map<Ptr, nat>)
    requires reqs.Keys == serials.Keys && k < |c| && forall i :: 0 <= i < |c| ==> c[i] in reqs
    ensures forall i :: 0 <= i < |Without(c, k)| ==> Without(c, k)[i] in reqs
    ensures Pends(Without(c, k), reqs, serials) == Without(Pends(c, reqs, serials), k)
  {
  }

  lemma {:induction false} IndexIsUnique(c: seq<Ptr>, k: nat)
    requires Distinct(c) && k < |c|
    ensures c[k] in c && IndexIn(c, c[k]) == k
  {
    assert c[k] in c;
  }

  class RequestQueue {
    var pool: Pool
    ghost var shape: Shape
    ghost var serials: map<Ptr, nat>

    ghost predicate Valid()
      reads this
    {
      Consistent(pool, shape, serials) && |pool.reqs| == MAX_REQ
    }

    ghost function View(): seq<Pending>
      requires Valid()
      reads this
    {
      ViewOf(pool, shape, serials)
    }

    constructor ()
      ensures Valid() && View() == []
    {
      new;
      var links, s := Empty(2);
      var blank := Req(0, 0, [], 0, 0, 0, 0, 0);
      var reqs: map<Ptr, Req> := map[];
      serials := map[];
      var i := 0;
      while i < MAX_REQ
        invariant 0 <= i <= MAX_REQ
        invariant Rep(links, s) && |links.heads| == 2 && s.chains[ACTIVE] == []
        invariant s.home.Keys == reqs.Keys == serials.Keys && |reqs| == i
        invariant forall p :: p in reqs ==> p < i
      {
        links, s := Push(links, s, INACTIVE, i);
        reqs, serials := reqs[i := blank], serials[i := 0];
        i := i + 1;
      }
      pool, shape := Pool(links, reqs), s;
    }

    /** The active request with the given id, and its place in the list. */
    method Find(tid: Word16) returns (p: Option<Ptr>, ghost k: nat)
      requires Valid()
      ensures p.None? <==> FindTid(View(), tid).None?
      ensures p.Some? ==> p.value in pool.reqs && shape.home[p.value] == ACTIVE
      ensures p.Some? ==> k < |shape.chains[ACTIVE]| && shape.chains[ACTIVE][k] == p.value
                          && FindTid(View(), tid) == Some(k)
                          && View()[k] == Pending(serials[p.value], pool.reqs[p.value])
    {
      ghost var c, view := shape.chains[ACTIVE], View();
      ChainInPool(pool, shape, serials, ACTIVE);
      k := 0;
      p := First(pool.links, shape, ACTIVE);
      while p.Some?
        invariant 0 <= k <= |c| && p == HeadOf(c[k..])
        invariant forall j :: 0 <= j < k ==> view[j].req.newTid != tid
        decreases |c| - k
      {
        assert view[k] == Pending(serials[p.value], pool.reqs[p.value]);
        if pool.reqs[p.value].newTid == tid {
          FindTidIs(view, tid, k);
          return;
        }
        p := Next(pool.links, shape, p.value, ACTIVE, k);
        k := k + 1;
      }
    }

    /** Takes a record from the inactive list, fills it and makes it active; fails when none is left. */
    method Enqueue(r: Req, ghost serial: nat) returns (ok: bool)
      requires Valid()
      modifies this
      ensures Valid() && ok == (|old(View())| < MAX_REQ)
      ensures View() == if ok then [Pending(serial, r)] + old(View()) else old(View())
    {
      ListsMakePool(pool, shape, serials);
      var p := First(pool.links, shape, INACTIVE);
      if p.None? {
        return false;
      }
      ChainInPool(pool, shape, serials, INACTIVE);
      ChainInPool(pool, shape, serials, ACTIVE);
      ghost var c := shape.chains[ACTIVE];
      assert p.value == shape.chains[INACTIVE][0];
      PendsElsewhere(c, pool.reqs, serials, p.value, r, serial);
      var t, s := Move(pool, shape, serials, p.value, INACTIVE, ACTIVE);
      pool, shape := t.(reqs := t.reqs[p.value := r]), s;
      serials := serials[p.value := serial];
      assert View() == [Pending(serial, r)] + Pends(c, pool.reqs, serials);
      return true;
    }

    /** Retires an active request: its record goes back to the inactive list. */
    method Retire(p: Ptr, ghost k: nat)
      requires Valid() && p in pool.reqs && k < |shape.chains[ACTIVE]| && shape.chains[ACTIVE][k] == p
      modifies this
      ensures Valid() && k < |old(View())| && View() == Without(old(View()), k)
    {
      ChainInPool(pool, shape, serials, ACTIVE);
      IndexIsUnique(shape.chains[ACTIVE], k);
      PendsWithout(shape.chains[ACTIVE], k, pool.reqs, serials);
      pool, shape := Move(pool, shape, serials, p, ACTIVE, INACTIVE);
    }

    /** Retires every active request. */
    method ClearAll()
      requires Valid()
      modifies this
      ensures Valid() && View() == []
    {
      var p := First(pool.links, shape, ACTIVE);
      while p.Some?
        invariant Valid() && p == HeadOf(shape.chains[ACTIVE])
        decreases |shape.chains[ACTIVE]|
      {
        assert shape.chains[ACTIVE][0] == p.value;
        ChainInPool(pool, shape, serials, ACTIVE);
        Retire(p.value, 0);
        p := First(pool.links, shape, ACTIVE);
      }
    }

    /** Ages the active requests by a second and retires those that waited too long. */
    method Timer()
      requires Valid()
      modifies this
      ensures Valid() && View() == Aged(old(View()))
    {
      pool, shape := AgeList(pool, shape, serials);
    }
  }

  /** Walks the active list once, reading each link before its node can be moved. */
  method AgeList(t: Pool, ghost s: Shape, ghost serials: map<Ptr, nat>) returns (t': Pool, ghost s': Shape)
    requires Consistent(t, s, serials)
    ensures Consistent(t', s', serials) && |t'.reqs| == |t.reqs|
    ensures ViewOf(t', s', serials) == Aged(ViewOf(t, s, serials))
  {
    ghost var total := Aged(ViewOf(t, s, serials));
    ghost var kept, rest := [], s.chains[ACTIVE];
    t', s' := t, s;
    AllToAge(t, s, serials, total);
    var p := First(t.links, s, ACTIVE);
    while p.Some?
      invariant Consistent(t', s', serials) && |t'.reqs| == |t.reqs|
      invariant p == HeadOf(rest) && s'.chains[ACTIVE] == kept + rest
      invariant InPool(kept, t'.reqs) && InPool(rest, t'.reqs)
      invariant Pends(kept, t'.reqs, serials) + Aged(Pends(rest, t'.reqs, serials)) == total
      decreases |rest|
    {
      t', s', p, kept := AgeNext(t', s', serials, p.value, kept, rest);
      rest := rest[1..];
    }
    AllAged(t', s', serials, kept, total);
  }

  lemma {:induction false} AllToAge(t: Pool, s: Shape, serials: map<Ptr, nat>, total: seq<Pending>)
    requires Consistent(t, s, serials) && total == Aged(ViewOf(t, s, serials))
    ensures InPool(s.chains[ACTIVE], t.reqs) && s.chains[ACTIVE] == [] + s.chains[ACTIVE]
    ensures Pends([], t.reqs, serials) + Aged(Pends(s.chains[ACTIVE], t.reqs, serials)) == total
  {
    ChainInPool(t, s, serials, ACTIVE);
    assert Pends([], t.reqs, serials) == [] && [] + total == total;
  }

  lemma {:induction false} AllAged(t: Pool, s: Shape, serials: map<Ptr, nat>, kept: seq<Ptr>, total: seq<Pending>)
    requires Consistent(t, s, serials) && s.chains[ACTIVE] == kept + [] && InPool(kept, t.reqs)
    requires Pends(kept, t.reqs, serials) + Aged(Pends([], t.reqs, serials)) == total
    ensures ViewOf(t, s, serials) == total
  {
    assert kept + [] == kept && Pends([], t.reqs, serials) == [];
  }

  /** Moves on from the record `p`, ageing it once its link has been read. */
  method AgeNext(t: Pool, ghost s: Shape, ghost serials: map<Ptr, nat>, p: Ptr, ghost kept: seq<Ptr>,
                 ghost rest: seq<Ptr>)
    returns (t': Pool, ghost s': Shape, next: Option<Ptr>, ghost kept': seq<Ptr>)
    requires Consistent(t, s, serials) && s.chains[ACTIVE] == kept + rest && HeadOf(rest) == Some(p)
    requires InPool(kept, t.reqs) && InPool(rest, t.reqs)
    ensures Consistent(t', s', serials) && |t'.reqs| == |t.reqs| && next == HeadOf(rest[1..])
    ensures s'.chains[ACTIVE] == kept' + rest[1..] && InPool(kept', t'.reqs) && InPool(rest[1..], t'.reqs)
    ensures Pends(kept', t'.reqs, serials) + Aged(Pends(rest[1..], t'.reqs, serials))
            == Pends(kept, t.reqs, serials) + Aged(Pends(rest, t.reqs, serials))
  {
    SplitAt(s.chains[ACTIVE], kept, rest);
    next := Next(t.links, s, p, ACTIVE, |kept|);
    AgedOfPends(rest, t.reqs, serials);
    t', s', kept' := AgeOne(t, s, serials, p, kept, rest[1..]);
  }

  ghost predicate InPool(c: seq<Ptr>, reqs: map<Ptr, Req>) {
    forall i :: 0 <= i < |c| ==> c[i] in reqs
  }

  /** What a second leaves of one request. */
  ghost function AgedOne(p: Pending): seq<Pending> {
    if p.req.ttl <= 1 then [] else [p.(req := p.req.(ttl := p.req.ttl - 1))]
  }

  /** Ages the record `p` in the middle of the active list: it counts down or is retired. */
  method AgeOne(t: Pool, ghost s: Shape, ghost serials: map<Ptr, nat>, p: Ptr, ghost kept: seq<Ptr>,
                ghost rest: seq<Ptr>)
    returns (t': Pool, ghost s': Shape, ghost kept': seq<Ptr>)
    requires Consistent(t, s, serials) && s.chains[ACTIVE] == kept + [p] + rest
    requires InPool(kept, t.reqs) && p in t.reqs && InPool(rest, t.reqs)
    ensures Consistent(t', s', serials) && |t'.reqs| == |t.reqs|
    ensures s'.chains[ACTIVE] == kept' + rest && InPool(kept', t'.reqs) && InPool(rest, t'.reqs)
    ensures Pends(kept', t'.reqs, serials) == Pends(kept, t.reqs, serials) + AgedOne(Pending(serials[p], t.reqs[p]))
    ensures Pends(rest, t'.reqs, serials) == Pends(rest, t.reqs, serials)
  {
    var r := t.reqs[p];
    ChainInPool(t, s, serials, ACTIVE);
    assert s.chains[ACTIVE][|kept|] == p;
    assert Distinct(kept + [p] + rest);
    if r.ttl <= 1 {
      IndexIsUnique(s.chains[ACTIVE], |kept|);
      t', s' := Move(t, s, serials, p, ACTIVE, INACTIVE);
      kept' := kept;
      assert s'.chains[ACTIVE] == kept + rest;
    } else {
      t', s' := t.(reqs := t.reqs[p := r.(ttl := r.ttl - 1)]), s;
      kept' := kept + [p];
      forall i | 0 <= i < |kept| ensures kept[i] != p {
        assert (kept + [p] + rest)[i] == kept[i];
      }
      forall i | 0 <= i < |rest| ensures rest[i] != p {
        assert (kept + [p] + rest)[|kept| + 1 + i] == rest[i];
      }
      assert t'.reqs.Keys == t.reqs.Keys;
    }
  }

  lemma {:induction false} AgedOfPends(c: seq<Ptr>, reqs: map<Ptr, Req>, serials: map<Ptr, nat>)
    requires reqs.Keys == serials.Keys && c != [] && forall i :: 0 <= i < |c| ==> c[i] in reqs
    ensures Aged(Pends(c, reqs, serials))
            == AgedOne(Pending(serials[c[0]], reqs[c[0]])) + Aged(Pends(c[1..], reqs, serials))
  {
    assert Pends(c, reqs, serials)[1..] == Pends(c[1..], reqs, serials);
  }

  ghost function Elements(c: seq<Ptr>): (r: set<Ptr>)
    ensures forall p :: p in r <==> p in c
    ensures Distinct(c) ==> |r| == |c|
  {
    if c == [] then {}
    else
      assert c == [c[0]] + c[1..];
      assert Distinct(c) ==> Distinct(c[1..]) && c[0] !in c[1..];
      {c[0]} + Elements(c[1..])
  }

  lemma {:induction false} TwoListsCount(c: seq<Ptr>, d: seq<Ptr>, home: map<Ptr, nat>, pool: set<Ptr>)
    requires Distinct(c) && Distinct(d) && pool == home.Keys
    requires forall i :: 0 <= i < |c| ==> c[i] in pool && home[c[i]] == ACTIVE
    requires forall i :: 0 <= i < |d| ==> d[i] in pool && home[d[i]] == INACTIVE
    requires forall p :: p in pool ==> p in c || p in d
    ensures |c| + |d| == |pool|
  {
    var a, b := Elements(c), Elements(d);
    assert pool == a + b;
    assert a * b == {};
  }

  /** The active list is full exactly when the inactive one is empty. */
  lemma {:induction false} ListsMakePool(t: Pool, s: Shape, serials: map<Ptr, nat>)
    requires Consistent(t, s, serials)
    ensures |s.chains[ACTIVE]| + |s.chains[INACTIVE]| == |t.reqs|
  {
    ChainInPool(t, s, serials, ACTIVE);
    ChainInPool(t, s, serials, INACTIVE);
    forall p | p in t.reqs.Keys ensures p in s.chains[ACTIVE] || p in s.chains[INACTIVE] {
      InChain(s.chains, s.home, p);
    }
    TwoListsCount(s.chains[ACTIVE], s.chains[INACTIVE], s.home, t.reqs.Keys);
  }

  lemma {:induction false} PendsElsewhere(c: seq<Ptr>, reqs: map<Ptr, Req>, serials: map<Ptr, nat>, p: Ptr, r: Req,
                                          serial: nat)
    requires reqs.Keys == serials.Keys && p in reqs && forall i :: 0 <= i < |c| ==> c[i] in reqs && c[i] != p
    ensures Pends(c, reqs[p := r], serials[p := serial]) == Pends(c, reqs, serials)
  {
  }

  lemma {:induction false} FindTidIs(a: seq<Pending>, tid: Word16, k: nat)
    requires k < |a| && a[k].req.newTid == tid && forall j :: 0 <= j < k ==> a[j].req.newTid != tid
    ensures FindTid(a, tid) == Some(k)
  {
    if k > 0 {
      FindTidIs(a[1..], tid, k - 1);
    }
  }
}
