/**
 The answer cache of the DNS proxy: 1024 linked lists of entries, hashed by name. `store` is
 the memory the entries live in.
 */
module DnsCache {
  import opened Common
  import opened Chains
  import opened KeyedStore
  import opened DnsNames
  import opened DnsCacheModel

  type Node = Item<Key, Entry>

  datatype Table = Table(links: Links, store: map<Ptr, Node>)

  /** Every node is in the bucket its name hashes to. */
  ghost predicate Bucketed(store: map<Ptr, Node>, home: map<Ptr, nat>) {
    && home.Keys == store.Keys
    && forall p {:trigger HashName(store[p].key.name)} :: p in store ==> home[p] == HashName(store[p].key.name)
  }

  ghost predicate Consistent(t: Table, s: Shape, owner: map<Key, Ptr>) {
    && Rep(t.links, s) && |t.links.heads| == BUCKETS
    && Bucketed(t.store, s.home) && Owned(t.store, owner)
  }

  method Link(t: Table, ghost s: Shape, ghost owner: map<Key, Ptr>, at: Ptr, n: Node)
    returns (t': Table, ghost s': Shape, ghost owner': map<Key, Ptr>)
    requires Consistent(t, s, owner) && at !in t.store && n.key !in owner
    ensures Consistent(t', s', owner') && t'.store == t.store[at := n]
    ensures ViewOf(t'.store, owner') == ViewOf(t.store, owner)[n.key := n.value]
  {
    ViewLink(t.store, owner, at, n);
    var links, shape := Push(t.links, s, HashName(n.key.name), at);
    t', s', owner' := Table(links, t.store[at := n]), shape, owner[n.key := at];
  }

  method Remove(t: Table, ghost s: Shape, ghost owner: map<Key, Ptr>, p: Ptr)
    returns (t': Table, ghost s': Shape, ghost owner': map<Key, Ptr>)
    requires Consistent(t, s, owner) && p in t.store
    ensures Consistent(t', s', owner') && t'.store == t.store - {p}
    ensures s.home[p] < BUCKETS && p in s.chains[s.home[p]] && s'.home == s.home - {p}
    ensures s'.chains == s.chains[s.home[p] := Without(s.chains[s.home[p]], IndexIn(s.chains[s.home[p]], p))]
  {
    ViewUnlink(t.store, owner, p);
    var links, shape := Unlink(t.links, s, HashName(t.store[p].key.name), p);
    t', s', owner' := Table(links, t.store - {p}), shape, owner - {t.store[p].key};
  }

  // The timer.

  /** The memory after the nodes in `done` have aged. */
  ghost function TickedOn(store: map<Ptr, Node>, done: set<Ptr>): map<Ptr, Node> {
    map p | p in store && (p in done ==> Survives(store[p].value)) ::
      if p in done then store[p].(value := AgedEntry(store[p].value)) else store[p]
  }

  /** Ages node `p`, which lies between `kept` and `rest` in its chain, and unlinks it if it runs out. */
  method AgeNode(t: Table, ghost s: Shape, ghost owner: map<Key, Ptr>, p: Ptr, ghost b: nat,
                 ghost kept: seq<Ptr>, ghost rest: seq<Ptr>)
    returns (t': Table, ghost s': Shape, ghost owner': map<Key, Ptr>, ghost kept': seq<Ptr>)
    requires Consistent(t, s, owner) && b < BUCKETS && s.chains[b] == kept + [p] + rest
    ensures Consistent(t', s', owner') && s'.chains[b] == kept' + rest
    ensures forall d :: 0 <= d < BUCKETS && d != b ==> s'.chains[d] == s.chains[d]
    ensures p in t.store && t'.store == (
              if Survives(t.store[p].value) then t.store[p := t.store[p].(value := AgedEntry(t.store[p].value))]
              else t.store - {p})
  {
    assert s.chains[b][|kept|] == p;
    assert p in s.chains[b] && Distinct(s.chains[b]);
    var n := t.store[p];
    if Survives(n.value) {
      ViewUpdate(t.store, owner, p, AgedEntry(n.value));
      t', s', owner', kept' := t.(store := t.store[p := n.(value := AgedEntry(n.value))]), s, owner, kept + [p];
    } else {
      t', s', owner' := Remove(t, s, owner, p);
      kept' := kept;
      WithoutMiddle(s.chains[b], kept, p, rest);
    }
  }

  lemma {:induction false} TickNode(store: map<Ptr, Node>, done: set<Ptr>, p: Ptr)
    requires p in store && p !in done
    ensures var before, n := TickedOn(store, done), store[p];
            && p in before && before[p] == n
            && TickedOn(store, done + {p}) ==
               if Survives(n.value) then before[p := n.(value := AgedEntry(n.value))] else before - {p}
  {
  }

  /** Ages the nodes of bucket `b`, reading each link before its node can go. */
  method AgeBucket(t: Table, ghost s: Shape, ghost owner: map<Key, Ptr>, b: nat, ghost store0: map<Ptr, Node>,
                   ghost done: set<Ptr>)
    returns (t': Table, ghost s': Shape, ghost owner': map<Key, Ptr>, ghost done': set<Ptr>)
    requires Consistent(t, s, owner) && b < BUCKETS && t.store == TickedOn(store0, done)
    requires forall i :: 0 <= i < |s.chains[b]| ==> s.chains[b][i] in store0 && s.chains[b][i] !in done
    ensures Consistent(t', s', owner') && t'.store == TickedOn(store0, done')
    ensures forall d :: 0 <= d < BUCKETS && d != b ==> s'.chains[d] == s.chains[d]
    ensures forall p :: p in done' <==> p in done || p in s.chains[b]
  {
    ghost var chain := s.chains[b];
    ghost var gone, kept, rest := [], [], chain;
    t', s', owner', done' := t, s, owner, done;
    assert Distinct(chain) && [] + rest == rest;
    var p := First(t.links, s, b);
    while p.Some?
      invariant Consistent(t', s', owner') && t'.store == TickedOn(store0, done')
      invariant p == HeadOf(rest) && s'.chains[b] == kept + rest && chain == gone + rest
      invariant forall d :: 0 <= d < BUCKETS && d != b ==> s'.chains[d] == s.chains[d]
      invariant forall x :: x in done' <==> x in done || x in gone
      decreases |rest|
    {
      NextIsNew(chain, gone, rest);
      SplitAt(s'.chains[b], kept, rest);
      TickNode(store0, done', p.value);
      var next := Next(t'.links, s', p.value, b, |kept|);
      t', s', owner', kept := AgeNode(t', s', owner', p.value, b, kept, rest[1..]);
      done', gone := done' + {p.value}, gone + [p.value];
      p, rest := next, rest[1..];
    }
    assert gone + [] == gone;
  }

  lemma {:induction false} ViewTick(store: map<Ptr, Node>, owner: map<Key, Ptr>, done: set<Ptr>, owner': map<Key, Ptr>)
    requires Owned(store, owner) && store.Keys <= done && Owned(TickedOn(store, done), owner')
    ensures ViewOf(TickedOn(store, done), owner') == Tick(ViewOf(store, owner))
  {
    var v, v' := Tick(ViewOf(store, owner)), ViewOf(TickedOn(store, done), owner');
    forall k ensures k in v <==> k in v' {
      if k in v {
        assert owner[k] in TickedOn(store, done);
      }
    }
  }

  /** Ages every entry, bucket by bucket. */
  method AgeAll(t: Table, ghost s: Shape, ghost owner: map<Key, Ptr>)
    returns (t': Table, ghost s': Shape, ghost owner': map<Key, Ptr>)
    requires Consistent(t, s, owner)
    ensures Consistent(t', s', owner') && ViewOf(t'.store, owner') == Tick(ViewOf(t.store, owner))
  {
    ghost var done: set<Ptr> := {};
    t', s', owner' := t, s, owner;
    assert t.store == TickedOn(t.store, {});
    for b := 0 to BUCKETS
      invariant Consistent(t', s', owner') && t'.store == TickedOn(t.store, done)
      invariant forall d :: b <= d < BUCKETS ==> s'.chains[d] == s.chains[d]
      invariant forall p :: p in done <==> p in t.store && s.home[p] < b
    {
      InBucketOnly(t, s, owner, b);
      t', s', owner', done := AgeBucket(t', s', owner', b, t.store, done);
    }
    forall p | p in t.store ensures p in done {
      InChain(s.chains, s.home, p);
    }
    ViewTick(t.store, owner, done, owner');
  }

  lemma {:induction false} InBucketOnly(t: Table, s: Shape, owner: map<Key, Ptr>, b: nat)
    requires Consistent(t, s, owner) && b < BUCKETS
    ensures forall i :: 0 <= i < |s.chains[b]| ==> s.chains[b][i] in t.store && s.home[s.chains[b][i]] == b
    ensures forall p :: p in s.chains[b] <==> p in t.store && s.home[p] == b
  {
    forall p | p in t.store && s.home[p] == b ensures p in s.chains[b] {
      InChain(s.chains, s.home, p);
    }
    forall i | 0 <= i < |s.chains[b]| ensures s.chains[b][i] in t.store && s.home[s.chains[b][i]] == b {
      assert s.chains[b][i] in s.chains[b];
    }
  }

  // Markers.

  /** The memory after the nodes in `done` have lost their marker. */
  ghost function UnmarkedOn(store: map<Ptr, Node>, done: set<Ptr>): map<Ptr, Node> {
    map p | p in store :: if p in done then store[p].(value := store[p].value.(marker := false)) else store[p]
  }

  lemma {:induction false} UnmarkNode(store: map<Ptr, Node>, done: set<Ptr>, p: Ptr)
    requires p in store && p !in done
    ensures var before, n := UnmarkedOn(store, done), store[p];
            p in before && before[p] == n
            && UnmarkedOn(store, done + {p}) == before[p := n.(value := n.value.(marker := false))]
  {
  }

  lemma {:induction false} UnmarkedConsistent(t: Table, s: Shape, owner: map<Key, Ptr>, done: set<Ptr>)
    requires Consistent(t, s, owner)
    ensures Consistent(t.(store := UnmarkedOn(t.store, done)), s, owner)
  {
    var store := UnmarkedOn(t.store, done);
    forall p | p in store ensures store[p].key == t.store[p].key {
    }
    forall k | k in owner ensures owner[k] in store && store[owner[k]].key == k {
      assert owner[k] in t.store;
    }
  }

  method UnmarkBucket(t: Table, ghost s: Shape, ghost owner: map<Key, Ptr>, b: nat, ghost done: set<Ptr>,
                      before: map<Ptr, Node>)
    returns (store: map<Ptr, Node>, ghost done': set<Ptr>)
    requires Consistent(t, s, owner) && b < BUCKETS && before == UnmarkedOn(t.store, done)
    requires forall i :: 0 <= i < |s.chains[b]| ==> s.chains[b][i] in t.store && s.chains[b][i] !in done
    ensures store == UnmarkedOn(t.store, done')
    ensures forall p :: p in done' <==> p in done || p in s.chains[b]
  {
    ghost var chain := s.chains[b];
    ghost var gone, rest := [], chain;
    store, done' := before, done;
    assert Distinct(chain) && [] + rest == rest;
    var p := First(t.links, s, b);
    while p.Some?
      invariant store == UnmarkedOn(t.store, done')
      invariant p == HeadOf(rest) && chain == gone + rest
      invariant forall x :: x in done' <==> x in done || x in gone
      decreases |rest|
    {
      SplitAt(chain, gone, rest);
      NextIsNew(chain, gone, rest);
      UnmarkNode(t.store, done', p.value);
      var n := store[p.value];
      store := store[p.value := n.(value := n.value.(marker := false))];
      p := Next(t.links, s, p.value, b, |gone|);
      done', gone, rest := done' + {rest[0]}, gone + [rest[0]], rest[1..];
    }
    assert gone + [] == gone;
  }

  /** Clears the marker of every entry, bucket by bucket. */
  method UnmarkAll(t: Table, ghost s: Shape, ghost owner: map<Key, Ptr>) returns (t': Table)
    requires Consistent(t, s, owner)
    ensures Consistent(t', s, owner) && ViewOf(t'.store, owner) == Unmarked(ViewOf(t.store, owner))
  {
    ghost var done: set<Ptr> := {};
    var store := t.store;
    for b := 0 to BUCKETS
      invariant store == UnmarkedOn(t.store, done)
      invariant forall p :: p in done <==> p in t.store && s.home[p] < b
    {
      InBucketOnly(t, s, owner, b);
      store, done := UnmarkBucket(t, s, owner, b, done, store);
    }
    forall p | p in t.store ensures p in done {
      InChain(s.chains, s.home, p);
    }
    t' := t.(store := store);
    UnmarkedConsistent(t, s, owner, done);
  }

  /** The answer cache. */
  class AnswerCache {
    var table: Table
    ghost var shape: Shape
    ghost var owner: map<Key, Ptr>

    /** Every entry is reachable exactly once, in the bucket of its name, and no two entries share a key. */
    ghost predicate Valid()
      reads this
    {
      Consistent(table, shape, owner)
    }

    ghost function View(): Cache
      reads this
    {
      ViewOf(table.store, owner)
    }

    constructor ()
      ensures Valid() && View() == map[]
    {
      new;
      var links, s := Empty(BUCKETS);
      table, shape, owner := Table(links, map[]), s, map[];
    }

    method Find(name: Name, kind: Byte) returns (p: Option<Ptr>)
      requires Valid()
      ensures p.None? <==> Key(name, kind) !in View()
      ensures p.Some? ==> p.value in table.store && table.store[p.value].key == Key(name, kind)
                          && table.store[p.value].value == View()[Key(name, kind)]
    {
      var s := table.store;
      p := Chains.Find(table.links, shape, HashName(name), x => x in s && s[x].key == Key(name, kind));
      assert Key(name, kind) in owner ==> shape.home[owner[Key(name, kind)]] == HashName(name) by {
        if Key(name, kind) in owner {
          assert s[owner[Key(name, kind)]].key.name == name;
        }
      }
    }

    method Add(at: Ptr, k: Key, e: Entry)
      requires Valid() && at !in table.store && k !in View()
      modifies this
      ensures Valid() && View() == old(View())[k := e]
      ensures table.store.Keys == old(table.store.Keys) + {at}
    {
      table, shape, owner := Link(table, shape, owner, at, Item(k, e));
    }

    /** Caches an answer unless the name and type are cached already; `at` is where the entry goes. */
    method Learn(k: Key, a: Answer, at: Ptr)
      requires Valid() && at !in table.store
      modifies this
      ensures Valid() && View() == DnsCacheModel.Learn(old(View()), k, a)
    {
      if !Cacheable(a) {
        return;
      }
      var p := Find(k.name, k.kind);
      if p.None? {
        Add(at, k, EntryFor(a));
      }
    }

    method Timer()
      requires Valid()
      modifies this
      ensures Valid() && View() == Tick(old(View()))
    {
      table, shape, owner := AgeAll(table, shape, owner);
    }

    method Clear()
      requires Valid()
      modifies this
      ensures Valid() && View() == map[] && table.store == map[]
    {
      var links, s := Empty(BUCKETS);
      table, shape, owner := Table(links, map[]), s, map[];
    }

    /** Makes the address entry of the host's name static, adding it at `at` when there is none. */
    method AddStatic(h: Host, at: Ptr)
      requires Valid() && at !in table.store && |h.name| < MAX_DOMAIN_NAME
      modifies this
      ensures Valid() && View() == DnsCacheModel.AddStatic(old(View()), h)
      ensures table.store.Keys <= old(table.store.Keys) + {at}
    {
      if h.name == [] {
        return;
      }
      var rn := new Byte[NAME_BUFFER];
      var n := BuildName(h.name, rn);
      var name := ReadString(rn, n);
      var k := Key(name, TYPE_A);
      var p := Find(k.name, k.kind);
      if p.Some? {
        var e := table.store[p.value].value;
        var e' := e.(
          flags := STATIC_FLAGS, ttl := STATIC_TTL, ip := h.ip, isStatic := true, marker := true, cname := None);
        ViewUpdate(table.store, owner, p.value, e');
        table := table.(store := table.store[p.value := Item(k, e')]);
      } else {
        Add(at, k, StaticEntry(h.ip));
      }
    }

    /** Marks the entries of the configured hosts afresh; `at` provides an address for each. */
    method UpdateStatic(hosts: seq<Host>, at: seq<Ptr>)
      requires Valid() && |at| == |hosts| && Distinct(at)
      requires forall i :: 0 <= i < |at| ==> at[i] !in table.store
      requires forall i :: 0 <= i < |hosts| ==> |hosts[i].name| < MAX_DOMAIN_NAME
      modifies this
      ensures Valid() && View() == DnsCacheModel.UpdateStatic(old(View()), hosts)
    {
      table := UnmarkAll(table, shape, owner);
      ghost var start := View();
      for i := 0 to |hosts|
        invariant Valid() && View() == AddStatics(start, hosts[..i])
        invariant forall j :: i <= j < |at| ==> at[j] !in table.store
      {
        assert hosts[..i + 1][..i] == hosts[..i];
        AddStatic(hosts[i], at[i]);
      }
      assert hosts[..|hosts|] == hosts;
    }
  }
}
