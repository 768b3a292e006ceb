/**
 Tables of intrusive singly linked lists: `heads[b]` points to the first node of bucket
 `b` and every node carries one link to its successor. The link field is held in the
 table as a map from node to successor, so that a node can sit in several tables at
 once, as a lease does.

 A `Shape` is the ghost view of a table: `chains[b]` is the sequence of nodes reachable
 from head `b`, and `home` gives the bucket of every node in the table.
 */
module Chains {
  import opened Common

  /** The address of a node. */
  type Ptr = nat

  datatype Links = Links(heads: seq<Option<Ptr>>, next: map<Ptr, Option<Ptr>>)

  datatype Shape = Shape(chains: seq<seq<Ptr>>, home: map<Ptr, nat>)

  /** Walking the table from its heads visits exactly the chains of `s`. */
  ghost predicate Rep(t: Links, s: Shape) {
    && |s.chains| == |t.heads|
    && (forall b {:trigger Linked(t.heads[b], s.chains[b], t.next)} ::
          0 <= b < |t.heads| ==> Linked(t.heads[b], s.chains[b], t.next))
    && Homed(s.chains, s.home)
  }

  method Empty(n: nat) returns (t: Links, ghost s: Shape)
    ensures Rep(t, s) && |t.heads| == n && s == Shape(seq(n, b => []), map[])
  {
    t := Links(seq(n, b => None), map[]);
    s := Shape(seq(n, b => []), map[]);
  }

  method First(t: Links, ghost s: Shape, b: nat) returns (p: Option<Ptr>)
    requires Rep(t, s) && b < |t.heads|
    ensures p == HeadOf(s.chains[b])
  {
    assert Linked(t.heads[b], s.chains[b], t.next);
    p := t.heads[b];
  }

  method Next(t: Links, ghost s: Shape, x: Ptr, ghost b: nat, ghost i: nat) returns (p: Option<Ptr>)
    requires Rep(t, s) && b < |t.heads| && i < |s.chains[b]| && s.chains[b][i] == x
    ensures p == HeadOf(s.chains[b][i + 1..])
  {
    assert Linked(t.heads[b], s.chains[b], t.next);
    p := t.next[x];
  }

  /** Walks bucket `b` to the first node that satisfies `want`. */
  method Find(t: Links, ghost s: Shape, b: nat, want: Ptr -> bool) returns (p: Option<Ptr>)
    requires Rep(t, s) && b < |t.heads|
    ensures p.Some? ==> p.value in s.home && s.home[p.value] == b && want(p.value)
    ensures p.None? ==> forall x :: x in s.home && s.home[x] == b ==> !want(x)
  {
    ghost var c := s.chains[b];
    ghost var i := 0;
    p := First(t, s, b);
    while p.Some? && !want(p.value)
      invariant 0 <= i <= |c| && p == HeadOf(c[i..])
      invariant forall j :: 0 <= j < i ==> !want(c[j])
      decreases |c| - i
    {
      p := Next(t, s, p.value, b, i);
      i := i + 1;
    }
    assert p.Some? ==> c[i] in s.chains[b];
    forall x | x in s.home && s.home[x] == b ensures p.None? ==> !want(x) {
      InChain(s.chains, s.home, x);
    }
  }

  /** Makes `x` the first node of bucket `b`. */
  method Push(t: Links, ghost s: Shape, b: nat, x: Ptr) returns (t': Links, ghost s': Shape)
    requires Rep(t, s) && b < |t.heads| && x !in s.home
    ensures Rep(t', s') && |t'.heads| == |t.heads|
    ensures s' == Shape(s.chains[b := [x] + s.chains[b]], s.home[x := b])
  {
    t' := Links(t.heads[b := Some(x)], t.next[x := t.heads[b]]);
    s' := Shape(s.chains[b := [x] + s.chains[b]], s.home[x := b]);
    forall d | 0 <= d < |t'.heads| ensures Linked(t'.heads[d], s'.chains[d], t'.next) {
      LinkedElsewhere(t.heads[d], s.chains[d], t.next, x, t.heads[b]);
      if d == b {
        LinkedPush(t.heads[d], s.chains[d], t'.next, x);
      }
    }
    HomedPush(s.chains, s.home, b, x);
  }

  /** Unlinks `x` from bucket `b`, walking the list with a trailing pointer. */
  method Unlink(t: Links, ghost s: Shape, b: nat, x: Ptr)
    returns (t': Links, ghost s': Shape)
    requires Rep(t, s) && x in s.home && s.home[x] == b
    ensures Rep(t', s') && |t'.heads| == |t.heads|
    ensures s'.home == s.home - {x}
    ensures b < |s.chains| && x in s.chains[b]
    ensures s'.chains == s.chains[b := Without(s.chains[b], IndexIn(s.chains[b], x))]
  {
    InChain(s.chains, s.home, x);
    ghost var c := s.chains[b];
    ghost var k := IndexIn(c, x);
    assert Linked(t.heads[b], c, t.next);
    if t.heads[b] == Some(x) {
      assert Distinct(c) && c[0] == x;
      t' := t.(heads := t.heads[b := t.next[x]]);
    } else {
      var prev := t.heads[b].value;
      var ptr := t.next[prev];
      ghost var i := 0;
      while ptr.Some? && ptr.value != x
        invariant 0 <= i < k && prev == c[i] && ptr == Some(c[i + 1])
        decreases k - i
      {
        prev := ptr.value;
        ptr := t.next[prev];
        i := i + 1;
      }
      assert Distinct(c) && i + 1 == k;
      t' := t.(next := t.next[prev := t.next[x]]);
    }
    s' := Shape(s.chains[b := Without(c, k)], s.home - {x});
    LinkedWithout(t.heads[b], c, t.next, k);
    forall d | 0 <= d < |t.heads| && d != b ensures Linked(t'.heads[d], s'.chains[d], t'.next) {
      assert Linked(t.heads[d], s.chains[d], t.next);
      if k > 0 {
        NotElsewhere(s.chains, s.home, b, d, c[k - 1]);
        LinkedElsewhere(t.heads[d], s.chains[d], t.next, c[k - 1], t.next[x]);
      }
    }
    HomedWithout(s.chains, s.home, b, k);
  }

  function HeadOf(c: seq<Ptr>): Option<Ptr> {
    if c == [] then None else Some(c[0])
  }

  ghost function IndexIn(c: seq<Ptr>, x: Ptr): (k: nat)
    requires x in c
    ensures k < |c| && c[k] == x
  {
    var k :| 0 <= k < |c| && c[k] == x; k
  }

  /** Following the links from `head` visits exactly the nodes of `c`, in order. */
  ghost predicate Linked(head: Option<Ptr>, c: seq<Ptr>, next: map<Ptr, Option<Ptr>>) {
    && head == HeadOf(c)
    && (forall i :: 0 <= i < |c| ==> c[i] in next)
    && (forall i, j :: 0 <= i < j < |c| && j == i + 1 ==> next[c[i]] == Some(c[j]))
    && (c != [] ==> next[c[|c| - 1]] == None)
  }

  /** No node occurs twice, and `home` names the chain of each node. */
  ghost predicate Homed(chains: seq<seq<Ptr>>, home: map<Ptr, nat>) {
    && (forall b {:trigger Distinct(chains[b])} :: 0 <= b < |chains| ==> Distinct(chains[b]))
    && (forall x {:trigger InBucket(chains, home, x)} :: x in home ==> InBucket(chains, home, x))
    && (forall b, x {:trigger x in chains[b]} :: 0 <= b < |chains| && x in chains[b] ==> x in home && home[x] == b)
  }

  ghost predicate InBucket(chains: seq<seq<Ptr>>, home: map<Ptr, nat>, x: Ptr)
    requires x in home
  {
    home[x] < |chains| && x in chains[home[x]]
  }

  lemma InChain(chains: seq<seq<Ptr>>, home: map<Ptr, nat>, x: Ptr)
    requires Homed(chains, home) && x in home
    ensures home[x] < |chains| && x in chains[home[x]]
  {
    assert InBucket(chains, home, x);
  }

  lemma NotElsewhere(chains: seq<seq<Ptr>>, home: map<Ptr, nat>, b: nat, d: nat, x: Ptr)
    requires Homed(chains, home) && b < |chains| && d < |chains| && b != d && x in chains[b]
    ensures x !in chains[d]
  {
  }

  lemma HomedPush(chains: seq<seq<Ptr>>, home: map<Ptr, nat>, b: nat, x: Ptr)
    requires Homed(chains, home) && b < |chains| && x !in home
    ensures Homed(chains[b := [x] + chains[b]], home[x := b])
  {
    var cs, homes := chains[b := [x] + chains[b]], home[x := b];
    assert Distinct(chains[b]) && x !in chains[b];
    forall y | y in homes ensures InBucket(cs, homes, y) {
      if y != x {
        InChain(chains, home, y);
      }
    }
    forall d, y | 0 <= d < |cs| && y in cs[d] ensures y in homes && homes[y] == d {
      assert y != x ==> y in chains[d];
    }
    forall d | 0 <= d < |cs| ensures Distinct(cs[d]) {
      assert Distinct(chains[d]);
    }
  }

  lemma HomedWithout(chains: seq<seq<Ptr>>, home: map<Ptr, nat>, b: nat, k: nat)
    requires Homed(chains, home) && b < |chains| && k < |chains[b]|
    ensures Homed(chains[b := Without(chains[b], k)], home - {chains[b][k]})
  {
    var cs, x := chains[b := Without(chains[b], k)], chains[b][k];
    var homes := home - {x};
    assert Distinct(chains[b]) && x in chains[b];
    WithoutKeepsOthers(chains[b], k);
    forall y | y in homes ensures InBucket(cs, homes, y) {
      InChain(chains, home, y);
    }
    forall d, y | 0 <= d < |cs| && y in cs[d] ensures y in homes && homes[y] == d {
      assert y in chains[d];
    }
    forall d | 0 <= d < |cs| ensures Distinct(cs[d]) {
      assert Distinct(chains[d]);
    }
  }

  lemma {:induction false} SplitAt(c: seq<Ptr>, before: seq<Ptr>, rest: seq<Ptr>)
    requires c == before + rest && rest != []
    ensures c[|before|] == rest[0] && c[|before| + 1..] == rest[1..] && c == before + [rest[0]] + rest[1..]
  {
  }

  lemma {:induction false} NextIsNew(c: seq<Ptr>, before: seq<Ptr>, rest: seq<Ptr>)
    requires c == before + rest && rest != [] && Distinct(c)
    ensures rest[0] !in before && rest[0] in c && c == (before + [rest[0]]) + rest[1..]
  {
    assert c[|before|] == rest[0];
    forall i | 0 <= i < |before| ensures before[i] != rest[0] {
      assert c[i] == before[i];
    }
  }

  lemma WithoutMiddle(chain: seq<Ptr>, before: seq<Ptr>, p: Ptr, after: seq<Ptr>)
    requires chain == before + [p] + after && Distinct(chain)
    ensures p in chain && Without(chain, IndexIn(chain, p)) == before + after
  {
    assert chain[|before|] == p;
  }

  lemma LinkedElsewhere(head: Option<Ptr>, c: seq<Ptr>, next: map<Ptr, Option<Ptr>>, x: Ptr, to: Option<Ptr>)
    requires Linked(head, c, next) && x !in c
    ensures Linked(head, c, next[x := to])
  {
  }

  lemma LinkedPush(head: Option<Ptr>, c: seq<Ptr>, next: map<Ptr, Option<Ptr>>, x: Ptr)
    requires Linked(head, c, next) && x in next && next[x] == head
    ensures Linked(Some(x), [x] + c, next)
  {
    var d := [x] + c;
    forall i, j | 0 <= i < j < |d| && j == i + 1 ensures next[d[i]] == Some(d[j]) {
      assert i > 0 ==> d[i] == c[i - 1] && d[j] == c[i];
    }
  }

  lemma LinkedWithout(head: Option<Ptr>, c: seq<Ptr>, next: map<Ptr, Option<Ptr>>, k: nat)
    requires Linked(head, c, next) && Distinct(c) && k < |c|
    ensures k == 0 ==> Linked(next[c[0]], Without(c, 0), next)
    ensures k > 0 ==> Linked(head, Without(c, k), next[c[k - 1] := next[c[k]]])
  {
    var d := Without(c, k);
    var link := if k > 0 then next[c[k - 1] := next[c[k]]] else next;
    forall i, j | 0 <= i < j < |d| && j == i + 1 ensures link[d[i]] == Some(d[j]) {
      var i' := if i < k then i else i + 1;
      var j' := if j < k then j else j + 1;
      assert d[i] == c[i'] && d[j] == c[j'];
      if i' + 1 < j' {
        assert next[c[k]] == Some(c[k + 1]);
      }
    }
  }
}
