/**
 The command tree. Nodes live in one pool and refer to each other by index: `next` links
 the alternatives at one level, `rule` leads to the level below. Indices only grow along
 links, since a node is created after the node that refers to it.
 */
module CliTree {
  import opened Common
  import opened CliWords

  /** A bit map of command modes, as the set of its bit numbers. */
  type Mode = m: set<int> | forall b :: b in m ==> 0 <= b < 64 witness {}

  const MODE_ALL: Mode := set b | 0 <= b < 64

  datatype Node = Node(token: Option<string>, mode: Mode, exe: nat, exeMode: Mode, rule: Option<nat>, next: Option<nat>)

  predicate Within(m: Mode, n: Mode) {
    m <= n
  }

  predicate Meets(m: Mode, n: Mode) {
    m * n != {}
  }

  ghost predicate Linked(nodes: seq<Node>) {
    forall i :: 0 <= i < |nodes| ==>
      && (nodes[i].next.Some? ==> i < nodes[i].next.value < |nodes|)
      && (nodes[i].rule.Some? ==> i < nodes[i].rule.value < |nodes|)
  }

  /** The first node from `cur` on along the level whose token is `t`. */
  ghost function SiblingWith(nodes: seq<Node>, cur: nat, t: string): (r: Option<nat>)
    requires Linked(nodes) && cur < |nodes|
    ensures r.Some? ==> cur <= r.value < |nodes| && nodes[r.value].token == Some(t)
    decreases |nodes| - cur
  {
    if nodes[cur].token == Some(t) then Some(cur)
    else if nodes[cur].next.None? then None
    else SiblingWith(nodes, nodes[cur].next.value, t)
  }

  ghost function LastOf(nodes: seq<Node>, cur: nat): (r: nat)
    requires Linked(nodes) && cur < |nodes|
    ensures r < |nodes| && nodes[r].next.None?
    decreases |nodes| - cur
  {
    if nodes[cur].next.None? then cur else LastOf(nodes, nodes[cur].next.value)
  }

  /** The node that `words` leads to, token by token, along nodes that are in all of `mode`. */
  ghost function Path(nodes: seq<Node>, mode: Mode, cur: nat, words: seq<string>): (r: Option<nat>)
    requires Linked(nodes) && cur < |nodes|
    ensures r.Some? ==> r.value < |nodes|
    decreases |words|
  {
    if words == [] then None
    else
      match SiblingWith(nodes, cur, words[0])
      case None => None
      case Some(i) =>
        if !Within(mode, nodes[i].mode) then None
        else if |words| == 1 then Some(i)
        else if nodes[i].rule.None? then None
        else Path(nodes, mode, nodes[i].rule.value, words[1..])
  }

  /** The nodes of a path, as far as the tokens lead. */
  ghost function Trail(nodes: seq<Node>, cur: nat, words: seq<string>): (r: seq<nat>)
    requires Linked(nodes) && cur < |nodes|
    ensures forall k :: 0 <= k < |r| ==> r[k] < |nodes|
    decreases |words|
  {
    if words == [] then []
    else
      match SiblingWith(nodes, cur, words[0])
      case None => []
      case Some(i) =>
        if nodes[i].rule.None? then [i] else [i] + Trail(nodes, nodes[i].rule.value, words[1..])
  }

  /** What an addition may do to the pool: it only ever adds. */
  ghost predicate Extends(a: seq<Node>, b: seq<Node>) {
    && |a| <= |b|
    && (forall i :: 0 <= i < |a| ==> NodeExtends(a[i], b[i]))
  }

  ghost predicate NodeExtends(a: Node, b: Node) {
    && (a.token.Some? ==> b.token == a.token)
    && (a.rule.Some? ==> b.rule == a.rule)
    && (a.next.Some? ==> b.next == a.next)
    && Within(a.mode, b.mode) && a.exe <= b.exe && Within(a.exeMode, b.exeMode)
  }

  lemma {:induction false} WithinTransitive(a: Mode, b: Mode, c: Mode)
    requires Within(a, b) && Within(b, c)
    ensures Within(a, c)
  {
  }

  lemma {:induction false} ModeGrows(a: Mode, b: Mode)
    ensures Within(a, a + b) && Within(b, a + b) && (a != {} ==> a + b != {})
  {
  }

  lemma {:induction false} ExtendsTransitive(a: seq<Node>, b: seq<Node>, c: seq<Node>)
    requires Extends(a, b) && Extends(b, c)
    ensures Extends(a, c)
  {
    forall i | 0 <= i < |a| ensures NodeExtends(a[i], c[i]) {
      assert NodeExtends(a[i], b[i]) && NodeExtends(b[i], c[i]);
      WithinTransitive(a[i].mode, b[i].mode, c[i].mode);
      WithinTransitive(a[i].exeMode, b[i].exeMode, c[i].exeMode);
    }
  }

  /** Only a node that ends its level may still be waiting for its token. */
  ghost predicate BlankIsLast(nodes: seq<Node>) {
    forall i :: 0 <= i < |nodes| && nodes[i].token.None? ==> nodes[i].next.None?
  }

  lemma {:induction false} SiblingKept(a: seq<Node>, b: seq<Node>, cur: nat, t: string)
    requires Linked(a) && Linked(b) && Extends(a, b) && BlankIsLast(a)
    requires cur < |a| && SiblingWith(a, cur, t).Some?
    ensures SiblingWith(b, cur, t) == SiblingWith(a, cur, t)
    decreases |a| - cur
  {
    assert NodeExtends(a[cur], b[cur]);
    if a[cur].token != Some(t) {
      SiblingKept(a, b, a[cur].next.value, t);
    }
  }

  lemma {:induction false} PathKept(a: seq<Node>, b: seq<Node>, mode: Mode, cur: nat, words: seq<string>)
    requires Linked(a) && Linked(b) && Extends(a, b) && BlankIsLast(a)
    requires cur < |a| && Path(a, mode, cur, words).Some?
    ensures Path(b, mode, cur, words) == Path(a, mode, cur, words)
    decreases |words|
  {
    SiblingKept(a, b, cur, words[0]);
    var i := SiblingWith(a, cur, words[0]).value;
    assert NodeExtends(a[i], b[i]);
    WithinTransitive(mode, a[i].mode, b[i].mode);
    if |words| > 1 {
      PathKept(a, b, mode, a[i].rule.value, words[1..]);
    }
  }

  lemma {:induction false} TrailKept(a: seq<Node>, b: seq<Node>, mode: Mode, cur: nat, words: seq<string>)
    requires Linked(a) && Linked(b) && Extends(a, b) && BlankIsLast(a)
    requires cur < |a| && Path(a, mode, cur, words).Some?
    ensures Trail(b, cur, words) == Trail(a, cur, words)
    decreases |words|
  {
    SiblingKept(a, b, cur, words[0]);
    var i := SiblingWith(a, cur, words[0]).value;
    assert NodeExtends(a[i], b[i]);
    if |words| > 1 {
      TrailKept(a, b, mode, a[i].rule.value, words[1..]);
    } else if b[i].rule.Some? {
      assert Trail(b, b[i].rule.value, words[1..]) == [];
      assert [i] + [] == [i];
    }
  }

  ghost predicate SharesRule(nodes: seq<Node>, i: nat, j: nat)
    requires i < |nodes| && j < |nodes|
  {
    nodes[i].rule.Some? && nodes[i].rule == nodes[j].rule
  }

  /** No two nodes lead to the same level below. */
  ghost predicate OneParent(nodes: seq<Node>) {
    forall i: nat, j: nat {:trigger SharesRule(nodes, i, j)} :: i < j < |nodes| ==> !SharesRule(nodes, i, j)
  }

  /** `heads` names the first node of the level each node is on. */
  ghost predicate Levels(nodes: seq<Node>, heads: seq<nat>) {
    && Linked(nodes) && BlankIsLast(nodes) && OneParent(nodes) && |heads| == |nodes|
    && (forall i :: 0 <= i < |nodes| ==> heads[i] <= i)
    && (forall i :: 0 <= i < |nodes| && nodes[i].next.Some? ==> heads[nodes[i].next.value] == heads[i])
    && (forall i :: 0 <= i < |nodes| && nodes[i].rule.Some? ==> heads[nodes[i].rule.value] == nodes[i].rule.value)
    && (forall i :: 0 <= i < |nodes| ==> nodes[i].mode != {})
  }

  /** From the head of its level, node `i` is the first with its token. */
  ghost predicate FoundAt(nodes: seq<Node>, heads: seq<nat>, i: nat)
    requires Levels(nodes, heads) && i < |nodes|
  {
    nodes[i].token.Some? ==>
      IsWord(nodes[i].token.value) && SiblingWith(nodes, heads[i], nodes[i].token.value) == Some(i)
  }

  /** The shape of the pool between two additions; tokens on a level are distinct. */
  ghost predicate Shaped(nodes: seq<Node>, heads: seq<nat>) {
    && Levels(nodes, heads)
    && (forall i {:trigger FoundAt(nodes, heads, i)} :: 0 <= i < |nodes| ==> FoundAt(nodes, heads, i))
  }

  /** Adding keeps every node that had a token found. */
  lemma {:induction false} ShapeKept(a: seq<Node>, ha: seq<nat>, b: seq<Node>, hb: seq<nat>, changed: nat)
    requires Shaped(a, ha) && Levels(b, hb) && Extends(a, b) && ha <= hb
    requires changed < |b| && FoundAt(b, hb, changed)
    requires forall i :: 0 <= i < |b| && i != changed ==> i < |a| && b[i].token == a[i].token
    ensures Shaped(b, hb)
  {
    forall i | 0 <= i < |b| ensures FoundAt(b, hb, i) {
      if i != changed && b[i].token.Some? {
        assert FoundAt(a, ha, i) && hb[i] == ha[i];
        SiblingKept(a, b, ha[i], a[i].token.value);
      }
    }
  }

  lemma {:induction false} DistinctOnLevel(nodes: seq<Node>, heads: seq<nat>, i: nat, j: nat)
    requires Shaped(nodes, heads) && i < |nodes| && j < |nodes| && i != j && heads[i] == heads[j]
    requires nodes[i].token.Some?
    ensures nodes[i].token != nodes[j].token
  {
    assert FoundAt(nodes, heads, i) && FoundAt(nodes, heads, j);
  }

  lemma {:induction false} LastIsOnLevel(nodes: seq<Node>, heads: seq<nat>, cur: nat)
    requires Shaped(nodes, heads) && cur < |nodes|
    ensures heads[LastOf(nodes, cur)] == heads[cur]
    decreases |nodes| - cur
  {
    if nodes[cur].next.Some? {
      LastIsOnLevel(nodes, heads, nodes[cur].next.value);
    }
  }

  /** Appending to a level a node whose token the level does not have yet. */
  function Appended(nodes: seq<Node>, last: nat, n: Node): seq<Node>
    requires last < |nodes|
  {
    nodes[last := nodes[last].(next := Some(|nodes|))] + [n]
  }

  lemma {:induction false} AppendedIsFound(nodes: seq<Node>, cur: nat, n: Node, t: string)
    requires Linked(nodes) && cur < |nodes| && SiblingWith(nodes, cur, t).None?
    requires n.token == Some(t) && n.next.None? && n.rule.None?
    ensures var b := Appended(nodes, LastOf(nodes, cur), n); Linked(b) && SiblingWith(b, cur, t) == Some(|nodes|)
    decreases |nodes| - cur
  {
    var last := LastOf(nodes, cur);
    var b := Appended(nodes, last, n);
    if nodes[cur].next.Some? {
      AppendedIsFound(nodes, nodes[cur].next.value, n, t);
      assert b[cur].next == nodes[cur].next && b[cur].token == nodes[cur].token;
    }
  }

  lemma {:induction false} AppendExtends(nodes: seq<Node>, last: nat, n: Node)
    requires Linked(nodes) && last < |nodes| && nodes[last].next.None?
    ensures Extends(nodes, Appended(nodes, last, n))
  {
    var b := Appended(nodes, last, n);
    forall i | 0 <= i < |nodes| ensures NodeExtends(nodes[i], b[i]) {
      assert i != last ==> b[i] == nodes[i];
    }
  }

  /** Parents stay the only ones when links to lower levels are kept and none is new. */
  lemma {:induction false} OneParentKept(a: seq<Node>, b: seq<Node>)
    requires OneParent(a) && |a| <= |b|
    requires forall i :: 0 <= i < |a| ==> b[i].rule == a[i].rule
    requires forall i :: |a| <= i < |b| ==> b[i].rule.None?
    ensures OneParent(b)
  {
    forall i: nat, j: nat | i < j < |b| ensures !SharesRule(b, i, j) {
      if j < |a| {
        assert !SharesRule(a, i, j);
      }
    }
  }

  lemma {:induction false} OneParentOfNew(nodes: seq<Node>, i: nat, n: Node)
    requires Linked(nodes) && OneParent(nodes) && i < |nodes| && n.rule.None?
    ensures OneParent(nodes[i := nodes[i].(rule := Some(|nodes|))] + [n])
  {
    var b := nodes[i := nodes[i].(rule := Some(|nodes|))] + [n];
    forall j: nat, k: nat | j < k < |b| ensures !SharesRule(b, j, k) {
      if k < |nodes| {
        assert !SharesRule(nodes, j, k);
      }
    }
  }

  lemma {:induction false} AppendKeepsShape(nodes: seq<Node>, heads: seq<nat>, cur: nat, n: Node, t: string)
    requires Shaped(nodes, heads) && cur < |nodes| && heads[cur] == cur && nodes[cur].token.Some?
    requires SiblingWith(nodes, cur, t).None? && IsWord(t)
    requires n.token == Some(t) && n.next.None? && n.rule.None? && n.mode != {}
    requires forall i :: 0 <= i < |nodes| ==> nodes[i].token.Some?
    ensures Shaped(Appended(nodes, LastOf(nodes, cur), n), heads + [cur])
  {
    var last := LastOf(nodes, cur);
    var b, hs := Appended(nodes, last, n), heads + [cur];
    LastIsOnLevel(nodes, heads, cur);
    AppendedIsFound(nodes, cur, n, t);
    AppendExtends(nodes, last, n);
    OneParentKept(nodes, b);
    ShapeKept(nodes, heads, b, hs, |nodes|);
  }

  /** Changes to a node that leave its links alone. */
  lemma {:induction false} UpdateKeepsShape(nodes: seq<Node>, heads: seq<nat>, i: nat, n: Node)
    requires Shaped(nodes, heads) && i < |nodes|
    requires NodeExtends(nodes[i], n) && n.next == nodes[i].next && n.rule == nodes[i].rule && n.mode != {}
    requires n.token.Some? && IsWord(n.token.value)
    requires nodes[i].token.None? ==> heads[i] == i
    ensures Extends(nodes, nodes[i := n]) && Shaped(nodes[i := n], heads)
  {
    var b := nodes[i := n];
    forall j | 0 <= j < |nodes| ensures NodeExtends(nodes[j], b[j]) {}
    OneParentKept(nodes, b);
    assert FoundAt(nodes, heads, i);
    if nodes[i].token.Some? {
      SiblingKept(nodes, b, heads[i], n.token.value);
    }
    ShapeKept(nodes, heads, b, heads, i);
  }

  /** Creating the first, still blank node of the level below `i`. */
  lemma {:induction false} NewLevelKeepsShape(nodes: seq<Node>, heads: seq<nat>, i: nat, mode: Mode)
    requires Shaped(nodes, heads) && i < |nodes| && nodes[i].rule.None? && mode != {}
    ensures var b := nodes[i := nodes[i].(rule := Some(|nodes|))] + [Node(None, mode, 0, {}, None, None)];
            Extends(nodes, b) && Shaped(b, heads + [|nodes|])
  {
    var b := nodes[i := nodes[i].(rule := Some(|nodes|))] + [Node(None, mode, 0, {}, None, None)];
    forall j | 0 <= j < |nodes| ensures NodeExtends(nodes[j], b[j]) {
      assert j != i ==> b[j] == nodes[j];
    }
    OneParentOfNew(nodes, i, Node(None, mode, 0, {}, None, None));
    ShapeKept(nodes, heads, b, heads + [|nodes|], |nodes|);
  }
}
