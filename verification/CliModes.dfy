/** In which modes a command is found, and in which it may be executed: exactly those the history grants. */
module CliModes {
  import opened Common
  import opened CliWords
  import opened CliTree
  import opened CliFind
  import opened CliSpecial
  import opened CliAbbrev
  import opened CliGrants

  /** The level of node `k` of the way lies below the node in front of it. */
  predicate Link(nodes: seq<Node>, heads: seq<nat>, ns: seq<nat>, k: int)
    requires 0 < k < |ns| && ns[k - 1] < |nodes| && ns[k] < |heads|
  {
    nodes[ns[k - 1]].rule == Some(heads[ns[k]])
  }

  /** A way down from the level with head `top`. */
  ghost predicate Way(nodes: seq<Node>, heads: seq<nat>, top: nat, ns: seq<nat>)
    requires Levels(nodes, heads)
  {
    && ns != [] && (forall k :: 0 <= k < |ns| ==> ns[k] < |nodes|) && heads[ns[0]] == top
    && (forall k {:trigger Link(nodes, heads, ns, k)} :: 0 < k < |ns| ==> Link(nodes, heads, ns, k))
  }

  lemma {:induction false} LowerThanTop(nodes: seq<Node>, heads: seq<nat>, x: seq<nat>)
    requires Levels(nodes, heads) && Way(nodes, heads, 0, x)
    ensures heads[x[|x| - 1]] == 0 <==> |x| == 1
  {
    if |x| > 1 {
      assert Link(nodes, heads, x, |x| - 1);
    }
  }

  lemma {:induction false} WayPrefix(nodes: seq<Node>, heads: seq<nat>, ns: seq<nat>, n: nat)
    requires Levels(nodes, heads) && Way(nodes, heads, 0, ns) && 0 < n <= |ns|
    ensures Way(nodes, heads, 0, ns[..n])
  {
    var x := ns[..n];
    forall k | 0 < k < |x| ensures Link(nodes, heads, x, k) {
      assert Link(nodes, heads, ns, k);
    }
  }

  lemma {:induction false} SameParent(nodes: seq<Node>, heads: seq<nat>, i: nat, j: nat, below: nat)
    requires Levels(nodes, heads) && i < |nodes| && j < |nodes|
    requires nodes[i].rule == Some(below) && nodes[j].rule == Some(below)
    ensures i == j
  {
    assert i < j ==> !SharesRule(nodes, i, j);
    assert j < i ==> !SharesRule(nodes, j, i);
  }

  lemma {:induction false} LastLink(nodes: seq<Node>, heads: seq<nat>, x: seq<nat>)
    requires Levels(nodes, heads) && Way(nodes, heads, 0, x) && |x| > 1
    ensures nodes[x[|x| - 2]].rule == Some(heads[x[|x| - 1]])
  {
    assert Link(nodes, heads, x, |x| - 1);
  }

  /** The node at its end determines the way from the top. */
  lemma {:induction false} WaysAgree(nodes: seq<Node>, heads: seq<nat>, x: seq<nat>, y: seq<nat>)
    requires Levels(nodes, heads) && Way(nodes, heads, 0, x) && Way(nodes, heads, 0, y)
    requires x[|x| - 1] == y[|y| - 1]
    ensures x == y
    decreases |x|
  {
    var m, n := |x| - 1, |y| - 1;
    LowerThanTop(nodes, heads, x);
    LowerThanTop(nodes, heads, y);
    if m > 0 {
      LastLink(nodes, heads, x);
      LastLink(nodes, heads, y);
      SameParent(nodes, heads, x[m - 1], y[n - 1], heads[x[m]]);
      WayPrefix(nodes, heads, x, m);
      WayPrefix(nodes, heads, y, n);
      WaysAgree(nodes, heads, x[..m], y[..n]);
      assert x == x[..m] + [x[m]] && y == y[..n] + [y[n]];
    }
  }

  /** The trail of a path is a way, along the tokens of the words and nodes in the mode. */
  lemma {:induction false} TrailIsWay(nodes: seq<Node>, heads: seq<nat>, mode: Mode, cur: nat, words: seq<string>)
    requires Levels(nodes, heads) && cur < |nodes| && Path(nodes, mode, cur, words).Some?
    ensures var t := Trail(nodes, cur, words);
            && |t| == |words| && Way(nodes, heads, heads[cur], t)
            && t[|t| - 1] == Path(nodes, mode, cur, words).value && Along(nodes, mode, words, t)
    decreases |words|
  {
    var i := SiblingWith(nodes, cur, words[0]).value;
    SiblingOnLevel(nodes, heads, cur, words[0]);
    if |words| > 1 {
      var below := nodes[i].rule.value;
      var rest := Trail(nodes, below, words[1..]);
      TrailIsWay(nodes, heads, mode, below, words[1..]);
      WayOn(nodes, heads, heads[cur], i, rest);
      AlongOn(nodes, mode, words, i, rest);
    } else if nodes[i].rule.Some? {
      assert [i] + [] == [i];
    }
  }

  ghost predicate Along(nodes: seq<Node>, mode: Mode, words: seq<string>, t: seq<nat>) {
    && |t| == |words|
    && forall k :: 0 <= k < |t| ==>
         t[k] < |nodes| && nodes[t[k]].token == Some(words[k]) && Within(mode, nodes[t[k]].mode)
  }

  lemma {:induction false} AlongOn(nodes: seq<Node>, mode: Mode, words: seq<string>, i: nat, rest: seq<nat>)
    requires words != [] && Along(nodes, mode, words[1..], rest) && i < |nodes|
    requires nodes[i].token == Some(words[0]) && Within(mode, nodes[i].mode)
    ensures Along(nodes, mode, words, [i] + rest)
  {
    var t := [i] + rest;
    forall k | 0 <= k < |t|
      ensures t[k] < |nodes| && nodes[t[k]].token == Some(words[k]) && Within(mode, nodes[t[k]].mode)
    {
      assert k > 0 ==> t[k] == rest[k - 1] && words[k] == words[1..][k - 1];
    }
  }

  lemma {:induction false} WayOn(nodes: seq<Node>, heads: seq<nat>, top: nat, i: nat, rest: seq<nat>)
    requires Levels(nodes, heads) && i < |nodes| && heads[i] == top && nodes[i].rule.Some?
    requires Way(nodes, heads, heads[nodes[i].rule.value], rest)
    ensures Way(nodes, heads, top, [i] + rest)
  {
    var ns := [i] + rest;
    forall k | 0 < k < |ns| ensures Link(nodes, heads, ns, k) {
      if k > 1 {
        assert Link(nodes, heads, rest, k - 1);
      }
    }
  }

  /** A path is one in every mode its nodes are in. */
  lemma {:induction false} PathInMode(nodes: seq<Node>, mode: Mode, other: Mode, cur: nat, words: seq<string>)
    requires Linked(nodes) && cur < |nodes| && Path(nodes, mode, cur, words).Some?
    requires forall i :: i in Trail(nodes, cur, words) ==> Within(other, nodes[i].mode)
    ensures Path(nodes, other, cur, words) == Path(nodes, mode, cur, words)
    decreases |words|
  {
    TrailStarts(nodes, cur, words[0], words[1..]);
    assert [words[0]] + words[1..] == words;
    var i := SiblingWith(nodes, cur, words[0]).value;
    assert i in Trail(nodes, cur, words);
    if |words| > 1 {
      assert forall j :: j in Trail(nodes, nodes[i].rule.value, words[1..]) ==> j in Trail(nodes, cur, words);
      PathInMode(nodes, mode, other, nodes[i].rule.value, words[1..]);
    }
  }

  /** The node a lookup finds is in one of the modes asked for. */
  lemma {:induction false} FoundIsVisible(nodes: seq<Node>, sp: Special, mode: Mode, cur: nat, words: seq<string>,
                                          find: Chooser)
    requires Linked(nodes) && cur < |nodes| && find == FinderOf(nodes, sp, mode)
    requires FindWith(find, nodes, cur, words).node.Some?
    ensures var n := FindWith(find, nodes, cur, words).node.value; n < |nodes| && nodes[n].mode * mode != {}
    decreases |words|
  {
    var h := find(cur, words[0]).value;
    TokenIsVisible(nodes, sp, mode, cur, words[0]);
    if |words| > 1 {
      FoundIsVisible(nodes, sp, mode, nodes[h.node].rule.value, words[1..], find);
    }
  }

  lemma {:induction false} TokenIsVisible(nodes: seq<Node>, sp: Special, mode: Mode, cur: nat, t: string)
    requires Linked(nodes) && cur < |nodes| && FindToken(nodes, sp, mode, cur, t).Some?
    ensures nodes[FindToken(nodes, sp, mode, cur, t).value.node].mode * mode != {}
  {
    var n := FindToken(nodes, sp, mode, cur, t).value.node;
    if Matches(nodes, cur, ExactTest(mode, t)) != [] {
      ExactIs(nodes, mode, cur, t, n);
    } else if Matches(nodes, cur, SpecialTest(sp, mode, t)) != [] {
      AcceptingIs(nodes, sp, mode, cur, t, n);
    } else {
      BegunIs(nodes, mode, cur, t, n);
    }
  }

  lemma {:induction false} TrailEnds(nodes: seq<Node>, heads: seq<nat>, c: Added, t: seq<nat>)
    requires Levels(nodes, heads) && Installed(nodes, c) && t == Trail(nodes, 0, c.words)
    ensures Way(nodes, heads, 0, t) && t[|t| - 1] == c.node
  {
    TrailIsWay(nodes, heads, c.mode, 0, c.words);
  }

  lemma {:induction false} TrailSays(nodes: seq<Node>, heads: seq<nat>, c: Added, t: seq<nat>)
    requires Levels(nodes, heads) && Installed(nodes, c) && t == Trail(nodes, 0, c.words)
    ensures |t| == |c.words|
    ensures forall k :: 0 <= k < |t| ==> nodes[t[k]].token == Some(c.words[k])
    ensures forall k :: 0 <= k < |t| ==> Within(c.mode, nodes[t[k]].mode)
  {
    TrailIsWay(nodes, heads, c.mode, 0, c.words);
  }

  /** A path that runs through the end of another one starts with it. */
  lemma {:induction false} StartsAlike(nodes: seq<Node>, heads: seq<nat>, c: Added, d: Added, x: seq<nat>, y: seq<nat>)
    requires Levels(nodes, heads) && Installed(nodes, c) && Installed(nodes, d) && c.node in y
    requires x == Trail(nodes, 0, c.words) && y == Trail(nodes, 0, d.words)
    ensures x <= y
  {
    TrailEnds(nodes, heads, c, x);
    TrailEnds(nodes, heads, d, y);
    var j :| 0 <= j < |y| && y[j] == c.node;
    EndsWithin(nodes, heads, x, y, j);
  }

  lemma {:induction false} EndsWithin(nodes: seq<Node>, heads: seq<nat>, x: seq<nat>, y: seq<nat>, j: nat)
    requires Levels(nodes, heads) && Way(nodes, heads, 0, x) && Way(nodes, heads, 0, y)
    requires j < |y| && x[|x| - 1] == y[j]
    ensures x <= y
  {
    WayPrefix(nodes, heads, y, j + 1);
    WaysAgree(nodes, heads, x, y[..j + 1]);
  }

  /** A node on the way to one that is seen is in that mode itself. */
  lemma {:induction false} SeenOnTheWay(nodes: seq<Node>, heads: seq<nat>, added: seq<Added>, c: Added, b: int, i: nat)
    requires Shaped(nodes, heads) && nodes != [] && AllInstalled(nodes, added) && Granted(nodes, added)
    requires Installed(nodes, c) && b in MODE_ALL && Seen(nodes, added, b, c.node) && i in Trail(nodes, 0, c.words)
    ensures b in nodes[i].mode
  {
    var mine := Trail(nodes, 0, c.words);
    if c.node == 0 {
      TrailEnds(nodes, heads, c, mine);
      LowerThanTop(nodes, heads, mine);
    } else {
      var k :| 0 <= k < |added| && Runs(nodes, added[k], b, c.node);
      RunsThroughAll(nodes, heads, added[k], c, b, mine, i);
    }
  }

  lemma {:induction false} RunsThroughAll(nodes: seq<Node>, heads: seq<nat>, d: Added, c: Added, b: int,
                                          mine: seq<nat>, i: nat)
    requires Levels(nodes, heads) && Installed(nodes, c) && Installed(nodes, d) && Runs(nodes, d, b, c.node)
    requires mine == Trail(nodes, 0, c.words) && i in mine
    ensures b in nodes[i].mode
  {
    var other := Trail(nodes, 0, d.words);
    StartsAlike(nodes, heads, c, d, mine, other);
    TrailSays(nodes, heads, d, other);
    var p :| 0 <= p < |mine| && mine[p] == i;
    assert other[p] == i;
  }

  /**
   A literal command is found in a mode, as its own node, if and only if that node is seen there: it
   is the head of the tree, or some command was added for the mode whose path runs through it.
   */
  lemma {:induction false} FoundIff(nodes: seq<Node>, heads: seq<nat>, sp: Special, added: seq<Added>, c: Added, b: int)
    requires Shaped(nodes, heads) && nodes != [] && AllInstalled(nodes, added) && Granted(nodes, added)
    requires Installed(nodes, c) && Literal(c.words) && 0 <= b < 64
    ensures FindWords(nodes, sp, {b}, 0, c.words).node == Some(c.node) <==> Seen(nodes, added, b, c.node)
  {
    if FindWords(nodes, sp, {b}, 0, c.words).node == Some(c.node) {
      FoundIsVisible(nodes, sp, {b}, 0, c.words, FinderOf(nodes, sp, {b}));
      assert b in nodes[c.node].mode;
    }
    if Seen(nodes, added, b, c.node) {
      forall i | i in Trail(nodes, 0, c.words) ensures b in nodes[i].mode {
        SeenOnTheWay(nodes, heads, added, c, b, i);
      }
      SeenIsFound(nodes, sp, c, b);
    }
  }

  lemma {:induction false} SeenIsFound(nodes: seq<Node>, sp: Special, c: Added, b: int)
    requires Installed(nodes, c) && Literal(c.words) && 0 <= b < 64
    requires forall i :: i in Trail(nodes, 0, c.words) ==> b in nodes[i].mode
    ensures FindWords(nodes, sp, {b}, 0, c.words).node == Some(c.node)
  {
    var one: Mode := {b};
    PathInMode(nodes, c.mode, one, 0, c.words);
    assert one * one == one;
    LiteralIsFound(nodes, sp, one, one, 0, c.words);
  }

  /** A command may be executed in a mode if and only if it was added, with the same words, for that mode. */
  lemma {:induction false} ExecutableIff(nodes: seq<Node>, heads: seq<nat>, added: seq<Added>, c: Added, b: int)
    requires Shaped(nodes, heads) && nodes != [] && AllInstalled(nodes, added) && Granted(nodes, added)
    requires Installed(nodes, c)
    ensures b in nodes[c.node].exeMode <==>
            exists k :: 0 <= k < |added| && b in added[k].mode && added[k].words == c.words
  {
    if b in nodes[c.node].exeMode {
      assert Executed(added, b, c.node);
      var k :| 0 <= k < |added| && Ends(added[k], b, c.node);
      SameWords(nodes, heads, added[k], c);
    }
    if exists k :: 0 <= k < |added| && b in added[k].mode && added[k].words == c.words {
      var k :| 0 <= k < |added| && b in added[k].mode && added[k].words == c.words;
      assert Installed(nodes, added[k]);
      TrailEnds(nodes, heads, added[k], Trail(nodes, 0, c.words));
      TrailEnds(nodes, heads, c, Trail(nodes, 0, c.words));
    }
  }

  /** Commands that end at the same node have the same words. */
  lemma {:induction false} SameWords(nodes: seq<Node>, heads: seq<nat>, c: Added, d: Added)
    requires Levels(nodes, heads) && Installed(nodes, c) && Installed(nodes, d) && c.node == d.node
    ensures c.words == d.words
  {
    var x, y := Trail(nodes, 0, c.words), Trail(nodes, 0, d.words);
    TrailEnds(nodes, heads, c, x);
    TrailEnds(nodes, heads, d, y);
    WaysAgree(nodes, heads, x, y);
    TrailSays(nodes, heads, c, x);
    TrailSays(nodes, heads, d, y);
    forall k | 0 <= k < |x| ensures c.words[k] == d.words[k] {
      assert nodes[x[k]].token == Some(c.words[k]) && nodes[y[k]].token == Some(d.words[k]);
    }
  }

  /** A literal command is found, and completed to its words, by any unambiguous abbreviation of them. */
  lemma {:induction false} AbbreviationIsFound(nodes: seq<Node>, sp: Special, c: Added, mode: Mode, line: string)
    requires Installed(nodes, c) && Literal(c.words) && Meets(c.mode, mode)
    requires Abbreviated(nodes, sp, mode, 0, c.words, Words(line))
    ensures FindWords(nodes, sp, mode, 0, Words(line)).node == Some(c.node)
    ensures FindWords(nodes, sp, mode, 0, Words(line)).completed == c.words
  {
    AbbreviatedIsFound(nodes, sp, c.mode, mode, 0, c.words, Words(line), FinderOf(nodes, sp, mode));
  }
}
