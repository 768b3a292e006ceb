/**
 Looking up a command by its own text when it has special tokens. On a level the text of a
 special token is taken by the first special token that accepts it, which may be another one.
 */
module CliSpecial {
  import opened Common
  import opened CliWords
  import opened CliTree
  import opened CliFind

  /** Chooses the node that has the word as its token. */
  ghost function OwnOf(nodes: seq<Node>): Chooser {
    (cur: nat, t: string) =>
      if Linked(nodes) && cur < |nodes| && SiblingWith(nodes, cur, t).Some? then
        Some(Hit(SiblingWith(nodes, cur, t).value, t))
      else None
  }

  /** A path is what choosing each word's own node leads to. */
  lemma {:induction false} PathIsOwn(nodes: seq<Node>, mode: Mode, cur: nat, words: seq<string>)
    requires Linked(nodes) && cur < |nodes| && Path(nodes, mode, cur, words).Some?
    ensures FindWith(OwnOf(nodes), nodes, cur, words).node == Path(nodes, mode, cur, words)
    decreases |words|
  {
    if |words| > 1 {
      PathIsOwn(nodes, mode, nodes[SiblingWith(nodes, cur, words[0]).value].rule.value, words[1..]);
    }
  }

  // The node found determines the way to it.

  /** Whatever is chosen on a level is on that level. */
  ghost predicate StaysOnLevel(find: Chooser, nodes: seq<Node>, heads: seq<nat>)
    requires Levels(nodes, heads)
  {
    forall c: nat, t: string {:trigger find(c, t)} :: c < |nodes| && find(c, t).Some? ==>
      find(c, t).value.node < |nodes| && heads[find(c, t).value.node] == heads[c]
  }

  /** Equally long ways down from different levels never meet. */
  lemma {:induction false} WaysStayApart(f: Chooser, g: Chooser, nodes: seq<Node>, heads: seq<nat>,
                                         x: nat, y: nat, words: seq<string>)
    requires Levels(nodes, heads) && StaysOnLevel(f, nodes, heads) && StaysOnLevel(g, nodes, heads)
    requires x < |nodes| && y < |nodes| && heads[x] != heads[y]
    requires FindWith(f, nodes, x, words).node.Some? && FindWith(g, nodes, y, words).node.Some?
    ensures FindWith(f, nodes, x, words).node != FindWith(g, nodes, y, words).node
    decreases |words|
  {
    var a, b := f(x, words[0]).value.node, g(y, words[0]).value.node;
    if |words| > 1 {
      assert !SharesRule(nodes, if a < b then a else b, if a < b then b else a);
      WaysStayApart(f, g, nodes, heads, nodes[a].rule.value, nodes[b].rule.value, words[1..]);
    }
  }

  /** Both choose the same nodes for the words, level by level. */
  ghost predicate Agree(f: Chooser, g: Chooser, nodes: seq<Node>, cur: nat, words: seq<string>)
    decreases |words|
  {
    words == [] ||
    (&& f(cur, words[0]).Some? && g(cur, words[0]).Some?
     && f(cur, words[0]).value.node == g(cur, words[0]).value.node < |nodes|
     && (var n := nodes[f(cur, words[0]).value.node];
         |words| > 1 ==> n.rule.Some? && Agree(f, g, nodes, n.rule.value, words[1..])))
  }

  /** Two lookups end at the same node if and only if they agree on every level. */
  lemma {:induction false} SameEndIff(f: Chooser, g: Chooser, nodes: seq<Node>, heads: seq<nat>,
                                      cur: nat, words: seq<string>)
    requires Levels(nodes, heads) && StaysOnLevel(f, nodes, heads) && StaysOnLevel(g, nodes, heads)
    requires cur < |nodes| && FindWith(g, nodes, cur, words).node.Some?
    ensures FindWith(f, nodes, cur, words).node == FindWith(g, nodes, cur, words).node
            <==> Agree(f, g, nodes, cur, words)
    decreases |words|
  {
    if |words| > 1 && FindWith(f, nodes, cur, words).node.Some? {
      var a, b := f(cur, words[0]).value.node, g(cur, words[0]).value.node;
      if a == b {
        SameEndIff(f, g, nodes, heads, nodes[a].rule.value, words[1..]);
      } else {
        assert !SharesRule(nodes, if a < b then a else b, if a < b then b else a);
        WaysStayApart(f, g, nodes, heads, nodes[a].rule.value, nodes[b].rule.value, words[1..]);
      }
    } else if Agree(f, g, nodes, cur, words) {
      AgreeingIsFound(f, g, nodes, cur, words);
    }
  }

  lemma {:induction false} AgreeingIsFound(f: Chooser, g: Chooser, nodes: seq<Node>, cur: nat, words: seq<string>)
    requires Agree(f, g, nodes, cur, words)
    ensures FindWith(f, nodes, cur, words).node == FindWith(g, nodes, cur, words).node
    decreases |words|
  {
    if |words| > 1 {
      AgreeingIsFound(f, g, nodes, nodes[f(cur, words[0]).value.node].rule.value, words[1..]);
    }
  }

  // What the two choosers do on a level.

  lemma {:induction false} MatchesOnLevel(nodes: seq<Node>, heads: seq<nat>, cur: nat, test: Node -> bool)
    requires Levels(nodes, heads) && cur < |nodes|
    ensures forall k :: 0 <= k < |Matches(nodes, cur, test)| ==> heads[Matches(nodes, cur, test)[k]] == heads[cur]
    decreases |nodes| - cur
  {
    if nodes[cur].next.Some? {
      MatchesOnLevel(nodes, heads, nodes[cur].next.value, test);
    }
  }

  lemma {:induction false} SiblingOnLevel(nodes: seq<Node>, heads: seq<nat>, cur: nat, t: string)
    requires Levels(nodes, heads) && cur < |nodes| && SiblingWith(nodes, cur, t).Some?
    ensures heads[SiblingWith(nodes, cur, t).value] == heads[cur]
    decreases |nodes| - cur
  {
    if nodes[cur].token != Some(t) {
      SiblingOnLevel(nodes, heads, nodes[cur].next.value, t);
    }
  }

  lemma {:induction false} TokenOnLevel(nodes: seq<Node>, heads: seq<nat>, sp: Special, mode: Mode, cur: nat, t: string)
    requires Levels(nodes, heads) && cur < |nodes| && FindToken(nodes, sp, mode, cur, t).Some?
    ensures heads[FindToken(nodes, sp, mode, cur, t).value.node] == heads[cur]
  {
    MatchesOnLevel(nodes, heads, cur, ExactTest(mode, t));
    MatchesOnLevel(nodes, heads, cur, SpecialTest(sp, mode, t));
    MatchesOnLevel(nodes, heads, cur, PrefixTest(mode, t));
  }

  lemma {:induction false} ChoosersStay(nodes: seq<Node>, heads: seq<nat>, sp: Special, mode: Mode)
    requires Levels(nodes, heads)
    ensures StaysOnLevel(FinderOf(nodes, sp, mode), nodes, heads) && StaysOnLevel(OwnOf(nodes), nodes, heads)
  {
    forall c: nat, t | c < |nodes| && FinderOf(nodes, sp, mode)(c, t).Some?
      ensures heads[FinderOf(nodes, sp, mode)(c, t).value.node] == heads[c]
    {
      TokenOnLevel(nodes, heads, sp, mode, c, t);
    }
    forall c: nat, t | c < |nodes| && OwnOf(nodes)(c, t).Some?
      ensures heads[OwnOf(nodes)(c, t).value.node] == heads[c]
    {
      SiblingOnLevel(nodes, heads, c, t);
    }
  }

  /** The first special token in the mode that accepts the text. */
  ghost function FirstAccepting(nodes: seq<Node>, sp: Special, mode: Mode, cur: nat, t: string): (r: Option<nat>)
    requires Linked(nodes) && cur < |nodes|
    ensures r.Some? ==> r.value < |nodes|
    decreases |nodes| - cur
  {
    var n := nodes[cur];
    if n.token.Some? && IsSpecial(n.token.value) && Meets(n.mode, mode) && sp(n.token.value, t) then Some(cur)
    else if n.next.None? then None
    else FirstAccepting(nodes, sp, mode, n.next.value, t)
  }

  lemma {:induction false} FirstMatchAccepts(nodes: seq<Node>, sp: Special, mode: Mode, cur: nat, t: string)
    requires Linked(nodes) && cur < |nodes|
    ensures var m := Matches(nodes, cur, SpecialTest(sp, mode, t));
            FirstAccepting(nodes, sp, mode, cur, t) == if m == [] then None else Some(m[0])
    decreases |nodes| - cur
  {
    if nodes[cur].next.Some? {
      FirstMatchAccepts(nodes, sp, mode, nodes[cur].next.value, t);
    }
  }

  lemma {:induction false} NothingMatches(nodes: seq<Node>, cur: nat, test: Node -> bool)
    requires Linked(nodes) && cur < |nodes| && forall n :: !test(n)
    ensures Matches(nodes, cur, test) == []
    decreases |nodes| - cur
  {
    if nodes[cur].next.Some? {
      NothingMatches(nodes, nodes[cur].next.value, test);
    }
  }

  /** The text of a special token is taken by the first special token that accepts it. */
  lemma {:induction false} SpecialIsTaken(nodes: seq<Node>, sp: Special, mode: Mode, cur: nat, t: string)
    requires Linked(nodes) && cur < |nodes| && IsSpecial(t)
    ensures FindToken(nodes, sp, mode, cur, t) ==
            match FirstAccepting(nodes, sp, mode, cur, t) { case None => None case Some(i) => Some(Hit(i, t)) }
  {
    FirstMatchAccepts(nodes, sp, mode, cur, t);
    NothingMatches(nodes, cur, ExactTest(mode, t));
    NothingMatches(nodes, cur, PrefixTest(mode, t));
  }

  /** On every level of the path, a special token is the first in the mode to accept its own text. */
  ghost predicate AcceptedFirst(nodes: seq<Node>, sp: Special, mode: Mode, cur: nat, words: seq<string>)
    requires Linked(nodes)
    decreases |words|
  {
    words != [] && cur < |nodes| && SiblingWith(nodes, cur, words[0]).Some? ==>
      var i := SiblingWith(nodes, cur, words[0]).value;
      && (IsSpecial(words[0]) ==> FirstAccepting(nodes, sp, mode, cur, words[0]) == Some(i))
      && (nodes[i].rule.Some? ==> AcceptedFirst(nodes, sp, mode, nodes[i].rule.value, words[1..]))
  }

  /** The token's own node `i` is taken if and only if it comes first where it is special. */
  lemma {:induction false} OwnIsTakenIff(nodes: seq<Node>, sp: Special, added: Mode, mode: Mode, cur: nat, t: string,
                                         i: nat)
    requires Linked(nodes) && cur < |nodes| && SiblingWith(nodes, cur, t) == Some(i)
    requires Within(added, nodes[i].mode) && Meets(added, mode)
    ensures var r := FindToken(nodes, sp, mode, cur, t);
            (r.Some? && r.value.node == i) <==> (IsSpecial(t) ==> FirstAccepting(nodes, sp, mode, cur, t) == Some(i))
  {
    if IsSpecial(t) {
      SpecialIsTaken(nodes, sp, mode, cur, t);
    } else {
      LiteralTokenIsFound(nodes, sp, added, mode, cur, t);
    }
  }

  lemma {:induction false} AgreeIff(nodes: seq<Node>, sp: Special, added: Mode, mode: Mode, cur: nat,
                                    words: seq<string>,
                                    find: Chooser, own: Chooser)
    requires Linked(nodes) && cur < |nodes| && Path(nodes, added, cur, words).Some? && Meets(added, mode)
    requires find == FinderOf(nodes, sp, mode) && own == OwnOf(nodes)
    ensures Agree(find, own, nodes, cur, words) <==> AcceptedFirst(nodes, sp, mode, cur, words)
    decreases |words|
  {
    var i := SiblingWith(nodes, cur, words[0]).value;
    OwnIsTakenIff(nodes, sp, added, mode, cur, words[0], i);
    assert find(cur, words[0]) == FindToken(nodes, sp, mode, cur, words[0]);
    assert own(cur, words[0]) == Some(Hit(i, words[0]));
    if |words| > 1 {
      AgreeIff(nodes, sp, added, mode, nodes[i].rule.value, words[1..], find, own);
    }
  }

  /**
   A command is found at the end of its own path if and only if each of its special tokens is
   the first one in the mode, on its level, to accept its own text.
   */
  lemma {:induction false} OwnPathIsFoundIff(nodes: seq<Node>, heads: seq<nat>, sp: Special, added: Mode, mode: Mode,
                                             cur: nat, words: seq<string>)
    requires Levels(nodes, heads) && cur < |nodes| && Path(nodes, added, cur, words).Some? && Meets(added, mode)
    ensures FindWords(nodes, sp, mode, cur, words).node == Path(nodes, added, cur, words)
            <==> AcceptedFirst(nodes, sp, mode, cur, words)
  {
    var find, own := FinderOf(nodes, sp, mode), OwnOf(nodes);
    PathIsOwn(nodes, added, cur, words);
    ChoosersStay(nodes, heads, sp, mode);
    SameEndIff(find, own, nodes, heads, cur, words);
    AgreeIff(nodes, sp, added, mode, cur, words, find, own);
  }
}
