/**
 Which node of a level takes a word, said of the nodes of the level: the one with that token, else
 the first special one that accepts the word, else the only one the word abbreviates.
 */
module CliAbbrev {
  import opened Common
  import opened CliWords
  import opened CliTree
  import opened CliFind

  /** Node `i` is reached from `cur` along the level. */
  ghost predicate OnLevel(nodes: seq<Node>, cur: nat, i: nat)
    requires Linked(nodes) && cur < |nodes|
    decreases |nodes| - cur
  {
    i == cur || (nodes[cur].next.Some? && OnLevel(nodes, nodes[cur].next.value, i))
  }

  /** The nodes that pass are found, and they alone. */
  lemma {:induction false} MatchIs(nodes: seq<Node>, cur: nat, test: Node -> bool, i: nat)
    requires Linked(nodes) && cur < |nodes|
    ensures i in Matches(nodes, cur, test) <==> i < |nodes| && OnLevel(nodes, cur, i) && test(nodes[i])
    decreases |nodes| - cur
  {
    var first := if test(nodes[cur]) then [cur] else [];
    if nodes[cur].next.Some? {
      var next := nodes[cur].next.value;
      MatchIs(nodes, next, test, i);
      assert Matches(nodes, cur, test) == first + Matches(nodes, next, test);
    } else {
      assert Matches(nodes, cur, test) == first + [];
    }
  }

  /** They are found in the order of the level. */
  lemma {:induction false} MatchesRise(nodes: seq<Node>, cur: nat, test: Node -> bool, m: seq<nat>)
    requires Linked(nodes) && cur < |nodes| && m == Matches(nodes, cur, test)
    ensures forall j, k :: 0 <= j < k < |m| ==> m[j] < m[k]
    ensures forall k :: 0 <= k < |m| ==> cur <= m[k]
    decreases |nodes| - cur
  {
    var first := if test(nodes[cur]) then [cur] else [];
    if nodes[cur].next.Some? {
      var next := nodes[cur].next.value;
      var rest := Matches(nodes, next, test);
      MatchesRise(nodes, next, test, rest);
      assert m == first + rest;
    }
  }

  predicate Visible(n: Node, mode: Mode) {
    n.token.Some? && n.mode * mode != {}
  }

  /** The token is not one in angle brackets. */
  predicate Plain(token: string) {
    token == "" || token[0] != '<'
  }

  predicate Begins(t: string, token: string) {
    |t| <= |token| && token[..|t|] == t
  }

  /** A visible node of the level whose token is the word itself. */
  ghost predicate IsExact(nodes: seq<Node>, mode: Mode, cur: nat, t: string, i: nat)
    requires Linked(nodes) && cur < |nodes|
  {
    i < |nodes| && OnLevel(nodes, cur, i) && Visible(nodes[i], mode) && Plain(nodes[i].token.value)
    && nodes[i].token.value == t
  }

  /** A visible special node of the level that accepts the word. */
  ghost predicate IsAccepting(nodes: seq<Node>, sp: Special, mode: Mode, cur: nat, t: string, i: nat)
    requires Linked(nodes) && cur < |nodes|
  {
    i < |nodes| && OnLevel(nodes, cur, i) && Visible(nodes[i], mode) && !Plain(nodes[i].token.value)
    && sp(nodes[i].token.value, t)
  }

  /** A visible node of the level whose token the word abbreviates. */
  ghost predicate IsBegun(nodes: seq<Node>, mode: Mode, cur: nat, t: string, i: nat)
    requires Linked(nodes) && cur < |nodes|
  {
    i < |nodes| && OnLevel(nodes, cur, i) && Visible(nodes[i], mode) && Plain(nodes[i].token.value)
    && Begins(t, nodes[i].token.value)
  }

  lemma {:induction false} ExactIs(nodes: seq<Node>, mode: Mode, cur: nat, t: string, i: nat)
    requires Linked(nodes) && cur < |nodes|
    ensures i in Matches(nodes, cur, ExactTest(mode, t)) <==> IsExact(nodes, mode, cur, t, i)
  {
    MatchIs(nodes, cur, ExactTest(mode, t), i);
  }

  lemma {:induction false} AcceptingIs(nodes: seq<Node>, sp: Special, mode: Mode, cur: nat, t: string, i: nat)
    requires Linked(nodes) && cur < |nodes|
    ensures i in Matches(nodes, cur, SpecialTest(sp, mode, t)) <==> IsAccepting(nodes, sp, mode, cur, t, i)
  {
    MatchIs(nodes, cur, SpecialTest(sp, mode, t), i);
    if i < |nodes| && nodes[i].token.Some? {
      var v := nodes[i].token.value;
      assert SpecialTest(sp, mode, t)(nodes[i]) <==> IsSpecial(v) && Meets(nodes[i].mode, mode) && sp(v, t);
    }
  }

  lemma {:induction false} BegunIs(nodes: seq<Node>, mode: Mode, cur: nat, t: string, i: nat)
    requires Linked(nodes) && cur < |nodes|
    ensures i in Matches(nodes, cur, PrefixTest(mode, t)) <==> IsBegun(nodes, mode, cur, t, i)
  {
    MatchIs(nodes, cur, PrefixTest(mode, t), i);
    if i < |nodes| && nodes[i].token.Some? {
      BeginsIsPrefix(t, nodes[i].token.value);
    }
  }

  lemma {:induction false} BeginsIsPrefix(t: string, token: string)
    ensures Begins(t, token) <==> t <= token
  {
  }

  ghost predicate NoExact(nodes: seq<Node>, mode: Mode, cur: nat, t: string)
    requires Linked(nodes) && cur < |nodes|
  {
    forall i: nat :: !IsExact(nodes, mode, cur, t, i)
  }

  ghost predicate NoAccepting(nodes: seq<Node>, sp: Special, mode: Mode, cur: nat, t: string)
    requires Linked(nodes) && cur < |nodes|
  {
    forall i: nat :: !IsAccepting(nodes, sp, mode, cur, t, i)
  }

  /** A word that is a token of the level is taken by the first node with it. */
  lemma {:induction false} ExactIsTaken(nodes: seq<Node>, sp: Special, mode: Mode, cur: nat, t: string, i: nat)
    requires Linked(nodes) && cur < |nodes| && IsExact(nodes, mode, cur, t, i)
    requires forall j: nat :: j < i ==> !IsExact(nodes, mode, cur, t, j)
    ensures FindToken(nodes, sp, mode, cur, t) == Some(Hit(i, t))
  {
    var test := ExactTest(mode, t);
    ExactIs(nodes, mode, cur, t, i);
    forall j: nat | j < i ensures j !in Matches(nodes, cur, test) {
      ExactIs(nodes, mode, cur, t, j);
    }
    FirstIs(nodes, cur, test, i);
  }

  lemma {:induction false} FirstIs(nodes: seq<Node>, cur: nat, test: Node -> bool, i: nat)
    requires Linked(nodes) && cur < |nodes| && i in Matches(nodes, cur, test)
    requires forall j: nat :: j < i ==> j !in Matches(nodes, cur, test)
    ensures Matches(nodes, cur, test)[0] == i
  {
    var m := Matches(nodes, cur, test);
    MatchesRise(nodes, cur, test, m);
    assert m[0] in m;
    var k :| 0 <= k < |m| && m[k] == i;
  }

  /** A word no token equals, but special tokens accept, is taken by the first of them. */
  lemma {:induction false} AcceptedIsTaken(nodes: seq<Node>, sp: Special, mode: Mode, cur: nat, t: string, i: nat)
    requires Linked(nodes) && cur < |nodes| && NoExact(nodes, mode, cur, t)
    requires IsAccepting(nodes, sp, mode, cur, t, i)
    requires forall j: nat :: j < i ==> !IsAccepting(nodes, sp, mode, cur, t, j)
    ensures FindToken(nodes, sp, mode, cur, t) == Some(Hit(i, t))
  {
    var test := SpecialTest(sp, mode, t);
    NoneExact(nodes, mode, cur, t);
    AcceptingIs(nodes, sp, mode, cur, t, i);
    forall j: nat | j < i ensures j !in Matches(nodes, cur, test) {
      AcceptingIs(nodes, sp, mode, cur, t, j);
    }
    FirstIs(nodes, cur, test, i);
  }

  lemma {:induction false} NoneExact(nodes: seq<Node>, mode: Mode, cur: nat, t: string)
    requires Linked(nodes) && cur < |nodes| && NoExact(nodes, mode, cur, t)
    ensures Matches(nodes, cur, ExactTest(mode, t)) == []
  {
    var m := Matches(nodes, cur, ExactTest(mode, t));
    if m != [] {
      ExactIs(nodes, mode, cur, t, m[0]);
    }
  }

  lemma {:induction false} NoneAccepting(nodes: seq<Node>, sp: Special, mode: Mode, cur: nat, t: string)
    requires Linked(nodes) && cur < |nodes| && NoAccepting(nodes, sp, mode, cur, t)
    ensures Matches(nodes, cur, SpecialTest(sp, mode, t)) == []
  {
    var m := Matches(nodes, cur, SpecialTest(sp, mode, t));
    if m != [] {
      AcceptingIs(nodes, sp, mode, cur, t, m[0]);
    }
  }

  /** Any other word is taken if it abbreviates just one token, which completes it, and else not at all. */
  lemma {:induction false} AbbreviationIsTakenIff(nodes: seq<Node>, sp: Special, mode: Mode, cur: nat, t: string,
                                                  i: nat)
    requires Linked(nodes) && cur < |nodes| && NoExact(nodes, mode, cur, t) && NoAccepting(nodes, sp, mode, cur, t)
    ensures var r := FindToken(nodes, sp, mode, cur, t);
            && (r.Some? && r.value.node == i <==>
                  IsBegun(nodes, mode, cur, t, i) && forall j: nat :: IsBegun(nodes, mode, cur, t, j) ==> j == i)
            && (r.Some? && r.value.node == i ==> r.value.word == nodes[i].token.value)
  {
    NoneExact(nodes, mode, cur, t);
    NoneAccepting(nodes, sp, mode, cur, t);
    OnlyBegun(nodes, mode, cur, t, i);
    assert Matches(nodes, cur, PrefixTest(mode, t)) == [i] <==>
           |Matches(nodes, cur, PrefixTest(mode, t))| == 1 && Matches(nodes, cur, PrefixTest(mode, t))[0] == i;
  }

  lemma {:induction false} OnlyBegun(nodes: seq<Node>, mode: Mode, cur: nat, t: string, i: nat)
    requires Linked(nodes) && cur < |nodes|
    ensures Matches(nodes, cur, PrefixTest(mode, t)) == [i] <==>
            IsBegun(nodes, mode, cur, t, i) && forall j: nat :: IsBegun(nodes, mode, cur, t, j) ==> j == i
  {
    var m := Matches(nodes, cur, PrefixTest(mode, t));
    MatchesRise(nodes, cur, PrefixTest(mode, t), m);
    BegunIs(nodes, mode, cur, t, i);
    if m == [i] {
      forall j: nat | IsBegun(nodes, mode, cur, t, j) ensures j == i {
        BegunIs(nodes, mode, cur, t, j);
      }
    } else if IsBegun(nodes, mode, cur, t, i) {
      assert i in m;
      var k := if m[0] == i then 1 else 0;
      BegunIs(nodes, mode, cur, t, m[k]);
      assert m[k] in m && m[k] != i;
    }
  }

  /** Two tokens that a word abbreviates leave it untaken. */
  lemma {:induction false} AmbiguousIsNotTaken(nodes: seq<Node>, sp: Special, mode: Mode, cur: nat, t: string,
                                               i: nat, j: nat)
    requires Linked(nodes) && cur < |nodes| && NoExact(nodes, mode, cur, t) && NoAccepting(nodes, sp, mode, cur, t)
    requires i != j && IsBegun(nodes, mode, cur, t, i) && IsBegun(nodes, mode, cur, t, j)
    ensures FindToken(nodes, sp, mode, cur, t).None?
  {
    var r := FindToken(nodes, sp, mode, cur, t);
    if r.Some? {
      AbbreviationIsTakenIff(nodes, sp, mode, cur, t, r.value.node);
    }
  }

  // Whole commands.

  /** On each level the word typed is the token of the path, or abbreviates it and no other. */
  ghost predicate Abbreviated(nodes: seq<Node>, sp: Special, mode: Mode, cur: nat, words: seq<string>,
                              typed: seq<string>)
    requires Linked(nodes)
    decreases |words|
  {
    && |typed| == |words|
    && (words != [] && cur < |nodes| && SiblingWith(nodes, cur, words[0]).Some? ==>
          var i := SiblingWith(nodes, cur, words[0]).value;
          && (typed[0] == words[0] || OnlyAbbreviates(nodes, sp, mode, cur, typed[0], i))
          && (nodes[i].rule.Some? ==> Abbreviated(nodes, sp, mode, nodes[i].rule.value, words[1..], typed[1..])))
  }

  ghost predicate OnlyAbbreviates(nodes: seq<Node>, sp: Special, mode: Mode, cur: nat, t: string, i: nat)
    requires Linked(nodes) && cur < |nodes|
  {
    && NoExact(nodes, mode, cur, t) && NoAccepting(nodes, sp, mode, cur, t)
    && IsBegun(nodes, mode, cur, t, i) && forall j: nat :: IsBegun(nodes, mode, cur, t, j) ==> j == i
  }

  lemma {:induction false} TypedIsTaken(nodes: seq<Node>, sp: Special, added: Mode, mode: Mode, cur: nat, w: string,
                                        t: string, i: nat)
    requires Linked(nodes) && cur < |nodes| && !IsSpecial(w) && Meets(added, mode)
    requires SiblingWith(nodes, cur, w) == Some(i) && Within(added, nodes[i].mode)
    requires t == w || OnlyAbbreviates(nodes, sp, mode, cur, t, i)
    ensures FindToken(nodes, sp, mode, cur, t) == Some(Hit(i, w))
  {
    if t == w {
      LiteralTokenIsFound(nodes, sp, added, mode, cur, w);
    } else {
      AbbreviationIsTakenIff(nodes, sp, mode, cur, t, i);
    }
  }

  /** An abbreviated literal command is found at the end of its path, and completed to its words. */
  lemma {:induction false} AbbreviatedIsFound(nodes: seq<Node>, sp: Special, added: Mode, mode: Mode, cur: nat,
                                              words: seq<string>, typed: seq<string>, find: Chooser)
    requires Linked(nodes) && cur < |nodes| && Literal(words) && Meets(added, mode)
    requires Path(nodes, added, cur, words).Some? && Abbreviated(nodes, sp, mode, cur, words, typed)
    requires find == FinderOf(nodes, sp, mode)
    ensures FindWith(find, nodes, cur, typed).node == Path(nodes, added, cur, words)
    ensures FindWith(find, nodes, cur, typed).completed == words
    decreases |words|
  {
    var i := SiblingWith(nodes, cur, words[0]).value;
    TypedIsTaken(nodes, sp, added, mode, cur, words[0], typed[0], i);
    assert find(cur, typed[0]) == Some(Hit(i, words[0]));
    if |words| > 1 {
      LiteralRest(words);
      AbbreviatedIsFound(nodes, sp, added, mode, nodes[i].rule.value, words[1..], typed[1..], find);
    }
  }

  lemma {:induction false} LiteralRest(words: seq<string>)
    requires Literal(words) && words != []
    ensures Literal(words[1..]) && [words[0]] + words[1..] == words
  {
    assert forall k :: 0 <= k < |words| - 1 ==> words[1..][k] == words[k + 1];
  }
}
