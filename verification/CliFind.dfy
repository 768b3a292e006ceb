/**
 Looking a command line up in the tree: on each level a word is taken by the node with
 exactly that token, else by the first special token that accepts it, else by the one
 token it abbreviates. What a special token accepts is a parameter.
 */
module CliFind {
  import opened Common
  import opened CliWords
  import opened CliTree

  type Special = (string, string) -> bool

  /** The node a word selects and the word it is completed to. */
  datatype Hit = Hit(node: nat, word: string)

  /** Chooses, on the level of a node, a node for a word. */
  type Chooser = (nat, string) -> Option<Hit>

  /** `last` is the deepest node matched, also when the lookup fails further on. */
  datatype Lookup = Lookup(node: Option<nat>, completed: seq<string>, last: Option<nat>)

  predicate IsSpecial(token: string) {
    token != "" && token[0] == '<'
  }

  function ExactTest(mode: Mode, t: string): Node -> bool {
    (n: Node) => n.token.Some? && !IsSpecial(n.token.value) && Meets(n.mode, mode) && t == n.token.value
  }

  function SpecialTest(sp: Special, mode: Mode, t: string): Node -> bool {
    (n: Node) => n.token.Some? && IsSpecial(n.token.value) && Meets(n.mode, mode) && sp(n.token.value, t)
  }

  function PrefixTest(mode: Mode, t: string): Node -> bool {
    (n: Node) => n.token.Some? && !IsSpecial(n.token.value) && Meets(n.mode, mode) && t <= n.token.value
  }

  /** The nodes from `cur` on along the level that pass the test. */
  ghost function Matches(nodes: seq<Node>, cur: nat, test: Node -> bool): (r: seq<nat>)
    requires Linked(nodes) && cur < |nodes|
    ensures forall k :: 0 <= k < |r| ==> r[k] < |nodes| && test(nodes[r[k]])
    decreases |nodes| - cur
  {
    (if test(nodes[cur]) then [cur] else [])
    + (if nodes[cur].next.None? then [] else Matches(nodes, nodes[cur].next.value, test))
  }

  ghost function FindToken(nodes: seq<Node>, sp: Special, mode: Mode, cur: nat, t: string): (r: Option<Hit>)
    requires Linked(nodes) && cur < |nodes|
    ensures r.Some? ==> r.value.node < |nodes|
  {
    var exact := Matches(nodes, cur, ExactTest(mode, t));
    var special := Matches(nodes, cur, SpecialTest(sp, mode, t));
    var prefix := Matches(nodes, cur, PrefixTest(mode, t));
    if exact != [] then Some(Hit(exact[0], t))
    else if special != [] then Some(Hit(special[0], t))
    else if |prefix| == 1 then Some(Hit(prefix[0], nodes[prefix[0]].token.value))
    else None
  }

  /** Looking up word by word, level by level, with `find` choosing the node on a level. */
  ghost function FindWith(find: Chooser, nodes: seq<Node>, cur: nat, words: seq<string>): (r: Lookup)
    ensures r.node.Some? ==> |r.completed| == |words| > 0
    decreases |words|
  {
    if words == [] then Lookup(None, [], None)
    else
      match find(cur, words[0])
      case None => Lookup(None, [], None)
      case Some(h) =>
        if |words| == 1 then Lookup(Some(h.node), [h.word], Some(h.node))
        else if h.node >= |nodes| || nodes[h.node].rule.None? then Lookup(None, [h.word], Some(h.node))
        else
          var r := FindWith(find, nodes, nodes[h.node].rule.value, words[1..]);
          Lookup(r.node, [h.word] + r.completed, if r.last.Some? then r.last else Some(h.node))
  }

  /** The lookup ends with the first word if it is the only one, or there is nothing below its node. */
  lemma {:induction false} LookupEnds(
      find: Chooser, nodes: seq<Node>, cur: nat, words: seq<string>, before: string)
    requires words != [] && find(cur, words[0]).Some? && find(cur, words[0]).value.node < |nodes|
    requires |words| == 1 || nodes[find(cur, words[0]).value.node].rule.None?
    ensures var h, r := find(cur, words[0]).value, FindWith(find, nodes, cur, words);
            && r == Lookup(if |words| == 1 then Some(h.node) else None, [h.word], Some(h.node))
            && before + Spell(r.completed) == before + h.word + " "
  {
    var h := find(cur, words[0]).value;
    SpellCons(before, h.word, []);
    assert [h.word] + [] == [h.word];
  }

  lemma {:induction false} LookupGoesOn(
      find: Chooser, nodes: seq<Node>, cur: nat, words: seq<string>, before: string)
    requires |words| > 1 && find(cur, words[0]).Some? && find(cur, words[0]).value.node < |nodes|
    requires nodes[find(cur, words[0]).value.node].rule.Some?
    ensures var h, r := find(cur, words[0]).value, FindWith(find, nodes, cur, words);
            var q := FindWith(find, nodes, nodes[h.node].rule.value, words[1..]);
            && r == Lookup(q.node, [h.word] + q.completed, if q.last.Some? then q.last else Some(h.node))
            && before + Spell(r.completed) == before + h.word + " " + Spell(q.completed)
  {
    var h := find(cur, words[0]).value;
    SpellCons(before, h.word, FindWith(find, nodes, nodes[h.node].rule.value, words[1..]).completed);
  }

  /**
   Whatever becomes of the lookup, the words completed are those of the longest front part of the
   line that is found, and the last match is the node that part leads to.
   */
  lemma {:induction false} LastIsLongestFound(find: Chooser, nodes: seq<Node>, cur: nat, words: seq<string>)
    ensures var r := FindWith(find, nodes, cur, words);
            var n := |r.completed|;
            && n <= |words| && (r.node.Some? <==> n == |words| > 0) && (r.last.None? <==> n == 0)
            && (n > 0 ==> FindWith(find, nodes, cur, words[..n]) == Lookup(r.last, r.completed, r.last))
    decreases |words|
  {
    if words != [] && find(cur, words[0]).Some? {
      var h := find(cur, words[0]).value;
      if |words| > 1 && h.node < |nodes| && nodes[h.node].rule.Some? {
        var below := nodes[h.node].rule.value;
        LastIsLongestFound(find, nodes, below, words[1..]);
        var r := FindWith(find, nodes, below, words[1..]);
        assert words[..|r.completed| + 1][1..] == words[1..][..|r.completed|];
      }
    }
  }

  ghost function FinderOf(nodes: seq<Node>, sp: Special, mode: Mode): Chooser {
    (cur: nat, t: string) => if Linked(nodes) && cur < |nodes| then FindToken(nodes, sp, mode, cur, t) else None
  }

  ghost function FindWords(nodes: seq<Node>, sp: Special, mode: Mode, cur: nat, words: seq<string>): Lookup {
    FindWith(FinderOf(nodes, sp, mode), nodes, cur, words)
  }

  lemma {:induction false} MatchesNarrow(nodes: seq<Node>, cur: nat, wide: Node -> bool, narrow: Node -> bool)
    requires Linked(nodes) && cur < |nodes| && |Matches(nodes, cur, wide)| <= 1
    requires forall n :: narrow(n) ==> wide(n)
    requires forall k :: 0 <= k < |Matches(nodes, cur, wide)| ==> narrow(nodes[Matches(nodes, cur, wide)[k]])
    ensures Matches(nodes, cur, narrow) == Matches(nodes, cur, wide)
    decreases |nodes| - cur
  {
    var all := Matches(nodes, cur, wide);
    assert wide(nodes[cur]) ==> all[0] == cur;
    if nodes[cur].next.Some? {
      var rest := Matches(nodes, nodes[cur].next.value, wide);
      assert all == (if wide(nodes[cur]) then [cur] else []) + rest;
      forall k | 0 <= k < |rest| ensures narrow(nodes[rest[k]]) {
        assert rest[k] == all[|all| - |rest| + k];
      }
      MatchesNarrow(nodes, nodes[cur].next.value, wide, narrow);
    }
  }

  /** The word a word was completed to selects the same node. */
  lemma {:induction false} CompletionSelectsSame(nodes: seq<Node>, sp: Special, mode: Mode, cur: nat, t: string)
    requires Linked(nodes) && cur < |nodes| && FindToken(nodes, sp, mode, cur, t).Some?
    ensures var h := FindToken(nodes, sp, mode, cur, t).value;
            FindToken(nodes, sp, mode, cur, h.word) == Some(h)
  {
    var h := FindToken(nodes, sp, mode, cur, t).value;
    if h.word != t {
      var prefix := Matches(nodes, cur, PrefixTest(mode, t));
      assert prefix == [h.node];
      MatchesNarrow(nodes, cur, PrefixTest(mode, t), ExactTest(mode, h.word));
    }
  }

  lemma {:induction false} CompletionRepeats(find: Chooser, nodes: seq<Node>, cur: nat, words: seq<string>)
    requires forall c: nat, t: string {:trigger find(c, t)} :: find(c, t).Some? ==>
               find(c, find(c, t).value.word) == find(c, t)
    requires FindWith(find, nodes, cur, words).node.Some?
    ensures var r := FindWith(find, nodes, cur, words); FindWith(find, nodes, cur, r.completed) == r
    decreases |words|
  {
    var h := find(cur, words[0]).value;
    if |words| > 1 {
      var below := nodes[h.node].rule.value;
      CompletionRepeats(find, nodes, below, words[1..]);
      var r := FindWith(find, nodes, below, words[1..]);
      assert ([h.word] + r.completed)[1..] == r.completed;
    }
  }

  /** Completing a completed command changes nothing, neither the node nor the words. */
  lemma {:induction false} CompletionIsIdempotent(nodes: seq<Node>, sp: Special, mode: Mode, cur: nat,
                                                  words: seq<string>)
    requires Linked(nodes) && cur < |nodes| && FindWords(nodes, sp, mode, cur, words).node.Some?
    ensures var r := FindWords(nodes, sp, mode, cur, words);
            FindWords(nodes, sp, mode, cur, r.completed) == r
  {
    var find := FinderOf(nodes, sp, mode);
    forall c, t | find(c, t).Some? ensures find(c, find(c, t).value.word) == find(c, t) {
      CompletionSelectsSame(nodes, sp, mode, c, t);
    }
    CompletionRepeats(find, nodes, cur, words);
  }

  ghost predicate TokensAreWords(nodes: seq<Node>) {
    forall i :: 0 <= i < |nodes| && nodes[i].token.Some? ==> IsWord(nodes[i].token.value)
  }

  lemma {:induction false} HitIsWord(nodes: seq<Node>, sp: Special, mode: Mode, cur: nat, t: string)
    requires Linked(nodes) && cur < |nodes| && TokensAreWords(nodes) && IsWord(t)
    ensures var h := FindToken(nodes, sp, mode, cur, t); h.Some? ==> IsWord(h.value.word)
  {
  }

  lemma {:induction false} CompletedAreWords(find: Chooser, nodes: seq<Node>, cur: nat, words: seq<string>)
    requires forall c: nat, t: string {:trigger find(c, t)} :: IsWord(t) && find(c, t).Some? ==>
               IsWord(find(c, t).value.word)
    requires AllWords(words)
    ensures AllWords(FindWith(find, nodes, cur, words).completed)
    decreases |words|
  {
    if |words| > 1 && find(cur, words[0]).Some? {
      var h := find(cur, words[0]).value;
      if h.node < |nodes| && nodes[h.node].rule.Some? {
        CompletedAreWords(find, nodes, nodes[h.node].rule.value, words[1..]);
      }
    }
  }

  /** Looking up the completed line finds the same node and completes to the same line. */
  lemma {:induction false} CompletedLineFindsSame(nodes: seq<Node>, sp: Special, mode: Mode, cur: nat, line: string)
    requires Linked(nodes) && cur < |nodes| && TokensAreWords(nodes)
    requires FindWords(nodes, sp, mode, cur, Words(line)).node.Some?
    ensures var r := FindWords(nodes, sp, mode, cur, Words(line));
            FindWords(nodes, sp, mode, cur, Words(Spell(r.completed))) == r
  {
    var r := FindWords(nodes, sp, mode, cur, Words(line));
    WordsAreWords(line);
    var find := FinderOf(nodes, sp, mode);
    forall c, t | IsWord(t) && find(c, t).Some? ensures IsWord(find(c, t).value.word) {
      HitIsWord(nodes, sp, mode, c, t);
    }
    CompletedAreWords(find, nodes, cur, Words(line));
    WordsOfSpell(r.completed);
    CompletionIsIdempotent(nodes, sp, mode, cur, Words(line));
  }

  ghost predicate Literal(words: seq<string>) {
    forall i :: 0 <= i < |words| ==> IsWord(words[i]) && !IsSpecial(words[i])
  }

  lemma MeetsWithin(a: Mode, b: Mode, c: Mode)
    requires Within(a, b) && Meets(a, c)
    ensures Meets(b, c)
  {
    assert a * c <= b * c;
  }

  lemma {:induction false} ExactIsFirst(nodes: seq<Node>, mode: Mode, cur: nat, t: string)
    requires Linked(nodes) && cur < |nodes| && !IsSpecial(t) && SiblingWith(nodes, cur, t).Some?
    requires Meets(nodes[SiblingWith(nodes, cur, t).value].mode, mode)
    ensures var m := Matches(nodes, cur, ExactTest(mode, t)); m != [] && m[0] == SiblingWith(nodes, cur, t).value
    decreases |nodes| - cur
  {
    if nodes[cur].token != Some(t) {
      ExactIsFirst(nodes, mode, nodes[cur].next.value, t);
    }
  }

  lemma {:induction false} LiteralTokenIsFound(nodes: seq<Node>, sp: Special, added: Mode, mode: Mode, cur: nat,
                                               t: string)
    requires Linked(nodes) && cur < |nodes| && !IsSpecial(t) && Meets(added, mode)
    requires SiblingWith(nodes, cur, t).Some? && Within(added, nodes[SiblingWith(nodes, cur, t).value].mode)
    ensures FindToken(nodes, sp, mode, cur, t) == Some(Hit(SiblingWith(nodes, cur, t).value, t))
  {
    MeetsWithin(added, nodes[SiblingWith(nodes, cur, t).value].mode, mode);
    ExactIsFirst(nodes, mode, cur, t);
  }

  lemma {:induction false} LiteralIsFoundWith(
      find: Chooser, nodes: seq<Node>, added: Mode, cur: nat, words: seq<string>)
    requires Linked(nodes) && cur < |nodes| && Literal(words) && Path(nodes, added, cur, words).Some?
    requires forall c: nat, t: string {:trigger FindsLiteral(find, nodes, added, c, t)} ::
               FindsLiteral(find, nodes, added, c, t)
    ensures FindWith(find, nodes, cur, words).node == Path(nodes, added, cur, words)
    ensures FindWith(find, nodes, cur, words).completed == words
    decreases |words|
  {
    assert FindsLiteral(find, nodes, added, cur, words[0]);
    assert find(cur, words[0]) == Some(Hit(SiblingWith(nodes, cur, words[0]).value, words[0]));
    if |words| > 1 {
      assert forall i :: 0 <= i < |words| - 1 ==> words[1..][i] == words[i + 1];
      LiteralIsFoundWith(find, nodes, added, nodes[SiblingWith(nodes, cur, words[0]).value].rule.value, words[1..]);
    }
  }

  /** Where a literal token has a node that is in all of `added`, `find` takes that node. */
  ghost predicate FindsLiteral(find: Chooser, nodes: seq<Node>, added: Mode, cur: nat, t: string)
    requires Linked(nodes)
  {
    cur < |nodes| && !IsSpecial(t) && SiblingWith(nodes, cur, t).Some?
    && Within(added, nodes[SiblingWith(nodes, cur, t).value].mode) ==>
      find(cur, t) == Some(Hit(SiblingWith(nodes, cur, t).value, t))
  }

  /** A literal command is found at the node its tokens lead to, in every mode it was added for. */
  lemma {:induction false} LiteralIsFound(nodes: seq<Node>, sp: Special, added: Mode, mode: Mode, cur: nat,
                                          words: seq<string>)
    requires Linked(nodes) && cur < |nodes| && Literal(words) && Meets(added, mode)
    requires Path(nodes, added, cur, words).Some?
    ensures FindWords(nodes, sp, mode, cur, words).node == Path(nodes, added, cur, words)
    ensures FindWords(nodes, sp, mode, cur, words).completed == words
  {
    var find := FinderOf(nodes, sp, mode);
    forall c: nat, t ensures FindsLiteral(find, nodes, added, c, t) {
      if c < |nodes| && !IsSpecial(t) && SiblingWith(nodes, c, t).Some?
         && Within(added, nodes[SiblingWith(nodes, c, t).value].mode) {
        LiteralTokenIsFound(nodes, sp, added, mode, c, t);
      }
    }
    LiteralIsFoundWith(find, nodes, added, cur, words);
  }

  /** A node is visible to the retry that follows its creation exactly when its mode is not empty. */
  lemma CreatedNodeIsSeenIff(mode: Mode)
    ensures Meets(mode, MODE_ALL) <==> mode != {}
  {
    assert mode * MODE_ALL == mode;
  }

  /** `find` chooses as the token lookup does; stated so as to be used only where that lookup is at hand. */
  ghost predicate FindsTokens(find: Chooser, nodes: seq<Node>, sp: Special, mode: Mode)
    requires Linked(nodes)
  {
    forall c: nat, t: string {:trigger FindToken(nodes, sp, mode, c, t)} :: c < |nodes| ==>
      find(c, t) == FindToken(nodes, sp, mode, c, t)
  }
}
