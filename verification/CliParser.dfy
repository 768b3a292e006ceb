/** The command parser: the shared node pool and the record of the last lookup. */
module CliParser {
  import opened Common
  import opened CliWords
  import opened CliTree
  import opened CliFind
  import opened CliSpecial
  import opened CliGrants

  class Parser {
    var nodes: seq<Node>
    var wordCompleted: string
    var lastNodeMatch: Option<nat>
    var depth: nat
    const special: Special
    ghost var heads: seq<nat>
    ghost var added: seq<Added>

    /**
     Every command added so far leads, in its mode, to the node made executable for it, and no node is
     seen or executed in a mode that none of them grants.
     */
    ghost predicate Valid()
      reads this
    {
      && Shaped(nodes, heads) && nodes != []
      && (forall i :: 0 < i < |nodes| ==> nodes[i].token.Some?)
      && AllInstalled(nodes, added) && Granted(nodes, added)
    }

    constructor (special: Special)
      ensures Valid() && added == [] && nodes == [Node(None, MODE_ALL, 0, {}, None, None)]
    {
      this.special := special;
      nodes := [Node(None, MODE_ALL, 0, {}, None, None)];
      heads, added := [0], [];
      wordCompleted, lastNodeMatch, depth := "", None, 0;
      new;
      assert 0 in MODE_ALL;
      assert FoundAt(nodes, heads, 0);
    }

    /** The node on the level of `cur` that has the token and is in any mode at all. */
    method FindSibling(cur: nat, token: string) returns (found: Option<nat>)
      requires Shaped(nodes, heads) && cur < |nodes|
      ensures found == SiblingWith(nodes, cur, token)
    {
      var i := Some(cur);
      while i.Some?
        invariant i.Some? ==> i.value < |nodes|
        invariant SiblingWith(nodes, cur, token) == if i.Some? then SiblingWith(nodes, i.value, token) else None
        decreases if i.Some? then |nodes| - i.value else -1
      {
        var n := nodes[i.value];
        CreatedNodeIsSeenIff(n.mode);
        if n.token == Some(token) && Meets(n.mode, MODE_ALL) {
          return i;
        }
        i := n.next;
      }
      return None;
    }

    method LastOnLevel(cur: nat) returns (last: nat)
      requires Shaped(nodes, heads) && cur < |nodes|
      ensures last == LastOf(nodes, cur)
    {
      last := cur;
      while nodes[last].next.Some?
        invariant last < |nodes| && LastOf(nodes, cur) == LastOf(nodes, last)
        decreases |nodes| - last
      {
        last := nodes[last].next.value;
      }
    }

    /**
     Adds the words of `str` below `cur`, creating nodes where the tree has none. A blank
     node takes the first word as its token; a new alternative is appended and then retried.
     */
    method AddInternal(mode: Mode, cur: nat, str: string) returns (ghost n: nat)
      requires mode != {} && Shaped(nodes, heads) && cur < |nodes|
      requires forall i :: 0 <= i < |nodes| && i != cur ==> nodes[i].token.Some?
      requires heads[cur] == cur || (Words(str) != [] && SiblingWith(nodes, cur, Words(str)[0]).Some?)
      modifies this`nodes, this`heads
      ensures Shaped(nodes, heads) && Extends(old(nodes), nodes)
      ensures Words(str) == [] ==> nodes == old(nodes)
      ensures Words(str) != [] ==>
                && (forall i :: 0 <= i < |nodes| ==> nodes[i].token.Some?)
                && Path(nodes, mode, cur, Words(str)) == Some(n)
                && Within(mode, nodes[n].exeMode)
                && Gains(old(nodes), nodes, Trail(nodes, cur, Words(str)), Some(n), mode)
                && (old(nodes)[cur].token.None? ==> nodes[cur].token == Some(Words(str)[0]))
      decreases |str|, if nodes[cur].token.None? then 3
                       else if Words(str) != [] && SiblingWith(nodes, cur, Words(str)[0]).Some? then 0 else 2
    {
      n := 0;
      var t := Trim(str);
      if t == "" {
        return;
      }
      WordsStep(str);
      var len := WordLen(t);
      var word, rest := t[..len], Trim(t[len..]);
      if nodes[cur].token.None? {
        NameBlank(mode, cur, word);
        ghost var mid := nodes;
        n := AddInternal(mode, cur, t);
        assert NodeExtends(mid[cur], nodes[cur]);
        Resume(old(nodes), mid, nodes, [], Trail(nodes, cur, Words(t)), Trail(nodes, cur, Words(t)), Some(n), mode);
        return;
      }
      var found := FindSibling(cur, word);
      if found.None? {
        n := Branch(mode, cur, t, word);
        return;
      }
      n := Follow(mode, cur, found.value, word, rest);
    }

    /** The word is not on the level: creates a node for it and tries again from there. */
    method Branch(mode: Mode, cur: nat, t: string, word: string) returns (ghost n: nat)
      requires mode != {} && Shaped(nodes, heads) && cur < |nodes| && heads[cur] == cur
      requires forall i :: 0 <= i < |nodes| ==> nodes[i].token.Some?
      requires Words(t) != [] && Words(t)[0] == word && IsWord(word) && SiblingWith(nodes, cur, word).None?
      modifies this`nodes, this`heads
      ensures Shaped(nodes, heads) && Extends(old(nodes), nodes)
      ensures forall i :: 0 <= i < |nodes| ==> nodes[i].token.Some?
      ensures Path(nodes, mode, cur, Words(t)) == Some(n) && Within(mode, nodes[n].exeMode)
      ensures Gains(old(nodes), nodes, Trail(nodes, cur, Words(t)), Some(n), mode)
      decreases |t|, 1
    {
      var at := AppendAlternative(mode, cur, word);
      ghost var mid := nodes;
      n := AddInternal(mode, at, t);
      SiblingKept(mid, nodes, cur, word);
      SiblingKept(mid, nodes, at, word);
      SameTrail(nodes, cur, at, Words(t));
      ghost var trail := Trail(nodes, cur, Words(t));
      Resume(old(nodes), mid, nodes, [at], trail, trail, Some(n), mode);
    }

    method NameBlank(ghost mode: Mode, cur: nat, word: string)
      requires Shaped(nodes, heads) && cur < |nodes| && heads[cur] == cur && nodes[cur].token.None? && IsWord(word)
      modifies this`nodes
      ensures Shaped(nodes, heads) && Extends(old(nodes), nodes) && Gains(old(nodes), nodes, [], None, mode)
      ensures |nodes| == |old(nodes)| && nodes[cur].token == Some(word)
      ensures forall i :: 0 <= i < |nodes| && i != cur ==> nodes[i].token == old(nodes)[i].token
    {
      UpdateKeepsShape(nodes, heads, cur, nodes[cur].(token := Some(word)));
      UpdateGains(nodes, cur, nodes[cur].(token := Some(word)), [], None, mode);
      nodes := nodes[cur := nodes[cur].(token := Some(word))];
    }

    /** Creates a node for a word the level does not have and links it at the end of the level. */
    method AppendAlternative(mode: Mode, cur: nat, word: string) returns (at: nat)
      requires Shaped(nodes, heads) && cur < |nodes| && heads[cur] == cur && mode != {} && IsWord(word)
      requires forall i :: 0 <= i < |nodes| ==> nodes[i].token.Some?
      requires SiblingWith(nodes, cur, word).None?
      modifies this`nodes, this`heads
      ensures Shaped(nodes, heads) && Extends(old(nodes), nodes) && Gains(old(nodes), nodes, [at], None, mode)
      ensures forall i :: 0 <= i < |nodes| ==> nodes[i].token.Some?
      ensures at < |nodes| && SiblingWith(nodes, cur, word) == SiblingWith(nodes, at, word) == Some(at)
    {
      var last := LastOnLevel(cur);
      var created := Node(Some(word), mode, 0, {}, None, None);
      AppendKeepsShape(nodes, heads, cur, created, word);
      AppendExtends(nodes, last, created);
      AppendedIsFound(nodes, cur, created, word);
      NewNodeGains(nodes, last, nodes[last].(next := Some(|nodes|)), created, mode);
      at := |nodes|;
      nodes, heads := Appended(nodes, last, created), heads + [cur];
    }

    /** The word is on the level already: extends its mode and goes on below it. */
    method Follow(mode: Mode, cur: nat, i: nat, word: string, rest: string) returns (ghost n: nat)
      requires mode != {} && Shaped(nodes, heads) && cur < |nodes| && SiblingWith(nodes, cur, word) == Some(i)
      requires forall i :: 0 <= i < |nodes| ==> nodes[i].token.Some?
      requires rest == "" || rest[0] != ' '
      modifies this`nodes, this`heads
      ensures Shaped(nodes, heads) && Extends(old(nodes), nodes)
      ensures forall i :: 0 <= i < |nodes| ==> nodes[i].token.Some?
      ensures Path(nodes, mode, cur, [word] + Words(rest)) == Some(n) && Within(mode, nodes[n].exeMode)
      ensures Gains(old(nodes), nodes, Trail(nodes, cur, [word] + Words(rest)), Some(n), mode)
      decreases |rest|, 4
    {
      if rest == "" {
        Finish(mode, cur, i, word);
        PathThrough(nodes, nodes, mode, cur, word, []);
        TrailStarts(nodes, cur, word, []);
        return i;
      }
      var below := Descend(mode, cur, i, word);
      ghost var mid := nodes;
      n := AddInternal(mode, below, rest);
      PathThrough(mid, nodes, mode, cur, word, Words(rest));
      BelowGains(old(nodes), mid, nodes, mode, cur, i, below, word, Words(rest), n);
    }

    /** The last word of a command: its node becomes executable. */
    method Finish(mode: Mode, cur: nat, i: nat, word: string)
      requires Shaped(nodes, heads) && cur < |nodes| && SiblingWith(nodes, cur, word) == Some(i)
      modifies this`nodes
      ensures Shaped(nodes, heads) && Extends(old(nodes), nodes) && Gains(old(nodes), nodes, [i], Some(i), mode)
      ensures SiblingWith(nodes, cur, word) == Some(i)
      ensures Within(mode, nodes[i].mode) && Within(mode, nodes[i].exeMode)
      ensures forall j :: 0 <= j < |old(nodes)| ==> nodes[j].token == old(nodes)[j].token
    {
      Widen(i, mode);
      ghost var mid := nodes;
      MakeExecutable(i, mode);
      Resume(old(nodes), mid, nodes, [i], [], [i], Some(i), mode);
      SiblingKept(old(nodes), nodes, cur, word);
      assert NodeExtends(mid[i], nodes[i]);
    }

    /** The head of the level below `i`, which is created blank if there is none. */
    method Descend(mode: Mode, cur: nat, i: nat, word: string) returns (below: nat)
      requires mode != {} && Shaped(nodes, heads) && cur < |nodes| && SiblingWith(nodes, cur, word) == Some(i)
      modifies this`nodes, this`heads
      ensures Shaped(nodes, heads) && Extends(old(nodes), nodes)
      ensures Gains(old(nodes), nodes, if |nodes| > |old(nodes)| then [i, below] else [i], None, mode)
      ensures SiblingWith(nodes, cur, word) == Some(i) && Within(mode, nodes[i].mode)
      ensures nodes[i].rule == Some(below) && heads[below] == below
      ensures forall j :: 0 <= j < |old(nodes)| ==> nodes[j].token == old(nodes)[j].token
      ensures |nodes| == |old(nodes)|
              || (|nodes| == |old(nodes)| + 1 && below == |old(nodes)| && nodes[below].token.None?)
    {
      Widen(i, mode);
      ghost var mid := nodes;
      if nodes[i].rule.None? {
        OpenLevel(i, mode);
        Resume(old(nodes), mid, nodes, [i], [|mid|], [i, |mid|], None, mode);
        assert NodeExtends(mid[i], nodes[i]);
      }
      SiblingKept(old(nodes), nodes, cur, word);
      below := nodes[i].rule.value;
    }

    method Widen(i: nat, mode: Mode)
      requires Shaped(nodes, heads) && i < |nodes| && nodes[i].token.Some?
      modifies this`nodes
      ensures Shaped(nodes, heads) && Extends(old(nodes), nodes) && Gains(old(nodes), nodes, [i], None, mode)
      ensures nodes == old(nodes)[i := old(nodes)[i].(mode := old(nodes)[i].mode + mode)]
      ensures Within(mode, nodes[i].mode)
    {
      var n := nodes[i].(mode := nodes[i].mode + mode);
      assert FoundAt(nodes, heads, i);
      ModeGrows(nodes[i].mode, mode);
      UpdateKeepsShape(nodes, heads, i, n);
      UpdateGains(nodes, i, n, [i], None, mode);
      nodes := nodes[i := n];
    }

    method MakeExecutable(i: nat, mode: Mode)
      requires Shaped(nodes, heads) && i < |nodes| && nodes[i].token.Some?
      modifies this`nodes
      ensures Shaped(nodes, heads) && Extends(old(nodes), nodes) && Gains(old(nodes), nodes, [], Some(i), mode)
      ensures |nodes| == |old(nodes)| && Within(mode, nodes[i].exeMode)
      ensures forall j :: 0 <= j < |nodes| ==> nodes[j].token == old(nodes)[j].token
    {
      var n := nodes[i].(exe := nodes[i].exe + 1, exeMode := nodes[i].exeMode + mode);
      assert FoundAt(nodes, heads, i);
      ModeGrows(nodes[i].exeMode, mode);
      UpdateKeepsShape(nodes, heads, i, n);
      UpdateGains(nodes, i, n, [], Some(i), mode);
      nodes := nodes[i := n];
    }

    /** Creates the first, blank node of the level below `i`. */
    method OpenLevel(i: nat, mode: Mode)
      requires Shaped(nodes, heads) && i < |nodes| && nodes[i].rule.None? && mode != {}
      modifies this`nodes, this`heads
      ensures Shaped(nodes, heads) && Extends(old(nodes), nodes)
      ensures Gains(old(nodes), nodes, [|old(nodes)|], None, mode)
      ensures |nodes| == |old(nodes)| + 1 && nodes[i].rule == Some(|old(nodes)|)
      ensures heads[|old(nodes)|] == |old(nodes)| && nodes[|old(nodes)|].token.None?
      ensures forall j :: 0 <= j < |old(nodes)| ==> nodes[j].token == old(nodes)[j].token
    {
      NewLevelKeepsShape(nodes, heads, i, mode);
      NewNodeGains(nodes, i, nodes[i].(rule := Some(|nodes|)), Node(None, mode, 0, {}, None, None), mode);
      heads := heads + [|nodes|];
      nodes := nodes[i := nodes[i].(rule := Some(|nodes|))] + [Node(None, mode, 0, {}, None, None)];
    }

    /** Adds a command; the empty command adds nothing. */
    method AddCmd(mode: Mode, str: string)
      requires Valid() && mode != {}
      modifies this`nodes, this`heads, this`added
      ensures Valid() && Extends(old(nodes), nodes)
      ensures if Words(str) == [] then nodes == old(nodes) && added == old(added)
              else |added| == |old(added)| + 1 && added[..|old(added)|] == old(added)
                   && added[|old(added)|].mode == mode && added[|old(added)|].words == Words(str)
                   && Gains(old(nodes), nodes, Trail(nodes, 0, Words(str)), Some(added[|old(added)|].node), mode)
    {
      LevelOfRoot(nodes, heads);
      ghost var n := AddInternal(mode, 0, str);
      if Words(str) != [] {
        HistoryKept(old(nodes), nodes, added, Added(mode, Words(str), n));
        added := added + [Added(mode, Words(str), n)];
      }
    }

    /** Takes one word on the level of `cur`, by exact, special or abbreviated token. */
    method FindToken(mode: Mode, cur: nat, token: string, ghost find: Chooser)
      returns (found: Option<nat>)
      requires Shaped(nodes, heads) && cur < |nodes| && FindsTokens(find, nodes, special, mode)
      modifies this`wordCompleted
      ensures match find(cur, token)
              case None => found.None? && wordCompleted == old(wordCompleted)
              case Some(h) =>
                h.node < |nodes| && found == Some(h.node) && wordCompleted == old(wordCompleted) + h.word + " "
    {
      assert find(cur, token) == CliFind.FindToken(nodes, special, mode, cur, token);
      found := FirstMatch(cur, ExactTest(mode, token));
      if found.Some? {
        wordCompleted := wordCompleted + token + " ";
        return;
      }
      found := FirstMatch(cur, SpecialTest(special, mode, token));
      if found.Some? {
        wordCompleted := wordCompleted + token + " ";
        return;
      }
      found := OnlyMatch(cur, PrefixTest(mode, token));
      if found.Some? {
        wordCompleted := wordCompleted + nodes[found.value].token.value + " ";
      }
    }

    /** Counts the matches on the level; more than one is ambiguous. */
    method OnlyMatch(cur: nat, test: Node -> bool) returns (found: Option<nat>)
      requires Shaped(nodes, heads) && cur < |nodes|
      ensures var all := Matches(nodes, cur, test); found == if |all| == 1 then Some(all[0]) else None
    {
      var matches := 0;
      found := None;
      var i := Some(cur);
      ghost var rest := Matches(nodes, cur, test);
      while i.Some?
        invariant i.Some? ==> i.value < |nodes|
        invariant rest == if i.Some? then Matches(nodes, i.value, test) else []
        invariant matches + |rest| == |Matches(nodes, cur, test)|
        invariant matches == 0 ==> found.None? && rest == Matches(nodes, cur, test)
        invariant matches > 0 ==> found.Some?
        invariant matches == 1 ==> found.value == Matches(nodes, cur, test)[0]
        decreases if i.Some? then |nodes| - i.value else -1
      {
        if test(nodes[i.value]) {
          found := i;
          matches := matches + 1;
        }
        i := nodes[i.value].next;
        rest := if i.Some? then Matches(nodes, i.value, test) else [];
      }
      if matches != 1 {
        found := None;
      }
    }

    method FirstMatch(cur: nat, test: Node -> bool) returns (found: Option<nat>)
      requires Shaped(nodes, heads) && cur < |nodes|
      ensures var all := Matches(nodes, cur, test); found == if all == [] then None else Some(all[0])
    {
      var i := Some(cur);
      while i.Some?
        invariant i.Some? ==> i.value < |nodes|
        invariant Matches(nodes, cur, test) == if i.Some? then Matches(nodes, i.value, test) else []
        decreases if i.Some? then |nodes| - i.value else -1
      {
        if test(nodes[i.value]) {
          return i;
        }
        i := nodes[i.value].next;
      }
      return None;
    }

    method FindInternal(mode: Mode, cur: nat, str: string, ghost find: Chooser)
      returns (found: Option<nat>)
      requires Shaped(nodes, heads) && cur < |nodes| && FindsTokens(find, nodes, special, mode)
      modifies this`wordCompleted, this`lastNodeMatch, this`depth
      ensures var r := FindWith(find, nodes, cur, Words(str));
              && found == r.node && wordCompleted == old(wordCompleted) + Spell(r.completed)
              && depth == old(depth) + |r.completed|
              && lastNodeMatch == if r.last.Some? then r.last else old(lastNodeMatch)
      decreases |str|
    {
      var t := Trim(str);
      if t == "" {
        return None;
      }
      ghost var words := Words(str);
      var word, rest := SplitFirst(str);
      var hit := FindToken(mode, cur, word, find);
      if hit.None? {
        return None;
      }
      lastNodeMatch, depth := hit, depth + 1;
      if rest == "" || nodes[hit.value].rule.None? {
        LookupEnds(find, nodes, cur, words, old(wordCompleted));
        return if rest == "" then hit else None;
      }
      LookupGoesOn(find, nodes, cur, words, old(wordCompleted));
      found := FindInternal(mode, nodes[hit.value].rule.value, rest, find);
    }

    /** Looks a command line up from the root, starting a new record. */
    method FindCmd(mode: Mode, str: string) returns (found: Option<nat>)
      requires Valid() && nodes[0].token.Some?
      modifies this`wordCompleted, this`lastNodeMatch, this`depth
      ensures var r := FindWords(nodes, special, mode, 0, Words(str));
              && found == r.node && lastNodeMatch == r.last
              && wordCompleted == Spell(r.completed) && depth == |r.completed|
    {
      wordCompleted, lastNodeMatch, depth := "", None, 0;
      found := FindInternal(mode, 0, str, FinderOf(nodes, special, mode));
    }
  }

  lemma {:induction false} LevelOfRoot(nodes: seq<Node>, heads: seq<nat>)
    requires Shaped(nodes, heads) && nodes != []
    ensures heads[0] == 0
  {
  }

  /**
   Every literal command ever added is found, in any of its modes and whatever was added
   since, as the very node that was made executable for it.
   */
  lemma {:induction false} AddedIsFound(nodes: seq<Node>, sp: Special, c: Added, mode: Mode, line: string)
    requires Installed(nodes, c) && Words(line) == c.words && Literal(c.words) && Meets(c.mode, mode)
    ensures FindWords(nodes, sp, mode, 0, Words(line)).node == Some(c.node)
    ensures nodes[c.node].exe > 0 && Meets(nodes[c.node].exeMode, mode)
  {
    LiteralIsFound(nodes, sp, c.mode, mode, 0, c.words);
    MeetsWithin(c.mode, nodes[c.node].exeMode, mode);
  }

  /**
   A command with special tokens is found by its own text, in any of its modes, as the node that
   was made executable for it if and only if, on each level of its path, no special token in
   front of the command's own accepts that token's text, and the token itself does.
   */
  lemma {:induction false} AddedIsFoundIff(nodes: seq<Node>, heads: seq<nat>, sp: Special, c: Added, mode: Mode,
                                           line: string)
    requires Shaped(nodes, heads) && Installed(nodes, c) && Words(line) == c.words && Meets(c.mode, mode)
    ensures FindWords(nodes, sp, mode, 0, Words(line)).node == Some(c.node)
            <==> AcceptedFirst(nodes, sp, mode, 0, c.words)
  {
    OwnPathIsFoundIff(nodes, heads, sp, c.mode, mode, 0, c.words);
  }

  /** A level of two commands of one token each. */
  ghost predicate TwoCommands(nodes: seq<Node>, mode: Mode, s: string, t: string) {
    nodes == [Node(Some(s), mode, 1, mode, None, Some(1)), Node(Some(t), mode, 1, mode, None, None)]
  }

  lemma {:induction false} TwoCommandsShaped(nodes: seq<Node>, mode: Mode, s: string, t: string)
    requires TwoCommands(nodes, mode, s, t) && IsWord(s) && IsWord(t) && s != t && mode != {}
    ensures Shaped(nodes, [0, 0]) && SiblingWith(nodes, 0, t) == Some(1)
  {
    assert SiblingWith(nodes, 1, t) == Some(1);
  }

  /** The first of two special tokens on a level hides the command of the second whose text it accepts. */
  lemma {:induction false} EarlierTokenHides(nodes: seq<Node>, sp: Special, mode: Mode, s: string, t: string, c: Added)
    requires TwoCommands(nodes, mode, s, t) && IsWord(s) && IsSpecial(s) && IsWord(t) && IsSpecial(t)
    requires s != t && sp(s, t) && mode != {} && c == Added(mode, [t], 1)
    ensures Shaped(nodes, [0, 0]) && Installed(nodes, c)
    ensures FindWords(nodes, sp, mode, 0, c.words).node == Some(0)
  {
    TwoCommandsShaped(nodes, mode, s, t);
    FirstIsTaken(nodes, sp, mode, s, t);
    var find := FinderOf(nodes, sp, mode);
    assert find(0, t) == FindToken(nodes, sp, mode, 0, t);
    LookupEnds(find, nodes, 0, [t], "");
  }

  lemma {:induction false} FirstIsTaken(nodes: seq<Node>, sp: Special, mode: Mode, s: string, t: string)
    requires TwoCommands(nodes, mode, s, t) && Linked(nodes)
    requires IsSpecial(s) && IsSpecial(t) && sp(s, t) && mode != {}
    ensures FindToken(nodes, sp, mode, 0, t) == Some(Hit(0, t))
  {
    assert mode * mode == mode;
    SpecialIsTaken(nodes, sp, mode, 0, t);
  }

  /** A path that starts with a node already in the mode goes on as the path below it. */
  lemma {:induction false} PathThrough(a: seq<Node>, b: seq<Node>, mode: Mode, cur: nat, word: string,
                                       rest: seq<string>)
    requires Linked(a) && Linked(b) && Extends(a, b) && BlankIsLast(a) && cur < |a|
    requires SiblingWith(a, cur, word).Some? && Within(mode, a[SiblingWith(a, cur, word).value].mode)
    ensures SiblingWith(b, cur, word) == SiblingWith(a, cur, word)
    ensures var i := SiblingWith(a, cur, word).value;
            && Within(mode, b[i].mode)
            && (rest == [] ==> Path(b, mode, cur, [word] + rest) == Some(i))
            && (rest != [] && a[i].rule.Some? ==>
                  b[i].rule == a[i].rule && Path(b, mode, cur, [word] + rest) == Path(b, mode, a[i].rule.value, rest))
  {
    SiblingKept(a, b, cur, word);
    var i := SiblingWith(a, cur, word).value;
    assert NodeExtends(a[i], b[i]);
    assert ([word] + rest)[1..] == rest;
  }
}
