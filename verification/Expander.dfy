/**
 The command expander of the build tool: a command with optional blocks in brackets stands for
 one command per choice of blocks. Blocks do not nest.
 */
module Expander {
  import opened CliWords
  import opened Common

  datatype Token = Open | Close | Word(text: string)

  /** A word of a command, or the words of an optional block. */
  datatype Part = Fixed(text: string) | Block(words: seq<string>)

  function WordTokens(words: seq<string>): (r: seq<Token>)
    ensures |r| == |words|
  {
    if words == [] then [] else [Word(words[0])] + WordTokens(words[1..])
  }

  function TokensOf(part: Part): seq<Token> {
    match part
    case Fixed(text) => [Word(text)]
    case Block(words) => [Open] + WordTokens(words) + [Close]
  }

  function Tokens(parts: seq<Part>): seq<Token> {
    if parts == [] then [] else TokensOf(parts[0]) + Tokens(parts[1..])
  }

  lemma {:induction false} SpellBoth(a: seq<string>, b: seq<string>)
    ensures Spell(a + b) == Spell(a) + Spell(b)
  {
    if a == [] {
      assert a + b == b;
    } else {
      assert (a + b)[1..] == a[1..] + b;
      SpellBoth(a[1..], b);
    }
  }

  // From the text of a command to its tokens.

  /** Every bracket gets a blank on both sides. */
  function Spaced(cmd: string): string {
    if cmd == "" then ""
    else (if cmd[0] == '[' || cmd[0] == ']' then [' ', cmd[0], ' '] else [cmd[0]]) + Spaced(cmd[1..])
  }

  function TokenOf(w: string): Token {
    if w == "[" then Open else if w == "]" then Close else Word(w)
  }

  function TokensIn(ws: seq<string>): (r: seq<Token>)
    ensures |r| == |ws|
  {
    if ws == [] then [] else [TokenOf(ws[0])] + TokensIn(ws[1..])
  }

  /** The text of the command splits into the tokens of its parts. */
  predicate Splits(cmd: string, parts: seq<Part>) {
    TokensIn(Words(Spaced(cmd))) == Tokens(parts)
  }

  lemma {:induction false} SpacedPlain(cmd: string)
    requires '[' !in cmd && ']' !in cmd
    ensures Spaced(cmd) == cmd
  {
    if cmd != "" {
      assert cmd[0] in cmd;
      SpacedPlain(cmd[1..]);
    }
  }

  /** The characters that are `c`. */
  function Count(s: string, c: char): nat {
    if s == "" then 0 else Count(s[..|s| - 1], c) + if s[|s| - 1] == c then 1 else 0
  }

  lemma {:induction false} CountIn(s: string, c: char)
    ensures Count(s, c) == 0 <==> c !in s
  {
    if s != "" {
      var prior := s[..|s| - 1];
      CountIn(prior, c);
      assert s == prior + [s[|s| - 1]];
    }
  }

  // What a command stands for.

  function Blocks(parts: seq<Part>): nat {
    if parts == [] then 0 else (if parts[0].Block? then 1 else 0) + Blocks(parts[1..])
  }

  /** The words left when the blocks chosen by `choice` are kept and the others are dropped. */
  function Chosen(parts: seq<Part>, choice: seq<bool>): seq<string>
    requires |choice| == Blocks(parts)
  {
    if parts == [] then []
    else
      match parts[0]
      case Fixed(text) => [text] + Chosen(parts[1..], choice)
      case Block(words) => (if choice[0] then words else []) + Chosen(parts[1..], choice[1..])
  }

  /** The `n`-th choice in the order of the expander, which first leaves the first block out. */
  function ChoiceAt(k: nat, n: nat): (r: seq<bool>)
    ensures |r| == k
  {
    if k == 0 then []
    else if n < Power2(k - 1) then [false] + ChoiceAt(k - 1, n)
    else [true] + ChoiceAt(k - 1, n - Power2(k - 1))
  }

  /** Every choice of blocks is made exactly once. */
  lemma {:induction false} ChoicesAreAll(choice: seq<bool>) returns (n: nat)
    ensures n < Power2(|choice|) && ChoiceAt(|choice|, n) == choice
    ensures forall j :: 0 <= j < Power2(|choice|) && ChoiceAt(|choice|, j) == choice ==> j == n
  {
    if choice == [] {
      n := 0;
    } else {
      var k, rest := |choice|, choice[1..];
      var m := ChoicesAreAll(rest);
      n := if choice[0] then m + Power2(k - 1) else m;
      assert choice == [choice[0]] + rest;
      forall j | 0 <= j < Power2(k) && ChoiceAt(k, j) == choice ensures j == n {
        var half := if j < Power2(k - 1) then j else j - Power2(k - 1);
        assert ChoiceAt(k, j)[1..] == ChoiceAt(k - 1, half) == rest;
        assert ChoiceAt(k, j)[0] == choice[0];
      }
    }
  }

  /** The commands for all choices of blocks, each behind `prefix`. */
  function Expansions(prefix: string, parts: seq<Part>): (r: seq<string>)
    ensures |r| == Power2(Blocks(parts))
  {
    seq(Power2(Blocks(parts)), n requires 0 <= n < Power2(Blocks(parts)) =>
      prefix + Spell(Chosen(parts, ChoiceAt(Blocks(parts), n))))
  }

  lemma {:induction false} ExpandFixed(prefix: string, parts: seq<Part>)
    requires parts != [] && parts[0].Fixed?
    ensures Expansions(prefix, parts) == Expansions(prefix + (parts[0].text + " "), parts[1..])
  {
    var k, w := Blocks(parts), parts[0].text;
    forall n | 0 <= n < Power2(k)
      ensures Expansions(prefix, parts)[n] == Expansions(prefix + (w + " "), parts[1..])[n]
    {
      var rest := Chosen(parts[1..], ChoiceAt(k, n));
      assert ([w] + rest)[1..] == rest;
      assert prefix + (w + " " + Spell(rest)) == prefix + (w + " ") + Spell(rest);
    }
  }

  lemma {:induction false} FirstChoice(k: nat, n: nat)
    requires 0 < k && n < Power2(k)
    ensures var half := Power2(k - 1);
            ChoiceAt(k, n) == [n >= half] + ChoiceAt(k - 1, if n < half then n else n - half)
  {
  }

  lemma {:induction false} ChosenBlock(parts: seq<Part>, keep: bool, tail: seq<bool>)
    requires parts != [] && parts[0].Block? && |tail| + 1 == Blocks(parts)
    ensures Chosen(parts, [keep] + tail) == (if keep then parts[0].words else []) + Chosen(parts[1..], tail)
  {
    assert ([keep] + tail)[1..] == tail;
  }

  lemma {:induction false} ExpansionAt(prefix: string, parts: seq<Part>, n: nat, choice: seq<bool>)
    requires n < Power2(Blocks(parts)) && choice == ChoiceAt(Blocks(parts), n)
    ensures Expansions(prefix, parts)[n] == prefix + Spell(Chosen(parts, choice))
  {
  }

  lemma {:induction false} ExpandBlockAt(prefix: string, parts: seq<Part>, n: nat, half: nat)
    requires parts != [] && parts[0].Block? && n < Power2(Blocks(parts)) && half == Power2(Blocks(parts[1..]))
    ensures n < half ==> Expansions(prefix, parts)[n] == Expansions(prefix, parts[1..])[n]
    ensures n >= half ==>
              Expansions(prefix, parts)[n] == Expansions(prefix + Spell(parts[0].words), parts[1..])[n - half]
  {
    var k, m, ws := Blocks(parts), if n < half then n else n - half, parts[0].words;
    var tail := ChoiceAt(k - 1, m);
    var rest := Chosen(parts[1..], tail);
    FirstChoice(k, n);
    ExpansionAt(prefix, parts, n, [n >= half] + tail);
    ChosenBlock(parts, n >= half, tail);
    SpellOfBlock(prefix, ws, rest);
    ExpansionAt(if n < half then prefix else prefix + Spell(ws), parts[1..], m, tail);
  }

  lemma {:induction false} SpellOfBlock(prefix: string, ws: seq<string>, words: seq<string>)
    ensures prefix + Spell(ws + words) == prefix + Spell(ws) + Spell(words) && [] + words == words
  {
    SpellBoth(ws, words);
  }

  lemma {:induction false} ExpandBlock(prefix: string, parts: seq<Part>)
    requires parts != [] && parts[0].Block?
    ensures Expansions(prefix, parts) ==
            Expansions(prefix, parts[1..]) + Expansions(prefix + Spell(parts[0].words), parts[1..])
  {
    var all, without := Expansions(prefix, parts), Expansions(prefix, parts[1..]);
    var kept := Expansions(prefix + Spell(parts[0].words), parts[1..]);
    assert |all| == |without| + |kept|;
    forall n | 0 <= n < |all| ensures all[n] == (without + kept)[n] {
      ExpandBlockAt(prefix, parts, n, |without|);
    }
  }

  // Expanding.

  /** What is left to parse: the rest of a block, if one is open, and the parts behind it. */
  ghost function Left(words: seq<string>, inside: bool, parts: seq<Part>): seq<Token> {
    WordTokens(words) + (if inside then [Close] else []) + Tokens(parts)
  }

  lemma {:induction false} FirstOf(targv: seq<Token>, i: nat, x: Token, rest: seq<Token>)
    requires i <= |targv| && targv[i..] == [x] + rest
    ensures i < |targv| && targv[i] == x && targv[i + 1..] == rest
  {
    assert targv[i..][0] == x && targv[i + 1..] == targv[i..][1..];
  }

  lemma {:induction false} NextWord(targv: seq<Token>, i: nat, words: seq<string>, inside: bool, parts: seq<Part>)
    requires i <= |targv| && targv[i..] == Left(words, inside, parts) && words != []
    ensures i < |targv| && targv[i] == Word(words[0]) && targv[i + 1..] == Left(words[1..], inside, parts)
  {
    Regroup(Word(words[0]), WordTokens(words[1..]), if inside then [Close] else [], Tokens(parts));
    FirstOf(targv, i, Word(words[0]), Left(words[1..], inside, parts));
  }

  lemma {:induction false} NextPart(targv: seq<Token>, i: nat, parts: seq<Part>)
    requires i <= |targv| && targv[i..] == Left([], false, parts)
    ensures parts == [] ==> i == |targv|
    ensures parts != [] && parts[0].Fixed? ==>
              i < |targv| && targv[i] == Word(parts[0].text) && targv[i + 1..] == Left([], false, parts[1..])
    ensures parts != [] && parts[0].Block? ==>
              i < |targv| && targv[i] == Open && targv[i + 1..] == Left(parts[0].words, true, parts[1..])
  {
    var l := Tokens(parts);
    assert [] + [] + l == l;
    if parts != [] {
      var rest := Tokens(parts[1..]);
      match parts[0]
      case Fixed(text) =>
        assert [] + [] + rest == rest;
        FirstOf(targv, i, Word(text), rest);
      case Block(words) =>
        Regroup(Open, WordTokens(words), [Close], rest);
        FirstOf(targv, i, Open, WordTokens(words) + [Close] + rest);
    }
  }

  lemma {:induction false} Regroup(x: Token, a: seq<Token>, b: seq<Token>, c: seq<Token>)
    ensures [x] + a + b + c == [x] + (a + b + c)
  {
  }

  lemma {:induction false} NextClose(targv: seq<Token>, i: nat, parts: seq<Part>)
    requires i <= |targv| && targv[i..] == Left([], true, parts)
    ensures i < |targv| && targv[i] == Close && targv[i + 1..] == Left([], false, parts)
  {
    assert Left([], true, parts) == [Close] + Left([], false, parts);
    FirstOf(targv, i, Close, Left([], false, parts));
  }

  /** The line ends, or a block starts, only between parts. */
  lemma {:induction false} WhatIsNext(targv: seq<Token>, i: nat, words: seq<string>, inside: bool, parts: seq<Part>)
    requires i <= |targv| && targv[i..] == Left(words, inside, parts) && (!inside ==> words == [])
    ensures i == |targv| ==> !inside && parts == []
    ensures i < |targv| && targv[i] == Open ==>
              && !inside && parts != [] && parts[0].Block?
              && targv[i + 1..] == Left(parts[0].words, true, parts[1..])
    ensures i < |targv| && targv[i] != Open ==> inside || (parts != [] && parts[0].Fixed?)
  {
    if !inside {
      NextPart(targv, i, parts);
    } else if words != [] {
      NextWord(targv, i, words, inside, parts);
    } else {
      NextClose(targv, i, parts);
    }
  }

  lemma {:induction false} WordTokenAt(words: seq<string>, k: nat)
    requires k < |words|
    ensures WordTokens(words)[k] == Word(words[k])
  {
    if k > 0 {
      WordTokenAt(words[1..], k - 1);
    }
  }

  /** Where the bracket that closes a block is. */
  lemma {:induction false} BlockEnds(targv: seq<Token>, i: nat, words: seq<string>, parts: seq<Part>)
    requires i <= |targv| && targv[i..] == Left(words, true, parts)
    ensures var n := i + |words|; n < |targv| && targv[n] == Close && targv[n + 1..] == Left([], false, parts)
    ensures forall k :: i <= k < i + |words| ==> targv[k] != Close
  {
    var n, ws, rest := i + |words|, WordTokens(words), Tokens(parts);
    assert targv[i..][|words|] == Close;
    assert targv[n + 1..] == targv[i..][|words| + 1..] == rest;
    assert [] + [] + rest == rest;
    forall k | i <= k < n ensures targv[k] != Close {
      WordTokenAt(words, k - i);
      assert targv[k] == targv[i..][k - i] == ws[k - i];
    }
  }

  lemma {:induction false} ExpandEnd(prefix: string)
    ensures Expansions(prefix, []) == [prefix]
  {
    assert prefix + Spell([]) == prefix;
  }

  lemma {:induction false} BlockPrinted(before: seq<string>, prefix: string, parts: seq<Part>)
    requires parts != [] && parts[0].Block?
    ensures before + Expansions(prefix, parts[1..]) + Expansions(prefix + Spell(parts[0].words), parts[1..])
            == before + Expansions(prefix, parts)
  {
    ExpandBlock(prefix, parts);
  }

  lemma {:induction false} MoveWord(prefix: string, words: seq<string>)
    requires words != []
    ensures prefix + (words[0] + " ") + Spell(words[1..]) == prefix + Spell(words)
  {
  }

  class Expansion {
    const targv: seq<Token>
    var outbuf: string
    var printed: seq<string>

    constructor (targv: seq<Token>)
      ensures this.targv == targv && outbuf == "" && printed == []
    {
      this.targv, outbuf, printed := targv, "", [];
    }

    method PrintCmd()
      modifies `printed
      ensures printed == old(printed) + [outbuf]
    {
      printed := printed + [outbuf];
    }

    /** The position behind the first closing bracket. */
    method SkipToClose(start: nat, ghost end: nat) returns (n: nat)
      requires start <= end < |targv| && targv[end] == Close
      requires forall k :: start <= k < end ==> targv[k] != Close
      ensures n == end + 1
    {
      n := start;
      while targv[n] != Close
        invariant start <= n <= end
        decreases end - n
      {
        n := n + 1;
      }
      n := n + 1;
    }

    /** Expands what follows the block at `start`, then takes the buffer back to where it was. */
    method ParseBlock(start: nat, ghost words: seq<string>, ghost parts: seq<Part>) returns (next: nat)
      requires start < |targv| && targv[start] == Open && targv[start + 1..] == Left(words, true, parts)
      modifies this
      ensures next == start + 1 && outbuf == old(outbuf) && printed == old(printed) + Expansions(outbuf, parts)
      decreases |targv| - start, 0
    {
      var o := |outbuf|;
      BlockEnds(targv, start + 1, words, parts);
      var n := SkipToClose(start, start + 1 + |words|);
      Parse(n, [], false, parts);
      outbuf := outbuf[..o];
      next := start + 1;
      assert old(outbuf) + Spell([]) == old(outbuf);
    }

    /** Prints every command the rest of the line stands for, behind what is in the buffer. */
    method Parse(start: nat, ghost words: seq<string>, ghost inside: bool, ghost parts: seq<Part>)
      requires start <= |targv| && targv[start..] == Left(words, inside, parts)
      requires !inside ==> words == []
      modifies this
      ensures old(outbuf) <= outbuf
      ensures printed == old(printed) + Expansions(old(outbuf) + Spell(words), parts)
      decreases |targv| - start, 2
    {
      ghost var prefix := outbuf;
      WhatIsNext(targv, start, words, inside, parts);
      assert prefix + Spell([]) == prefix;
      if start == |targv| {
        ExpandEnd(prefix);
        PrintCmd();
      } else if targv[start] == Open {
        ghost var ws, ps := parts[0].words, parts[1..];
        var i := ParseBlock(start, ws, ps);
        ParseRest(i, ws, true, ps);
        BlockPrinted(old(printed), prefix, parts);
      } else {
        ParseRest(start, words, inside, parts);
      }
    }

    /** Goes on from a token that does not open a block. */
    method ParseRest(start: nat, ghost words: seq<string>, ghost inside: bool, ghost parts: seq<Part>)
      requires start < |targv| && targv[start..] == Left(words, inside, parts)
      requires !inside ==> words == [] && parts != [] && parts[0].Fixed?
      modifies this
      ensures old(outbuf) <= outbuf
      ensures printed == old(printed) + Expansions(old(outbuf) + Spell(words), parts)
      decreases |targv| - start, 1
    {
      var i := start;
      ghost var prefix := outbuf;
      if inside && words == [] {
        NextClose(targv, i, parts);
      } else if words != [] {
        NextWord(targv, i, words, inside, parts);
        MoveWord(prefix, words);
      } else {
        NextPart(targv, i, parts);
      }
      assert prefix + Spell([]) == prefix;
      if targv[i] == Close {
        i := i + 1;
        NextPart(targv, i, parts);
        if i == |targv| {
          ExpandEnd(prefix);
          PrintCmd();
          return;
        }
        if targv[i] == Open {
          Parse(i, [], false, parts);
          return;
        }
      }
      outbuf := outbuf + (targv[i].text + " ");
      ghost var ws, ins, ps := words, inside, parts;
      if words != [] {
        ws := words[1..];
      } else {
        ExpandFixed(prefix, parts);
        assert outbuf + Spell([]) == outbuf;
        ins, ps := false, parts[1..];
      }
      Parse(i + 1, ws, ins, ps);
    }

    /**
     Starts on a whole command, whose tokens are at hand: one without brackets is printed as it
     stands, and one whose brackets do not match in number is given up.
     */
    method Expand(cmd: string, ghost parts: seq<Part>) returns (ok: bool)
      requires Count(cmd, '[') == Count(cmd, ']') ==> targv == Tokens(parts)
      modifies this
      ensures ok <==> Count(cmd, '[') == Count(cmd, ']')
      ensures printed == old(printed) + (
                if !ok then [] else if '[' in cmd then Expansions("", parts) else [cmd])
    {
      var cnt1, cnt2 := 0, 0;
      for i := 0 to |cmd|
        invariant cnt1 == Count(cmd[..i], '[') && cnt2 == Count(cmd[..i], ']')
      {
        assert cmd[..i + 1][..i] == cmd[..i];
        if cmd[i] == '[' {
          cnt1 := cnt1 + 1;
        } else if cmd[i] == ']' {
          cnt2 := cnt2 + 1;
        }
      }
      assert cmd[..|cmd|] == cmd;
      CountIn(cmd, '[');
      if cnt1 != cnt2 {
        return false;
      }
      if cnt1 == 0 && cnt2 == 0 {
        printed := printed + [cmd];
        return true;
      }
      outbuf := "";
      assert targv[0..] == Left([], false, parts) && "" + Spell([]) == "";
      Parse(0, [], false, parts);
      return true;
    }
  }

  // What the printed commands say.

  predicate PartsAreWords(parts: seq<Part>) {
    parts != [] ==>
      && (match parts[0] case Fixed(text) => IsWord(text) case Block(words) => forall w :: w in words ==> IsWord(w))
      && PartsAreWords(parts[1..])
  }

  lemma {:induction false} ChosenAreWords(parts: seq<Part>, choice: seq<bool>)
    requires PartsAreWords(parts) && |choice| == Blocks(parts)
    ensures AllWords(Chosen(parts, choice))
  {
    if parts != [] {
      ChosenAreWords(parts[1..], if parts[0].Block? then choice[1..] else choice);
    }
  }

  /** The parser splits each printed command into exactly the words chosen. */
  lemma {:induction false} PrintedWords(parts: seq<Part>, n: nat)
    requires PartsAreWords(parts) && n < |Expansions("", parts)|
    ensures Words(Expansions("", parts)[n]) == Chosen(parts, ChoiceAt(Blocks(parts), n))
  {
    var ws := Chosen(parts, ChoiceAt(Blocks(parts), n));
    ChosenAreWords(parts, ChoiceAt(Blocks(parts), n));
    WordsOfSpell(ws);
    assert "" + Spell(ws) == Spell(ws);
  }

  /** A command without brackets has no blocks, and printed as it stands it has the words its one expansion has. */
  lemma {:induction false} PlainCommandAsExpanded(cmd: string, parts: seq<Part>)
    requires '[' !in cmd && ']' !in cmd && Splits(cmd, parts)
    ensures Blocks(parts) == 0 && |Expansions("", parts)| == 1
    ensures Words(cmd) == Words(Expansions("", parts)[0]) == Chosen(parts, [])
  {
    SpacedPlain(cmd);
    WordsAreWords(cmd);
    WordsHaveNo(cmd, '[');
    FixedParts(Words(cmd), parts);
    PrintedWords(parts, 0);
  }

  lemma {:induction false} WordsHaveNo(s: string, c: char)
    requires c !in s
    ensures forall i :: 0 <= i < |Words(s)| ==> c !in Words(s)[i]
    decreases |s|
  {
    TrimHasNo(s, c);
    var t := Trim(s);
    if t != "" {
      WordsHaveNo(t[WordLen(t)..], c);
    }
  }

  lemma {:induction false} TrimHasNo(s: string, c: char)
    requires c !in s
    ensures c !in Trim(s)
  {
    if s != "" {
      TrimHasNo(s[1..], c);
    }
  }

  lemma {:induction false} FixedParts(ws: seq<string>, parts: seq<Part>)
    requires AllWords(ws) && (forall i :: 0 <= i < |ws| ==> '[' !in ws[i]) && TokensIn(ws) == Tokens(parts)
    ensures Blocks(parts) == 0 && PartsAreWords(parts) && Chosen(parts, []) == ws
    decreases |parts|
  {
    if parts != [] {
      var l, r := TokensIn(ws), TokensOf(parts[0]) + Tokens(parts[1..]);
      assert l == r && |ws| > 0;
      assert "["[0] in "[";
      assert l[0] == TokenOf(ws[0]) && l[0] == r[0];
      assert TokensIn(ws[1..]) == l[1..] == r[1..] == Tokens(parts[1..]);
      FixedParts(ws[1..], parts[1..]);
    }
  }

  /** Every choice of blocks is printed exactly once, and nothing else is: two to the number of blocks. */
  lemma {:induction false} ExpansionsAreAllChoices(parts: seq<Part>, choice: seq<bool>) returns (n: nat)
    requires |choice| == Blocks(parts)
    ensures n < |Expansions("", parts)| == Power2(Blocks(parts))
    ensures Expansions("", parts)[n] == Spell(Chosen(parts, choice))
    ensures forall j :: 0 <= j < |Expansions("", parts)| ==> (ChoiceAt(|choice|, j) == choice <==> j == n)
  {
    n := ChoicesAreAll(choice);
    assert "" + Spell(Chosen(parts, choice)) == Spell(Chosen(parts, choice));
  }

  /** The command has a word outside its blocks. */
  predicate HasFixed(parts: seq<Part>) {
    parts != [] && (parts[0].Fixed? || HasFixed(parts[1..]))
  }

  function NoBlocks(k: nat): (r: seq<bool>)
    ensures |r| == k
  {
    seq(k, _ => false)
  }

  lemma {:induction false} FixedStays(parts: seq<Part>, choice: seq<bool>)
    requires |choice| == Blocks(parts)
    ensures HasFixed(parts) ==> Chosen(parts, choice) != []
    ensures !HasFixed(parts) && choice == NoBlocks(|choice|) ==> Chosen(parts, choice) == []
  {
    if parts != [] && parts[0].Block? {
      FixedStays(parts[1..], choice[1..]);
      assert NoBlocks(|choice|)[1..] == NoBlocks(|choice| - 1);
    } else if parts != [] {
      FixedStays(parts[1..], choice);
    }
  }

  /**
   The empty command, on which the printer steps in front of its scratch buffer looking for
   trailing blanks, is among the commands printed exactly when all words are in blocks.
   */
  lemma {:induction false} EmptyIsPrintedIff(parts: seq<Part>)
    ensures "" in Expansions("", parts) <==> !HasFixed(parts)
  {
    var k, all := Blocks(parts), Expansions("", parts);
    if HasFixed(parts) {
      forall n | 0 <= n < |all| ensures all[n] != "" {
        FixedStays(parts, ChoiceAt(k, n));
      }
    } else {
      var n := ExpansionsAreAllChoices(parts, NoBlocks(k));
      FixedStays(parts, NoBlocks(k));
      assert all[n] == "";
    }
  }
}
