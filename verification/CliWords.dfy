/** Command lines and the words they are made of. */
module CliWords {
  function Trim(s: string): (r: string)
    ensures |r| <= |s| && (r != "" ==> r[0] != ' ')
  {
    if s != "" && s[0] == ' ' then Trim(s[1..]) else s
  }

  function WordLen(s: string): (n: nat)
    ensures n <= |s| && (n < |s| ==> s[n] == ' ') && (forall i :: 0 <= i < n ==> s[i] != ' ')
    ensures s != "" && s[0] != ' ' ==> n > 0
  {
    if s == "" || s[0] == ' ' then 0 else 1 + WordLen(s[1..])
  }

  function Words(s: string): seq<string>
    decreases |s|
  {
    var t := Trim(s);
    if t == "" then [] else [t[..WordLen(t)]] + Words(t[WordLen(t)..])
  }

  predicate IsWord(w: string) {
    w != "" && ' ' !in w
  }

  ghost predicate AllWords(ws: seq<string>) {
    forall i :: 0 <= i < |ws| ==> IsWord(ws[i])
  }

  /** How the parser spells out a line: every word is followed by a space. */
  function Spell(ws: seq<string>): string {
    if ws == [] then "" else ws[0] + " " + Spell(ws[1..])
  }

  lemma {:induction false} SpellCons(before: string, w: string, ws: seq<string>)
    ensures before + Spell([w] + ws) == before + w + " " + Spell(ws)
  {
    assert ([w] + ws)[1..] == ws;
  }

  lemma {:induction false} WordsAreWords(s: string)
    ensures AllWords(Words(s))
    decreases |s|
  {
    var t := Trim(s);
    if t != "" {
      WordsAreWords(t[WordLen(t)..]);
    }
  }

  lemma {:induction false} WordLenIs(w: string, rest: string)
    requires ' ' !in w && (rest != "" ==> rest[0] == ' ')
    ensures WordLen(w + rest) == |w|
  {
    if w != "" {
      assert w[0] in w && (w + rest)[1..] == w[1..] + rest;
      WordLenIs(w[1..], rest);
    }
  }

  /** Splitting a spelled-out line gives back its words. */
  lemma {:induction false} WordsOfSpell(ws: seq<string>)
    requires AllWords(ws)
    ensures Words(Spell(ws)) == ws
  {
    if ws != [] {
      var w, rest := ws[0], " " + Spell(ws[1..]);
      assert IsWord(w) && w[0] in w;
      assert Spell(ws) == w + rest;
      WordLenIs(w, rest);
      assert (w + rest)[..|w|] == w && (w + rest)[|w|..] == rest;
      WordsSkipSpace(Spell(ws[1..]));
      WordsOfSpell(ws[1..]);
    }
  }

  lemma {:induction false} WordsSkipSpace(s: string)
    ensures Words(" " + s) == Words(s)
  {
    assert (" " + s)[1..] == s;
    assert Trim(" " + s) == Trim(s);
  }

  /** The words of a line that starts with a word. */
  lemma {:induction false} WordsStep(s: string)
    requires Trim(s) != ""
    ensures var t := Trim(s);
            var n := WordLen(t);
            n > 0 && IsWord(t[..n]) && Words(t) == Words(s) == [t[..n]] + Words(Trim(t[n..]))
    ensures Words(s) != [] && Words(s)[0] == Trim(s)[..WordLen(Trim(s))]
    ensures Words(s)[1..] == Words(Trim(Trim(s)[WordLen(Trim(s))..]))
  {
    var t := Trim(s);
    TrimTwice(s);
    TrimTwice(t[WordLen(t)..]);
    assert t[..WordLen(t)][0] == t[0];
  }

  lemma {:induction false} TrimTwice(s: string)
    ensures Trim(Trim(s)) == Trim(s) && Words(Trim(s)) == Words(s)
  {
    assert Trim(s) == "" || Trim(s)[0] != ' ';
  }

  lemma {:induction false} TrimInFront(a: string, b: string)
    ensures Trim(a + " " + b) == if Trim(a) == "" then Trim(b) else Trim(a) + " " + b
  {
    var s := a + " " + b;
    if a == "" {
      assert s[1..] == b;
    } else {
      assert s[1..] == a[1..] + " " + b;
      TrimInFront(a[1..], b);
    }
  }

  lemma {:induction false} WordEndsAlike(t: string, b: string)
    ensures WordLen(t + " " + b) == WordLen(t)
  {
    var s := t + " " + b;
    if t != "" && t[0] != ' ' {
      assert s[1..] == t[1..] + " " + b;
      WordEndsAlike(t[1..], b);
    }
  }

  /** Lines joined by a blank have the words of both, and a word is one word. */
  lemma {:induction false} WordsOfBoth(a: string, b: string)
    ensures Words(a + " " + b) == Words(a) + Words(b)
    ensures IsWord(a) ==> Words(a) == [a]
    decreases |a|
  {
    var t := Trim(a);
    TrimInFront(a, b);
    if t == "" {
      TrimTwice(b);
      TrimTwice(a + " " + b);
    } else {
      var n, s := WordLen(t), t + " " + b;
      WordEndsAlike(t, b);
      assert s[..n] == t[..n] && s[n..] == t[n..] + " " + b;
      WordsOfBoth(t[n..], b);
      if IsWord(a) {
        WordLenIs(a, "");
        assert a + "" == a && a[0] in a;
      }
    }
  }

  /** The first word of the line, and what follows it without the blanks in front. */
  method SplitFirst(str: string) returns (word: string, rest: string)
    requires Trim(str) != ""
    ensures Words(str) == [word] + Words(rest) && Words(str)[1..] == Words(rest)
    ensures (rest == "" <==> Words(rest) == []) && |rest| < |str|
  {
    var t := Trim(str);
    var len := WordLen(t);
    WordsStep(str);
    TrimTwice(t[len..]);
    word, rest := t[..len], Trim(t[len..]);
    if rest != "" {
      WordsStep(rest);
    }
  }
}
