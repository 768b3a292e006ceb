/** Generating the chains from the slot table, and what they decide. */
module AclScript {
  import opened AclModel
  import opened AclTable

  function TargetOf(a: Action): Verdict {
    if a == Permit then Accept else Drop
  }

  predicate Selected(s: Slot, n: nat, a: Action) {
    s.valid && s.entry.list == n && s.entry.action == a
  }

  function RuleFor(e: Entry): Line {
    Append(e.list, Compile(e.match_), TargetOf(e.action))
  }

  /** The rules of list `n` with action `a`, in slot order. */
  function RulesOf(slots: seq<Slot>, n: nat, a: Action): seq<Line> {
    if slots == [] then []
    else
      var last := slots[|slots| - 1];
      RulesOf(slots[..|slots| - 1], n, a) + if Selected(last, n, a) then [RuleFor(last.entry)] else []
  }

  function Header(n: nat, rules: seq<Line>): seq<Line> {
    if rules == [] then [] else [NewChain(n)]
  }

  /** The part of the script for list `n`. */
  function Section(slots: seq<Slot>, n: nat): seq<Line> {
    var deny, permit := RulesOf(slots, n, Deny), RulesOf(slots, n, Permit);
    Header(n, deny + permit) + deny + permit + if permit == [] then [] else [Append(n, [], Drop)]
  }

  function Script(slots: seq<Slot>, upTo: nat): seq<Line> {
    if upTo == 0 then [] else Script(slots, upTo - 1) + Section(slots, upTo)
  }

  /** The lines that print `rules`, creating the chain first unless that was done before. */
  function Printed(have: bool, n: nat, rules: seq<Line>): seq<Line> {
    (if have then [] else Header(n, rules)) + rules
  }

  lemma {:induction false} PrintedStep(have: bool, n: nat, rules: seq<Line>, r: Line)
    ensures Printed(have, n, rules + [r]) ==
      Printed(have, n, rules) + (if have || rules != [] then [] else [NewChain(n)]) + [r]
  {
  }

  lemma {:induction false} RulesStep(slots: seq<Slot>, j: nat, n: nat, a: Action)
    requires j < |slots|
    ensures RulesOf(slots[..j + 1], n, a) ==
      RulesOf(slots[..j], n, a) + if Selected(slots[j], n, a) then [RuleFor(slots[j].entry)] else []
  {
    assert slots[..j + 1][..j] == slots[..j];
  }

  method AppendRules(slots: array<Slot>, n: nat, a: Action, have: bool) returns (lines: seq<Line>, have': bool)
    ensures lines == Printed(have, n, RulesOf(slots[..], n, a))
    ensures have' == (have || RulesOf(slots[..], n, a) != [])
  {
    lines, have' := [], have;
    var j := 0;
    ghost var rules := [];
    while j < slots.Length
      invariant 0 <= j <= slots.Length && rules == RulesOf(slots[..j], n, a)
      invariant lines == Printed(have, n, rules) && have' == (have || rules != [])
    {
      RulesStep(slots[..], j, n, a);
      assert slots[..][..j] == slots[..j] && slots[..][..j + 1] == slots[..j + 1];
      if Selected(slots[j], n, a) {
        PrintedStep(have, n, rules, RuleFor(slots[j].entry));
        if !have' {
          lines := lines + [NewChain(n)];
        }
        have' := true;
        lines := lines + [RuleFor(slots[j].entry)];
        rules := rules + [RuleFor(slots[j].entry)];
      }
      j := j + 1;
    }
    assert slots[..j] == slots[..];
  }

  lemma {:induction false} SectionIsPrinted(slots: seq<Slot>, n: nat)
    ensures var deny, permit := RulesOf(slots, n, Deny), RulesOf(slots, n, Permit);
            Section(slots, n) == Printed(false, n, deny) + Printed(deny != [], n, permit)
                                 + if permit == [] then [] else [Append(n, [], Drop)]
    ensures Printed(RulesOf(slots, n, Deny) != [], n, RulesOf(slots, n, Permit)) != []
            <==> RulesOf(slots, n, Permit) != []
  {
  }

  /** The list part of the script: for every list its denies, its permits and a final drop. */
  method Generate(slots: array<Slot>) returns (script: seq<Line>)
    ensures script == Script(slots[..], 198)
  {
    script := [];
    var n := 1;
    while n < 199
      invariant 1 <= n <= 199
      invariant script == Script(slots[..], n - 1)
    {
      var deny, haveList := AppendRules(slots, n, Deny, false);
      var permit, _ := AppendRules(slots, n, Permit, haveList);
      SectionIsPrinted(slots[..], n);
      var havePermit := permit != [];
      var drop := if havePermit then [Append(n, [], Drop)] else [];
      script := script + (deny + permit + drop);
      n := n + 1;
    }
  }

  // What the chains decide.

  lemma {:induction false} RulesDecide(slots: seq<Slot>, n: nat, a: Action, p: Packet)
    ensures FirstMatch(RulesOf(slots, n, a), p) ==
            if Decides(EntriesOf(slots), n, a, p) then TargetOf(a) else FallThrough
    ensures RulesOf(slots, n, a) != [] <==> exists e :: e in EntriesOf(slots) && e.list == n && e.action == a
  {
    if slots != [] {
      var prior, last := slots[..|slots| - 1], slots[|slots| - 1];
      RulesDecide(prior, n, a, p);
      RulesAreOwn(prior, n, a);
      EntriesStep(slots);
      FirstMatchAppend(RulesOf(prior, n, a), if Selected(last, n, a) then [RuleFor(last.entry)] else [], p);
      CompilePreservesMeaning(last.entry.match_, p);
      if Selected(last, n, a) {
        assert last.entry in EntriesOf(slots);
      }
    }
  }

  ghost predicate OwnRule(line: Line, n: nat) {
    line.Append? && line.list == n && line.target != FallThrough
  }

  lemma {:induction false} RulesAreOwn(slots: seq<Slot>, n: nat, a: Action)
    ensures forall i :: 0 <= i < |RulesOf(slots, n, a)| ==> OwnRule(RulesOf(slots, n, a)[i], n)
  {
    if slots != [] {
      RulesAreOwn(slots[..|slots| - 1], n, a);
    }
  }

  /** A section creates the chain, if it has rules, and appends rules of its own list only. */
  lemma {:induction false} SectionParts(slots: seq<Slot>, n: nat) returns (header: seq<Line>)
    ensures Section(slots, n) == header + Rules(slots, n)
    ensures header == if Rules(slots, n) == [] then [] else [NewChain(n)]
    ensures forall i :: 0 <= i < |Rules(slots, n)| ==> OwnRule(Rules(slots, n)[i], n)
  {
    RulesAreOwn(slots, n, Deny);
    RulesAreOwn(slots, n, Permit);
    header := Header(n, RulesOf(slots, n, Deny) + RulesOf(slots, n, Permit));
  }

  lemma {:induction false} ChainOfOwn(rules: seq<Line>, n: nat)
    requires forall i :: 0 <= i < |rules| ==> OwnRule(rules[i], n)
    ensures ChainOf(rules, n) == rules
  {
    if rules != [] {
      ChainOfOwn(rules[..|rules| - 1], n);
    }
  }

  lemma {:induction false} ChainOfOther(lines: seq<Line>, n: nat)
    requires forall i :: 0 <= i < |lines| && lines[i].Append? ==> lines[i].list != n
    ensures ChainOf(lines, n) == []
  {
    if lines != [] {
      ChainOfOther(lines[..|lines| - 1], n);
    }
  }

  /** The rules of list `n`, with the final drop if it has a permit. */
  function Rules(slots: seq<Slot>, n: nat): seq<Line> {
    var deny, permit := RulesOf(slots, n, Deny), RulesOf(slots, n, Permit);
    deny + (permit + if permit == [] then [] else [Append(n, [], Drop)])
  }

  lemma {:induction false} SectionChain(slots: seq<Slot>, n: nat, m: nat)
    ensures ChainOf(Section(slots, m), n) == OwnRules(slots, m, n)
  {
    var header := SectionParts(slots, m);
    ChainOfAppend(header, Rules(slots, m), n);
    ChainOfOther(header, n);
    if n == m {
      ChainOfOwn(Rules(slots, m), n);
    } else {
      ChainOfOther(Rules(slots, m), n);
    }
  }

  ghost function OwnRules(slots: seq<Slot>, m: nat, n: nat): seq<Line> {
    if n == m then Rules(slots, n) else []
  }

  ghost function ChainFor(slots: seq<Slot>, upTo: nat, n: nat): seq<Line> {
    if 1 <= n <= upTo then Rules(slots, n) else []
  }

  lemma {:induction false} ScriptChain(slots: seq<Slot>, upTo: nat, n: nat, script: seq<Line>)
    requires script == Script(slots, upTo)
    ensures ChainOf(script, n) == ChainFor(slots, upTo, n)
  {
    if upTo > 0 {
      var before := Script(slots, upTo - 1);
      ScriptChain(slots, upTo - 1, n, before);
      SectionChain(slots, n, upTo);
      ChainForStep(slots, upTo, n, before, Section(slots, upTo));
    }
  }

  lemma {:induction false} ChainForStep(slots: seq<Slot>, upTo: nat, n: nat, before: seq<Line>, section: seq<Line>)
    requires upTo > 0 && ChainOf(before, n) == ChainFor(slots, upTo - 1, n)
    requires ChainOf(section, n) == OwnRules(slots, upTo, n)
    ensures ChainOf(before + section, n) == ChainFor(slots, upTo, n)
  {
    ChainOfAppend(before, section, n);
  }

  /**
   The chain generated for a list decides about every packet as the set of configured
   entries means; slot order, slot reuse and duplicates play no part.
   */
  lemma {:induction false} ChainDecidesAsConfigured(slots: seq<Slot>, n: nat, p: Packet)
    requires 1 <= n <= 198
    ensures FirstMatch(ChainOf(Script(slots, 198), n), p) == Meaning(EntriesOf(slots), n, p)
  {
    ScriptChain(slots, 198, n, Script(slots, 198));
    RulesDecide(slots, n, Deny, p);
    RulesDecide(slots, n, Permit, p);
    var deny, permit := RulesOf(slots, n, Deny), RulesOf(slots, n, Permit);
    var drop := if permit == [] then [] else [Append(n, [], Drop)];
    RulesAreOwn(slots, n, Deny);
    RulesAreOwn(slots, n, Permit);
    FirstMatchAppend(deny, permit + drop, p);
    FirstMatchAppend(permit, drop, p);
  }

  /** Two command histories that leave the same entries lead to chains that decide alike. */
  lemma {:induction false} OnlyTheEntriesMatter(s: seq<Slot>, t: seq<Slot>, n: nat, p: Packet)
    requires EntriesOf(s) == EntriesOf(t)
    ensures FirstMatch(ChainOf(Script(s, 198), n), p) == FirstMatch(ChainOf(Script(t, 198), n), p)
  {
    if 1 <= n <= 198 {
      ChainDecidesAsConfigured(s, n, p);
      ChainDecidesAsConfigured(t, n, p);
    } else {
      ScriptChain(s, 198, n, Script(s, 198));
      ScriptChain(t, 198, n, Script(t, 198));
    }
  }

  /**
   Lists are generated up to 198 only. A list beyond that lets every packet through, so it
   decides as configured exactly for the packets its entries leave alone.
   */
  lemma {:induction false} ListsBeyondTheLast(slots: seq<Slot>, n: nat, p: Packet)
    requires n > 198
    ensures FirstMatch(ChainOf(Script(slots, 198), n), p) == FallThrough
    ensures FirstMatch(ChainOf(Script(slots, 198), n), p) == Meaning(EntriesOf(slots), n, p)
       <==> !Decides(EntriesOf(slots), n, Deny, p) && !HasPermit(EntriesOf(slots), n)
  {
    ScriptChain(slots, 198, n, Script(slots, 198));
    if Decides(EntriesOf(slots), n, Permit, p) {
      assert HasPermit(EntriesOf(slots), n);
    }
  }

  /** A single deny of everything on list 199, which the command line accepts, stops no packet. */
  lemma {:induction false} List199IsOpen(slots: seq<Slot>, p: Packet)
    requires slots == [Slot(true, Entry(199, Deny, Simple(0, 0)))]
    ensures Meaning(EntriesOf(slots), 199, p) == Drop
    ensures FirstMatch(ChainOf(Script(slots, 198), 199), p) == FallThrough
  {
    ListsBeyondTheLast(slots, 199, p);
    assert slots[0].entry in EntriesOf(slots);
  }

  /** Every chain is created exactly once if it has rules, and not at all otherwise. */
  lemma {:induction false} ChainsAreCreatedOnce(slots: seq<Slot>, upTo: nat, n: nat, script: seq<Line>)
    requires script == Script(slots, upTo)
    ensures CreatedBefore(script, n) == CreatedIn(slots, upTo, n)
  {
    if upTo > 0 {
      var before := Script(slots, upTo - 1);
      ChainsAreCreatedOnce(slots, upTo - 1, n, before);
      SectionCreates(slots, upTo, n);
      CreatedStep(slots, upTo, n, before, Section(slots, upTo));
    }
  }

  ghost function CreatedIn(slots: seq<Slot>, upTo: nat, n: nat): nat {
    if 1 <= n <= upTo && Rules(slots, n) != [] then 1 else 0
  }

  lemma {:induction false} CreatedStep(slots: seq<Slot>, upTo: nat, n: nat, before: seq<Line>, section: seq<Line>)
    requires upTo > 0 && CreatedBefore(before, n) == CreatedIn(slots, upTo - 1, n)
    requires CreatedBefore(section, n) == if n == upTo && Rules(slots, upTo) != [] then 1 else 0
    ensures CreatedBefore(before + section, n) == CreatedIn(slots, upTo, n)
  {
    CreatedAppend(before, section, n);
  }

  /** The chain a line appends to is created by an earlier line. */
  ghost predicate ChainExists(script: seq<Line>, i: nat)
    requires i < |script| && script[i].Append?
  {
    exists j :: 0 <= j < i && script[j] == NewChain(script[i].list)
  }

  /** No rule is appended before its chain is created. */
  lemma {:induction false} ChainsComeFirst(slots: seq<Slot>, upTo: nat, i: nat)
    requires i < |Script(slots, upTo)| && Script(slots, upTo)[i].Append?
    ensures ChainExists(Script(slots, upTo), i)
  {
    if upTo > 0 {
      var before, rules := Script(slots, upTo - 1), Rules(slots, upTo);
      var header := SectionParts(slots, upTo);
      var script := before + (header + rules);
      assert Script(slots, upTo) == script;
      if i < |before| {
        ChainsComeFirst(slots, upTo - 1, i);
        var j :| 0 <= j < i && before[j] == NewChain(before[i].list);
        assert script[j] == NewChain(script[i].list);
      } else {
        assert i > |before| && script[i] == rules[i - |before| - 1];
        assert script[|before|] == NewChain(upTo);
      }
    }
  }

  function CreatedBefore(script: seq<Line>, n: nat): nat {
    if script == [] then 0
    else CreatedBefore(script[..|script| - 1], n) + if script[|script| - 1] == NewChain(n) then 1 else 0
  }

  lemma {:induction false} CreatedAppend(a: seq<Line>, b: seq<Line>, n: nat)
    ensures CreatedBefore(a + b, n) == CreatedBefore(a, n) + CreatedBefore(b, n)
  {
    if b == [] {
      assert a + b == a;
    } else {
      assert (a + b)[..|a + b| - 1] == a + b[..|b| - 1];
      CreatedAppend(a, b[..|b| - 1], n);
    }
  }

  lemma {:induction false} NoneCreated(lines: seq<Line>, n: nat)
    requires forall i :: 0 <= i < |lines| ==> lines[i].Append?
    ensures CreatedBefore(lines, n) == 0
  {
    if lines != [] {
      NoneCreated(lines[..|lines| - 1], n);
    }
  }

  lemma {:induction false} SectionCreates(slots: seq<Slot>, m: nat, n: nat)
    ensures CreatedBefore(Section(slots, m), n) == if n == m && Rules(slots, m) != [] then 1 else 0
  {
    var header := SectionParts(slots, m);
    CreatedAppend(header, Rules(slots, m), n);
    NoneCreated(Rules(slots, m), n);
    assert [NewChain(m)][..0] == [];
  }
}
