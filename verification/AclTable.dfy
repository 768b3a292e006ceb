/** The slot table of access list entries, and the script generated from it. */
module AclTable {
  import opened Common
  import opened AclModel

  datatype Slot = Slot(valid: bool, entry: Entry)

  // The table as a set of entries.

  ghost function EntriesOf(s: seq<Slot>): set<Entry> {
    set i | 0 <= i < |s| && s[i].valid :: s[i].entry
  }

  ghost predicate NoDuplicates(s: seq<Slot>) {
    forall i, j :: 0 <= i < j < |s| && s[i].valid && s[j].valid ==> s[i].entry != s[j].entry
  }

  function CountValid(s: seq<Slot>): nat {
    if s == [] then 0 else CountValid(s[..|s| - 1]) + if s[|s| - 1].valid then 1 else 0
  }

  lemma {:induction false} CountIsSize(s: seq<Slot>)
    requires NoDuplicates(s)
    ensures |EntriesOf(s)| == CountValid(s) <= |s|
    ensures CountValid(s) == |s| <==> forall i :: 0 <= i < |s| ==> s[i].valid
  {
    if s != [] {
      var prior, last := s[..|s| - 1], s[|s| - 1];
      CountIsSize(prior);
      assert forall i :: 0 <= i < |prior| ==> prior[i] == s[i];
      EntriesStep(s);
      if last.valid {
        assert last.entry !in EntriesOf(prior);
      }
    }
  }

  lemma {:induction false} EntriesStep(s: seq<Slot>)
    requires s != []
    ensures var prior, last := s[..|s| - 1], s[|s| - 1];
            EntriesOf(s) == EntriesOf(prior) + if last.valid then {last.entry} else {}
  {
    var prior, last := s[..|s| - 1], s[|s| - 1];
    forall e ensures e in EntriesOf(s) <==> e in EntriesOf(prior) || (last.valid && e == last.entry) {
      if e in EntriesOf(s) {
        var i :| 0 <= i < |s| && s[i].valid && s[i].entry == e;
        assert i < |prior| ==> prior[i] == s[i];
      }
      if e in EntriesOf(prior) {
        var i :| 0 <= i < |prior| && prior[i].valid && prior[i].entry == e;
        assert s[i].valid && s[i].entry == e;
      }
    }
  }

  lemma {:induction false} SetSlot(s: seq<Slot>, k: nat, e: Entry)
    requires k < |s| && NoDuplicates(s) && !s[k].valid && e !in EntriesOf(s)
    ensures NoDuplicates(s[k := Slot(true, e)]) && EntriesOf(s[k := Slot(true, e)]) == EntriesOf(s) + {e}
  {
    var t := s[k := Slot(true, e)];
    assert t[k].valid && t[k].entry == e;
    forall f | f in EntriesOf(s) ensures f in EntriesOf(t) {
      var i :| 0 <= i < |s| && s[i].valid && s[i].entry == f;
      assert t[i] == s[i];
    }
    forall f | f in EntriesOf(t) ensures f in EntriesOf(s) + {e} {
      var i :| 0 <= i < |t| && t[i].valid && t[i].entry == f;
      assert i != k ==> s[i] == t[i];
    }
  }

  lemma {:induction false} ClearSlot(s: seq<Slot>, k: nat)
    requires k < |s| && NoDuplicates(s) && s[k].valid
    ensures var t := s[k := s[k].(valid := false)];
            NoDuplicates(t) && EntriesOf(t) == EntriesOf(s) - {s[k].entry}
  {
    var t := s[k := s[k].(valid := false)];
    forall f | f in EntriesOf(s) && f != s[k].entry ensures f in EntriesOf(t) {
      var i :| 0 <= i < |s| && s[i].valid && s[i].entry == f;
      assert t[i] == s[i];
    }
    forall f | f in EntriesOf(t) ensures f in EntriesOf(s) && f != s[k].entry {
      var i :| 0 <= i < |t| && t[i].valid && t[i].entry == f;
      assert t[i] == s[i];
    }
  }

  // Commands.

  datatype Command =
    | Add(list: nat, action: Action, match_: Match)
    | Remove(list: nat, action: Action, match_: Match)
    | ClearList(list: nat)

  /** A command names its list by an int, an entry holds it in a byte. */
  function EntryFor(list: nat, action: Action, m: Match): Entry {
    Entry(LowByte(list), action, m)
  }

  /** What a command does to the set of entries of a table with `limit` slots. */
  ghost function Apply(entries: set<Entry>, c: Command, limit: nat): set<Entry> {
    match c
    case Add(list, action, m) =>
      if |entries| < limit then entries + {EntryFor(list, action, m)} else entries
    case Remove(list, action, m) => entries - {EntryFor(list, action, m)}
    case ClearList(list) => set e | e in entries && e.list != list
  }

  ghost function ApplyAll(commands: seq<Command>, limit: nat): set<Entry> {
    if commands == [] then {}
    else Apply(ApplyAll(commands[..|commands| - 1], limit), commands[|commands| - 1], limit)
  }

  class Table {
    const slots: array<Slot>

    ghost predicate Valid()
      reads slots
    {
      NoDuplicates(slots[..])
    }

    ghost function Entries(): set<Entry>
      reads slots
    {
      EntriesOf(slots[..])
    }

    constructor (limit: nat)
      ensures Valid() && fresh(slots) && slots.Length == limit && Entries() == {}
    {
      slots := new Slot[limit](i => Slot(false, Entry(0, Permit, Simple(0, 0))));
    }

    method Find(e: Entry) returns (k: Option<nat>)
      ensures k.Some? ==> k.value < slots.Length && slots[k.value] == Slot(true, e)
      ensures k.None? ==> e !in Entries()
    {
      var i := 0;
      while i < slots.Length
        invariant 0 <= i <= slots.Length
        invariant forall j :: 0 <= j < i ==> slots[j] != Slot(true, e)
      {
        if slots[i].valid && slots[i].entry == e {
          return Some(i);
        }
        i := i + 1;
      }
      return None;
    }

    method FindEmpty() returns (k: Option<nat>)
      ensures k.Some? ==> k.value < slots.Length && !slots[k.value].valid
      ensures k.None? ==> forall j :: 0 <= j < slots.Length ==> slots[j].valid
    {
      var i := 0;
      while i < slots.Length
        invariant 0 <= i <= slots.Length
        invariant forall j :: 0 <= j < i ==> slots[j].valid
      {
        if !slots[i].valid {
          return Some(i);
        }
        i := i + 1;
      }
      return None;
    }

    /** `ok` is false when the table is full. */
    method AddEntry(list: nat, action: Action, m: Match) returns (ok: bool)
      requires Valid()
      modifies slots
      ensures Valid() && Entries() == Apply(old(Entries()), Add(list, action, m), slots.Length)
      ensures ok <==> EntryFor(list, action, m) in Entries()
    {
      CountIsSize(slots[..]);
      var e := EntryFor(list, action, m);
      var found := Find(e);
      if found.Some? {
        assert slots[..][found.value].entry == e;
        return true;
      }
      var empty := FindEmpty();
      if empty.None? {
        return false;
      }
      SetSlot(slots[..], empty.value, e);
      assert !slots[..][empty.value].valid;
      slots[empty.value] := Slot(true, e);
      return true;
    }

    method RemoveEntry(list: nat, action: Action, m: Match)
      requires Valid()
      modifies slots
      ensures Valid() && Entries() == Apply(old(Entries()), Remove(list, action, m), slots.Length)
    {
      var e := EntryFor(list, action, m);
      var found := Find(e);
      if found.Some? {
        ClearSlot(slots[..], found.value);
        slots[found.value] := slots[found.value].(valid := false);
      }
    }

    method Clear(list: nat)
      requires Valid()
      modifies slots
      ensures Valid() && Entries() == Apply(old(Entries()), ClearList(list), slots.Length)
    {
      ghost var was := slots[..];
      var i := 0;
      while i < slots.Length
        invariant 0 <= i <= slots.Length
        invariant forall j :: 0 <= j < slots.Length ==>
          slots[j] == if j < i && was[j].valid && was[j].entry.list == list then was[j].(valid := false) else was[j]
      {
        if slots[i].valid && slots[i].entry.list == list {
          slots[i] := slots[i].(valid := false);
        }
        i := i + 1;
      }
      ghost var now := slots[..];
      forall e ensures e in EntriesOf(now) <==> e in EntriesOf(was) && e.list != list {
        if e in EntriesOf(now) {
          var k :| 0 <= k < |now| && now[k].valid && now[k].entry == e;
          assert was[k].valid && was[k].entry == e;
        }
        if e in EntriesOf(was) && e.list != list {
          var k :| 0 <= k < |was| && was[k].valid && was[k].entry == e;
          assert now[k].valid && now[k].entry == e;
        }
      }
    }

    /** Carries out a history of commands on an empty table. */
    method RunAll(commands: seq<Command>)
      requires Valid() && Entries() == {}
      modifies slots
      ensures Valid() && Entries() == ApplyAll(commands, slots.Length)
    {
      var i := 0;
      while i < |commands|
        invariant 0 <= i <= |commands|
        invariant Valid() && Entries() == ApplyAll(commands[..i], slots.Length)
      {
        assert commands[..i + 1][..i] == commands[..i];
        match commands[i] {
          case Add(list, action, m) => var ok := AddEntry(list, action, m);
          case Remove(list, action, m) => RemoveEntry(list, action, m);
          case ClearList(list) => Clear(list);
        }
        i := i + 1;
      }
      assert commands[..i] == commands;
    }
  }
}
