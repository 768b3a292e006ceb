/** What a history of commands grants: in which modes the nodes of the tree are seen and executed. */
module CliGrants {
  import opened Common
  import opened CliWords
  import opened CliTree

  /** A command that was added: its words, its mode and the node made executable for it. */
  datatype Added = Added(mode: Mode, words: seq<string>, node: nat)

  ghost predicate Installed(nodes: seq<Node>, a: Added) {
    && Linked(nodes) && nodes != []
    && Path(nodes, a.mode, 0, a.words) == Some(a.node)
    && nodes[a.node].exe > 0 && Within(a.mode, nodes[a.node].exeMode)
  }

  lemma {:induction false} InstalledKept(a: seq<Node>, b: seq<Node>, c: Added)
    requires Linked(b) && Extends(a, b) && BlankIsLast(a) && Installed(a, c)
    ensures Installed(b, c)
  {
    PathKept(a, b, c.mode, 0, c.words);
    assert NodeExtends(a[c.node], b[c.node]);
  }

  // The change an addition makes.

  function ModeOf(nodes: seq<Node>, i: nat): Mode {
    if i < |nodes| then nodes[i].mode else {}
  }

  function ExeModeOf(nodes: seq<Node>, i: nat): Mode {
    if i < |nodes| then nodes[i].exeMode else {}
  }

  function ExeOf(nodes: seq<Node>, i: nat): nat {
    if i < |nodes| then nodes[i].exe else 0
  }

  /** What node `i` gains, new nodes having had nothing. */
  ghost predicate GainsAt(a: seq<Node>, b: seq<Node>, i: nat, onTrail: bool, atEnd: bool, mode: Mode) {
    && ModeOf(b, i) == (if onTrail then ModeOf(a, i) + mode else ModeOf(a, i))
    && ExeModeOf(b, i) == (if atEnd then ExeModeOf(a, i) + mode else ExeModeOf(a, i))
    && ExeOf(b, i) == (if atEnd then ExeOf(a, i) + 1 else ExeOf(a, i))
  }

  /** The nodes of the trail gain the mode, and the node at the end is executable once more, in that mode. */
  ghost predicate Gains(a: seq<Node>, b: seq<Node>, trail: seq<nat>, end: Option<nat>, mode: Mode) {
    && |a| <= |b|
    && forall i: nat {:trigger GainsAt(a, b, i, i in trail, end == Some(i), mode)} :: i < |b| ==>
         GainsAt(a, b, i, i in trail, end == Some(i), mode)
  }

  /** Two changes of one addition, the last of them ending the command, or not. */
  lemma {:induction false} Resume(a: seq<Node>, mid: seq<Node>, b: seq<Node>, x: seq<nat>, y: seq<nat>, z: seq<nat>,
                                  end: Option<nat>, mode: Mode)
    requires Extends(a, mid) && Gains(a, mid, x, None, mode) && Extends(mid, b) && Gains(mid, b, y, end, mode)
    requires forall i :: i in z <==> i in x || i in y
    requires forall i :: i in x ==> i < |mid|
    ensures Extends(a, b) && Gains(a, b, z, end, mode)
  {
    ExtendsTransitive(a, mid, b);
    forall i: nat | i < |b| ensures GainsAt(a, b, i, i in z, end == Some(i), mode) {
      assert GainsAt(mid, b, i, i in y, end == Some(i), mode);
      if i < |mid| {
        assert GainsAt(a, mid, i, i in x, None == Some(i), mode);
      }
    }
  }

  lemma {:induction false} UpdateGains(nodes: seq<Node>, i: nat, n: Node, trail: seq<nat>, end: Option<nat>, mode: Mode)
    requires i < |nodes| && (forall j :: j in trail ==> j == i) && (end.Some? ==> end.value == i)
    requires n.mode == if i in trail then nodes[i].mode + mode else nodes[i].mode
    requires n.exeMode == if end.Some? then nodes[i].exeMode + mode else nodes[i].exeMode
    requires n.exe == if end.Some? then nodes[i].exe + 1 else nodes[i].exe
    ensures Gains(nodes, nodes[i := n], trail, end, mode)
  {
    var b := nodes[i := n];
    forall j: nat | j < |b| ensures GainsAt(nodes, b, j, j in trail, end == Some(j), mode) {
      assert j != i ==> b[j] == nodes[j];
    }
  }

  /** A new node with the mode at the end of the pool, and a link to it from node `i`. */
  lemma {:induction false} NewNodeGains(nodes: seq<Node>, i: nat, linked: Node, n: Node, mode: Mode)
    requires i < |nodes| && linked.mode == nodes[i].mode && linked.exeMode == nodes[i].exeMode
    requires linked.exe == nodes[i].exe && n.mode == mode && n.exeMode == {} && n.exe == 0
    ensures Gains(nodes, nodes[i := linked] + [n], [|nodes|], None, mode)
  {
    var b := nodes[i := linked] + [n];
    forall j: nat | j < |b| ensures GainsAt(nodes, b, j, j in [|nodes|], None == Some(j), mode) {
      assert j < |nodes| && j != i ==> b[j] == nodes[j];
    }
  }

  // Trails.

  lemma {:induction false} TrailStarts(nodes: seq<Node>, cur: nat, word: string, rest: seq<string>)
    requires Linked(nodes) && cur < |nodes| && SiblingWith(nodes, cur, word).Some?
    ensures var i := SiblingWith(nodes, cur, word).value;
            Trail(nodes, cur, [word] + rest) ==
            if nodes[i].rule.None? then [i] else [i] + Trail(nodes, nodes[i].rule.value, rest)
    ensures rest == [] ==> Trail(nodes, cur, [word] + rest) == [SiblingWith(nodes, cur, word).value]
  {
    assert ([word] + rest)[1..] == rest;
  }

  /** From any node of a level in front of the token, the trail is the same. */
  lemma {:induction false} SameTrail(nodes: seq<Node>, cur: nat, at: nat, words: seq<string>)
    requires Linked(nodes) && cur < |nodes| && at < |nodes| && words != []
    requires SiblingWith(nodes, cur, words[0]) == SiblingWith(nodes, at, words[0]) == Some(at)
    ensures Trail(nodes, cur, words) == Trail(nodes, at, words) && at in Trail(nodes, at, words)
  {
    TrailStarts(nodes, cur, words[0], words[1..]);
    TrailStarts(nodes, at, words[0], words[1..]);
    assert [words[0]] + words[1..] == words;
  }

  /** Going on below node `i`, on a level that may be new, adds that node to the trail. */
  lemma {:induction false} BelowGains(a: seq<Node>, mid: seq<Node>, b: seq<Node>, mode: Mode, cur: nat, i: nat,
                                      below: nat, word: string, rest: seq<string>, n: nat)
    requires Linked(b) && cur < |b| && below < |b| && rest != [] && i < |mid| && below < |mid|
    requires Extends(a, mid) && Gains(a, mid, if |mid| > |a| then [i, below] else [i], None, mode)
    requires Extends(mid, b) && Gains(mid, b, Trail(b, below, rest), Some(n), mode)
    requires SiblingWith(b, cur, word) == Some(i) && b[i].rule == Some(below)
    requires |mid| > |a| ==> b[below].token == Some(rest[0])
    ensures Extends(a, b) && Gains(a, b, Trail(b, cur, [word] + rest), Some(n), mode)
  {
    var trail, ids := Trail(b, below, rest), if |mid| > |a| then [i, below] else [i];
    TrailStarts(b, cur, word, rest);
    if |mid| > |a| {
      SameTrail(b, below, below, rest);
    }
    Resume(a, mid, b, ids, trail, [i] + trail, Some(n), mode);
  }

  // What the history grants.

  /** Command `c` is for mode bit `b` and its path runs through node `i`. */
  ghost predicate Runs(nodes: seq<Node>, c: Added, b: int, i: nat)
    requires Linked(nodes) && nodes != []
  {
    b in c.mode && i in Trail(nodes, 0, c.words)
  }

  ghost predicate Seen(nodes: seq<Node>, added: seq<Added>, b: int, i: nat)
    requires Linked(nodes) && nodes != []
  {
    i == 0 || exists k :: 0 <= k < |added| && Runs(nodes, added[k], b, i)
  }

  predicate Ends(c: Added, b: int, i: nat) {
    b in c.mode && c.node == i
  }

  predicate Executed(added: seq<Added>, b: int, i: nat) {
    exists k :: 0 <= k < |added| && Ends(added[k], b, i)
  }

  /** Nodes are seen, and executed, in no other modes than the commands added grant; the root head is seen in all. */
  ghost predicate Granted(nodes: seq<Node>, added: seq<Added>)
    requires Linked(nodes) && nodes != []
  {
    && nodes[0].mode == MODE_ALL
    && (forall i: nat, b {:trigger Seen(nodes, added, b, i)} ::
          i < |nodes| && b in nodes[i].mode ==> Seen(nodes, added, b, i))
    && (forall i: nat, b {:trigger Executed(added, b, i)} ::
          i < |nodes| && b in nodes[i].exeMode ==> Executed(added, b, i))
  }

  ghost predicate AllInstalled(nodes: seq<Node>, added: seq<Added>) {
    forall k :: 0 <= k < |added| ==> Installed(nodes, added[k])
  }

  lemma {:induction false} SeenKept(a: seq<Node>, b: seq<Node>, added: seq<Added>, c: Added, bit: int, i: nat)
    requires Linked(a) && a != [] && Linked(b) && Extends(a, b) && BlankIsLast(a)
    requires AllInstalled(a, added)
    requires Seen(a, added, bit, i)
    ensures Seen(b, added + [c], bit, i)
  {
    if i != 0 {
      var k :| 0 <= k < |added| && Runs(a, added[k], bit, i);
      assert Installed(a, added[k]);
      TrailKept(a, b, added[k].mode, 0, added[k].words);
      assert (added + [c])[k] == added[k];
      assert Runs(b, (added + [c])[k], bit, i);
    }
  }

  lemma {:induction false} ExecutedKept(added: seq<Added>, c: Added, bit: int, i: nat)
    requires Executed(added, bit, i) || Ends(c, bit, i)
    ensures Executed(added + [c], bit, i)
  {
    if Ends(c, bit, i) {
      assert (added + [c])[|added|] == c;
    } else {
      var k :| 0 <= k < |added| && Ends(added[k], bit, i);
      assert (added + [c])[k] == added[k];
    }
  }

  /** A command added gives its mode to the nodes of its path, and leaves the history in charge of all modes. */
  lemma {:induction false} GrantedKept(a: seq<Node>, b: seq<Node>, added: seq<Added>, c: Added)
    requires Linked(a) && a != [] && Linked(b) && Extends(a, b) && BlankIsLast(a)
    requires AllInstalled(a, added)
    requires Granted(a, added) && Gains(a, b, Trail(b, 0, c.words), Some(c.node), c.mode)
    ensures Granted(b, added + [c])
  {
    var all, trail := added + [c], Trail(b, 0, c.words);
    assert GainsAt(a, b, 0, 0 in trail, Some(c.node) == Some(0), c.mode);
    forall i: nat, bit | i < |b| && bit in b[i].mode ensures Seen(b, all, bit, i) {
      assert GainsAt(a, b, i, i in trail, Some(c.node) == Some(i), c.mode);
      if i < |a| && bit in a[i].mode {
        assert Seen(a, added, bit, i);
        SeenKept(a, b, added, c, bit, i);
      } else {
        assert all[|added|] == c && Runs(b, all[|added|], bit, i);
      }
    }
    forall i: nat, bit | i < |b| && bit in b[i].exeMode ensures Executed(all, bit, i) {
      assert GainsAt(a, b, i, i in trail, Some(c.node) == Some(i), c.mode);
      assert i < |a| && bit in a[i].exeMode ==> Executed(added, bit, i);
      ExecutedKept(added, c, bit, i);
    }
  }

  lemma {:induction false} HistoryKept(a: seq<Node>, b: seq<Node>, added: seq<Added>, c: Added)
    requires Linked(a) && a != [] && Linked(b) && Extends(a, b) && BlankIsLast(a)
    requires AllInstalled(a, added) && Path(b, c.mode, 0, c.words) == Some(c.node)
    requires Within(c.mode, b[c.node].exeMode)
    requires Granted(a, added) && Gains(a, b, Trail(b, 0, c.words), Some(c.node), c.mode)
    ensures AllInstalled(b, added + [c]) && Granted(b, added + [c])
  {
    GrantedKept(a, b, added, c);
    assert GainsAt(a, b, c.node, c.node in Trail(b, 0, c.words), Some(c.node) == Some(c.node), c.mode);
    forall k | 0 <= k < |added| ensures Installed(b, added[k]) {
      assert Installed(a, added[k]);
      InstalledKept(a, b, added[k]);
    }
  }
}
