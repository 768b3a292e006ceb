/** What the DNS proxy keeps over whole runs. */
module DnsRun {
  import opened Common
  import opened DnsModel

  ghost function StateAfter(s: State, run: seq<Event>): State {
    if run == [] then s
    else Step(StateAfter(s, run[..|run| - 1]), |run| - 1, run[|run| - 1]).0
  }

  /** The output of event `i` of the run. */
  ghost function OutputAt(s: State, run: seq<Event>, i: nat): Output
    requires i < |run|
  {
    Step(StateAfter(s, run[..i]), i, run[i]).1
  }

  /** The ids drawn for queries are not in use at that time. */
  ghost predicate FreshTids(s: State, run: seq<Event>) {
    forall i :: 0 <= i < |run| && run[i].Query? ==> !InUse(StateAfter(s, run[..i]).active, run[i].newTid)
  }

  ghost predicate DistinctTids(active: seq<Pending>) {
    forall i, j :: 0 <= i < j < |active| ==> active[i].req.newTid != active[j].req.newTid
  }

  ghost predicate DistinctSerials(active: seq<Pending>) {
    forall i, j :: 0 <= i < j < |active| ==> active[i].serial != active[j].serial
  }

  ghost predicate SameQuery(p: Pending, q: Pending) {
    p.serial == q.serial && p.req == q.req.(ttl := p.req.ttl)
  }

  /** `b` is made of the requests of `a` at increasing positions, at most aged. */
  ghost predicate Survivors(a: seq<Pending>, b: seq<Pending>, pos: seq<nat>) {
    && |pos| == |b|
    && (forall i :: 0 <= i < |b| ==> pos[i] < |a| && SameQuery(b[i], a[pos[i]]))
    && (forall i, j :: 0 <= i < j < |b| ==> pos[i] < pos[j])
  }

  lemma {:induction false} WithoutSurvives(a: seq<Pending>, k: nat) returns (pos: seq<nat>)
    requires k < |a|
    ensures Survivors(a, Without(a, k), pos)
  {
    pos := seq(|a| - 1, i => if i < k then i else i + 1);
  }

  lemma {:induction false} AgedSurvives(a: seq<Pending>) returns (pos: seq<nat>)
    ensures Survivors(a, Aged(a), pos)
  {
    if a == [] {
      pos := [];
    } else {
      var rest := AgedSurvives(a[1..]);
      pos := FirstAged(a, Aged(a[1..]), rest);
    }
  }

  lemma {:induction false} FirstAged(a: seq<Pending>, b: seq<Pending>, rest: seq<nat>) returns (pos: seq<nat>)
    requires a != [] && Survivors(a[1..], b, rest)
    ensures var r := a[0].req; Survivors(a, (if r.ttl <= 1 then [] else [a[0].(req := r.(ttl := r.ttl - 1))]) + b, pos)
  {
    pos := ShiftSurvives(a, b, rest);
    if a[0].req.ttl > 1 {
      pos := KeepSurvives(a, a[0].(req := a[0].req.(ttl := a[0].req.ttl - 1)), b, pos);
    } else {
      assert [] + b == b;
    }
  }

  lemma {:induction false} ShiftSurvives(a: seq<Pending>, b: seq<Pending>, pos: seq<nat>) returns (shifted: seq<nat>)
    requires a != [] && Survivors(a[1..], b, pos)
    ensures Survivors(a, b, shifted) && forall i :: 0 <= i < |shifted| ==> shifted[i] > 0
  {
    shifted := seq(|pos|, i requires 0 <= i < |pos| => pos[i] + 1);
    forall i | 0 <= i < |b| ensures shifted[i] < |a| && SameQuery(b[i], a[shifted[i]]) {
      assert a[shifted[i]] == a[1..][pos[i]];
    }
  }

  lemma {:induction false} KeepSurvives(a: seq<Pending>, p: Pending, b: seq<Pending>, shifted: seq<nat>)
    returns (pos: seq<nat>)
    requires a != [] && SameQuery(p, a[0]) && Survivors(a, b, shifted)
    requires forall i :: 0 <= i < |shifted| ==> shifted[i] > 0
    ensures Survivors(a, [p] + b, pos)
  {
    pos := [0] + shifted;
  }

  // Where pending requests come from.

  /** The request was queued by the query at position `serial` of the run, for its client. */
  ghost predicate Originates(s: State, run: seq<Event>, p: Pending) {
    && p.serial < |run|
    && run[p.serial].Query?
    && OutputAt(s, run, p.serial) == Forward(p.req.serverIp, p.req.newTid)
    && var q := run[p.serial];
       && p.req.clientIp == q.ip && p.req.clientPort == q.port && p.req.clientTid == q.tid
       && p.req.queryType == q.queryType && p.req.name == Stored(q.name) && p.req.newTid == q.newTid
  }

  ghost predicate Traced(s: State, run: seq<Event>, active: seq<Pending>) {
    && DistinctSerials(active) && DistinctTids(active)
    && (forall i :: 0 <= i < |active| ==> Originates(s, run, active[i]))
  }

  lemma {:induction false} OriginatesLonger(s: State, run: seq<Event>, e: Event, p: Pending)
    requires Originates(s, run, p)
    ensures Originates(s, run + [e], p)
  {
    assert (run + [e])[..p.serial] == run[..p.serial];
  }

  lemma {:induction false} SurvivorsTraced(s: State, run: seq<Event>, a: seq<Pending>, b: seq<Pending>, pos: seq<nat>)
    requires Traced(s, run, a) && Survivors(a, b, pos)
    ensures Traced(s, run, b)
  {
    forall i | 0 <= i < |b| ensures Originates(s, run, b[i]) {
      assert Originates(s, run, a[pos[i]]) && SameQuery(b[i], a[pos[i]]);
    }
    forall i, j | 0 <= i < j < |b| ensures b[i].serial != b[j].serial && b[i].req.newTid != b[j].req.newTid {
      assert SameQuery(b[i], a[pos[i]]) && SameQuery(b[j], a[pos[j]]);
    }
  }

  lemma {:induction false} TracedLonger(s: State, run: seq<Event>, e: Event, active: seq<Pending>)
    requires Traced(s, run, active)
    ensures Traced(s, run + [e], active)
  {
    forall i | 0 <= i < |active| ensures Originates(s, run + [e], active[i]) {
      OriginatesLonger(s, run, e, active[i]);
    }
  }

  /** A request in front keeps the others traced if it is younger and its id is unused. */
  lemma {:induction false} FrontTraced(s: State, run: seq<Event>, p: Pending, active: seq<Pending>)
    requires Traced(s, run, active) && Originates(s, run, p) && !InUse(active, p.req.newTid)
    requires forall i :: 0 <= i < |active| ==> active[i].serial < p.serial
    ensures Traced(s, run, [p] + active)
  {
    var longer := [p] + active;
    assert forall i :: 0 < i < |longer| ==> longer[i] == active[i - 1];
  }

  /** The request a forwarded query queues has that query as its origin. */
  lemma {:induction false} QueuedOriginates(s: State, run: seq<Event>, e: Event, before: State, p: Pending)
    requires before == StateAfter(s, run) && e.Query? && StepQuery(before, |run|, e).1.Forward?
    requires [p] + before.active == StepQuery(before, |run|, e).0.active
    ensures Originates(s, run + [e], p)
  {
    var r := run + [e];
    assert r[..|run|] == run && r[|run|] == e;
    assert ([p] + before.active)[0] == p;
  }

  lemma {:induction false} QueryTraced(s: State, run: seq<Event>, e: Event, before: State)
    requires before == StateAfter(s, run) && e.Query? && !InUse(before.active, e.newTid)
    requires Traced(s, run, before.active)
    ensures Traced(s, run + [e], StepQuery(before, |run|, e).0.active)
  {
    TracedLonger(s, run, e, before.active);
    var (after, out) := StepQuery(before, |run|, e);
    if out.Forward? {
      var p := after.active[0];
      assert after.active == [p] + before.active;
      QueuedOriginates(s, run, e, before, p);
      FrontTraced(s, run + [e], p, before.active);
    }
  }

  lemma {:induction false} ResponseTraced(s: State, run: seq<Event>, e: Event, before: State)
    requires e.Response? && Traced(s, run, before.active)
    ensures Traced(s, run, StepResponse(before, e).0.active)
  {
    var after := StepResponse(before, e).0;
    if after.active != before.active {
      var pos := WithoutSurvives(before.active, FindTid(before.active, e.tid).value);
      SurvivorsTraced(s, run, before.active, after.active, pos);
    }
  }

  lemma {:induction false} StepTraced(s: State, run: seq<Event>, e: Event, before: State)
    requires before == StateAfter(s, run) && Traced(s, run, before.active)
    requires e.Query? ==> !InUse(before.active, e.newTid)
    ensures Traced(s, run + [e], Step(before, |run|, e).0.active)
  {
    TracedLonger(s, run, e, before.active);
    match e
    case Query(_, _, _, _, _, _, _) =>
      QueryTraced(s, run, e, before);
    case Response(_, _, _, _, _) =>
      ResponseTraced(s, run + [e], e, before);
    case Tick =>
      var pos := AgedSurvives(before.active);
      SurvivorsTraced(s, run + [e], before.active, Aged(before.active), pos);
    case Clear =>
    case Configure(_) =>
  }

  lemma {:induction false} RunTraced(s: State, run: seq<Event>)
    requires s.active == [] && FreshTids(s, run)
    ensures Traced(s, run, StateAfter(s, run).active)
  {
    if run != [] {
      var prior, e := run[..|run| - 1], run[|run| - 1];
      assert prior + [e] == run;
      PrefixFresh(s, run, |prior|);
      RunTraced(s, prior);
      StepTraced(s, prior, e, StateAfter(s, prior));
    }
  }

  /** The ids stay unused when drawn in every prefix of the run. */
  lemma {:induction false} PrefixFresh(s: State, run: seq<Event>, n: nat)
    requires FreshTids(s, run) && n <= |run|
    ensures FreshTids(s, run[..n])
  {
    var prior := run[..n];
    forall i | 0 <= i < |prior| && prior[i].Query?
      ensures !InUse(StateAfter(s, prior[..i]).active, prior[i].newTid)
    {
      assert prior[..i] == run[..i] && prior[i] == run[i];
    }
  }

  /**
   Every response passed to a client answers an earlier query that was passed on to the
   server the response comes from, about the same name and type; it goes to the address and
   port that query came from and carries its original id.
   */
  lemma {:induction false} RepliesMatchQueries(s: State, run: seq<Event>, i: nat)
    requires s.active == [] && FreshTids(s, run) && i < |run| && OutputAt(s, run, i).Reply?
    ensures var out := OutputAt(s, run, i);
            var j := out.serial;
            && run[i].Response? && j < i && run[j].Query?
            && OutputAt(s, run, j) == Forward(run[i].ip, run[i].tid)
            && run[j].queryType == run[i].queryType && Stored(run[j].name) == run[i].name
            && out.clientIp == run[j].ip && out.clientPort == run[j].port && out.clientTid == run[j].tid
  {
    var prior := run[..i];
    PrefixFresh(s, run, i);
    RunTraced(s, prior);
    var active := StateAfter(s, prior).active;
    var k := FindTid(active, run[i].tid).value;
    assert Originates(s, prior, active[k]);
    assert run[..active[k].serial] == prior[..active[k].serial];
  }

  ghost predicate PendingSerial(active: seq<Pending>, serial: nat) {
    exists i :: 0 <= i < |active| && active[i].serial == serial
  }

  /** A query that is no longer pending never becomes pending again. */
  lemma {:induction false} GoneForGood(s: State, run: seq<Event>, n: nat, serial: nat)
    requires n <= |run| && serial < n && !PendingSerial(StateAfter(s, run[..n]).active, serial)
    ensures !PendingSerial(StateAfter(s, run).active, serial)
    decreases |run|
  {
    if n < |run| {
      var prior, e := run[..|run| - 1], run[|run| - 1];
      assert prior[..n] == run[..n];
      GoneForGood(s, prior, n, serial);
      StepAddsNoOld(StateAfter(s, prior), |prior|, e, serial);
    } else {
      assert run[..n] == run;
    }
  }

  lemma {:induction false} StepAddsNoOld(s: State, at: nat, e: Event, serial: nat)
    requires serial < at && !PendingSerial(s.active, serial)
    ensures !PendingSerial(Step(s, at, e).0.active, serial)
  {
    var b := Step(s, at, e).0.active;
    match e
    case Query(_, _, _, _, _, _, _) =>
    case Response(_, _, _, _, _) =>
      if b != s.active {
        var pos := WithoutSurvives(s.active, FindTid(s.active, e.tid).value);
        assert forall i :: 0 <= i < |b| ==> SameQuery(b[i], s.active[pos[i]]);
      }
    case Tick =>
      var pos := AgedSurvives(s.active);
      assert forall i :: 0 <= i < |b| ==> SameQuery(b[i], s.active[pos[i]]);
    case Clear =>
    case Configure(_) =>
  }

  lemma {:induction false} ReplyRetires(s: State, run: seq<Event>, i: nat)
    requires s.active == [] && FreshTids(s, run) && i < |run| && OutputAt(s, run, i).Reply?
    ensures var serial := OutputAt(s, run, i).serial;
            PendingSerial(StateAfter(s, run[..i]).active, serial)
            && !PendingSerial(StateAfter(s, run[..i + 1]).active, serial)
  {
    PrefixFresh(s, run, i);
    RunTraced(s, run[..i]);
    assert run[..i + 1][..i] == run[..i];
    var before := StateAfter(s, run[..i]).active;
    RetiredIsGone(before, FindTid(before, run[i].tid).value);
  }

  lemma {:induction false} RetiredIsGone(a: seq<Pending>, k: nat)
    requires DistinctSerials(a) && k < |a|
    ensures PendingSerial(a, a[k].serial) && !PendingSerial(Without(a, k), a[k].serial)
  {
    var b := Without(a, k);
    forall x | 0 <= x < |b| ensures b[x].serial != a[k].serial {
      assert b[x] == a[if x < k then x else x + 1];
    }
  }

  /** No query is answered twice: two responses passed on answer different queries. */
  lemma {:induction false} RepliesAreDistinct(s: State, run: seq<Event>, i: nat, j: nat)
    requires s.active == [] && FreshTids(s, run) && i < j < |run|
    requires OutputAt(s, run, i).Reply? && OutputAt(s, run, j).Reply?
    ensures OutputAt(s, run, i).serial != OutputAt(s, run, j).serial
  {
    var serial := OutputAt(s, run, i).serial;
    RepliesMatchQueries(s, run, i);
    ReplyRetires(s, run, i);
    ReplyRetires(s, run, j);
    var prior := run[..j];
    assert prior[..i + 1] == run[..i + 1];
    GoneForGood(s, prior, i + 1, serial);
  }

  /** The queue never holds more than the pool has records for. */
  lemma {:induction false} QueueIsBounded(s: State, run: seq<Event>)
    requires |s.active| <= MAX_REQ
    ensures |StateAfter(s, run).active| <= MAX_REQ
  {
    if run != [] {
      QueueIsBounded(s, run[..|run| - 1]);
      AgedIsShorter(StateAfter(s, run[..|run| - 1]).active);
    }
  }

  lemma {:induction false} AgedIsShorter(a: seq<Pending>)
    ensures |Aged(a)| <= |a|
  {
    if a != [] {
      AgedIsShorter(a[1..]);
    }
  }
}
