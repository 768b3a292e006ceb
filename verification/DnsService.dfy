/** What the DNS proxy does for its clients: responses are passed on in time, and told again from the cache. */
module DnsService {
  import opened Common
  import opened DnsNames
  import opened DnsModel
  import opened DnsRun

  function TicksIn(run: seq<Event>): nat {
    if run == [] then 0
    else TicksIn(run[..|run| - 1]) + (if run[|run| - 1].Tick? then 1 else 0)
  }

  /** The query as it waits for its response with so many seconds left. */
  function Waiting(q: Event, serial: nat, server: Word32, left: nat): Pending
    requires q.Query?
  {
    var name := if |q.name| > 63 then q.name[..63] else q.name;
    Pending(serial, Req(left, q.queryType, name, q.ip, q.port, q.tid, q.newTid, server))
  }

  /** Event `i` clears the queue or passes on a response to the query of event `j`. */
  ghost predicate Settles(s: State, run: seq<Event>, i: nat, j: nat)
    requires i < |run|
  {
    run[i].Clear? || (OutputAt(s, run, i).Reply? && OutputAt(s, run, i).serial == j)
  }

  ghost predicate Unanswered(s: State, run: seq<Event>, j: nat) {
    forall i: nat {:trigger Settles(s, run, i, j)} :: j < i < |run| ==> !Settles(s, run, i, j)
  }

  lemma {:induction false} AgedKeeps(a: seq<Pending>, p: Pending)
    requires p in a && p.req.ttl > 1
    ensures p.(req := p.req.(ttl := p.req.ttl - 1)) in Aged(a)
  {
    if p != a[0] {
      assert p in a[1..];
      AgedKeeps(a[1..], p);
    }
  }

  /** A request at its last second is gone at the next tick. */
  lemma {:induction false} AgedDrops(a: seq<Pending>, p: Pending)
    requires DistinctSerials(a) && p in a && p.req.ttl <= 1
    ensures !PendingSerial(Aged(a), p.serial)
  {
    var k :| 0 <= k < |a| && a[k] == p;
    AgedHas(a, p.serial);
    assert forall i :: 0 <= i < |a| && a[i].serial == p.serial ==> i == k;
  }

  lemma {:induction false} AgedHas(a: seq<Pending>, serial: nat)
    ensures PendingSerial(Aged(a), serial) ==> exists i :: 0 <= i < |a| && a[i].serial == serial && a[i].req.ttl > 1
  {
    if a != [] {
      AgedHas(a[1..], serial);
      if PendingSerial(Aged(a), serial) && !(a[0].serial == serial && a[0].req.ttl > 1) {
        AgedFromRest(a, serial);
        var i :| 0 <= i < |a[1..]| && a[1..][i].serial == serial && a[1..][i].req.ttl > 1;
        assert a[i + 1] == a[1..][i];
      }
    }
  }

  lemma {:induction false} AgedFromRest(a: seq<Pending>, serial: nat)
    requires a != [] && PendingSerial(Aged(a), serial) && !(a[0].serial == serial && a[0].req.ttl > 1)
    ensures PendingSerial(Aged(a[1..]), serial)
  {
    var rest := Aged(a[1..]);
    var k :| 0 <= k < |Aged(a)| && Aged(a)[k].serial == serial;
    if a[0].req.ttl <= 1 {
      assert Aged(a) == rest;
    } else {
      assert rest[k - 1] == Aged(a)[k];
    }
  }

  lemma {:induction false} OthersStay(a: seq<Pending>, k: nat, p: Pending)
    requires k < |a| && p in a && p != a[k]
    ensures p in Without(a, k)
  {
    var i :| 0 <= i < |a| && a[i] == p;
    assert Without(a, k)[if i < k then i else i - 1] == p;
  }

  /** What one event does to a waiting request that is not answered by it. */
  lemma {:induction false} StepKeepsWaiting(s: State, at: nat, e: Event, p: Pending)
    requires DistinctSerials(s.active) && p in s.active && !e.Clear?
    requires !(Step(s, at, e).1.Reply? && Step(s, at, e).1.serial == p.serial)
    ensures var active := Step(s, at, e).0.active;
            if !e.Tick? then p in active
            else if p.req.ttl > 1 then p.(req := p.req.(ttl := p.req.ttl - 1)) in active
            else !PendingSerial(active, p.serial)
  {
    match e
    case Query(_, _, _, _, _, _, _) =>
    case Response(_, _, _, _, _) =>
      var active := Step(s, at, e).0.active;
      if active != s.active {
        OthersStay(s.active, FindTid(s.active, e.tid).value, p);
      }
    case Tick =>
      if p.req.ttl > 1 {
        AgedKeeps(s.active, p);
      } else {
        AgedDrops(s.active, p);
      }
    case Configure(_) =>
  }

  lemma {:induction false} NextTicks(run: seq<Event>, j: nat)
    requires j + 1 < |run|
    ensures TicksIn(run[j + 1..]) == TicksIn(run[..|run| - 1][j + 1..]) + if run[|run| - 1].Tick? then 1 else 0
  {
    var rest := run[j + 1..];
    assert rest[..|rest| - 1] == run[..|run| - 1][j + 1..] && rest[|rest| - 1] == run[|run| - 1];
  }

  lemma {:induction false} UnansweredBefore(s: State, run: seq<Event>, j: nat)
    requires j + 1 < |run| && Unanswered(s, run, j)
    ensures Unanswered(s, run[..|run| - 1], j)
    ensures OutputAt(s, run[..|run| - 1], j) == OutputAt(s, run, j)
  {
    var prior := run[..|run| - 1];
    assert prior[..j] == run[..j];
    forall i: nat | j < i < |prior| ensures !Settles(s, prior, i, j) {
      assert prior[i] == run[i] && prior[..i] == run[..i];
      assert !Settles(s, run, i, j);
    }
  }

  lemma {:induction false} QueryStartsWaiting(s: State, serial: nat, q: Event, server: Word32)
    requires q.Query? && Step(s, serial, q).1 == Forward(server, q.newTid)
    ensures Waiting(q, serial, server, 10) in Step(s, serial, q).0.active
  {
    assert Step(s, serial, q).0.active[0] == Waiting(q, serial, server, 10);
  }

  /** The query of event `j` waits with ten seconds less those gone by, or no longer. */
  ghost predicate WaitsIn(active: seq<Pending>, q: Event, j: nat, server: Word32, ticks: nat)
    requires q.Query?
  {
    if ticks < 10 then Waiting(q, j, server, 10 - ticks) in active else !PendingSerial(active, j)
  }

  lemma {:induction false} NextWaits(before: State, at: nat, e: Event, q: Event, j: nat, server: Word32, ticks: nat)
    requires q.Query? && j < at && DistinctSerials(before.active) && WaitsIn(before.active, q, j, server, ticks)
    requires !e.Clear? && !(Step(before, at, e).1.Reply? && Step(before, at, e).1.serial == j)
    ensures WaitsIn(Step(before, at, e).0.active, q, j, server, ticks + if e.Tick? then 1 else 0)
  {
    if ticks < 10 {
      StepKeepsWaiting(before, at, e, Waiting(q, j, server, 10 - ticks));
    } else {
      StepAddsNoOld(before, at, e, j);
    }
  }

  /** A forwarded query waits for ten seconds, and not longer. */
  lemma {:induction false} QueryWaits(s: State, run: seq<Event>, j: nat, q: Event, server: Word32)
    requires s.active == [] && FreshTids(s, run) && j < |run| && Unanswered(s, run, j)
    requires q == run[j] && q.Query? && OutputAt(s, run, j) == Forward(server, q.newTid)
    ensures WaitsIn(StateAfter(s, run).active, q, j, server, TicksIn(run[j + 1..]))
  {
    if |run| == j + 1 {
      JustForwarded(s, run, q, server);
    } else {
      var prior := run[..|run| - 1];
      PriorIsDistinct(s, run, prior);
      UnansweredBefore(s, run, j);
      QueryWaits(s, prior, j, q, server);
      LastKeepsWaiting(s, run, j, q, server, StateAfter(s, prior), TicksIn(prior[j + 1..]));
    }
  }

  lemma {:induction false} JustForwarded(s: State, run: seq<Event>, q: Event, server: Word32)
    requires run != [] && q == run[|run| - 1] && q.Query? && OutputAt(s, run, |run| - 1) == Forward(server, q.newTid)
    ensures WaitsIn(StateAfter(s, run).active, q, |run| - 1, server, TicksIn(run[|run|..]))
  {
    assert run[|run|..] == [];
    QueryStartsWaiting(StateAfter(s, run[..|run| - 1]), |run| - 1, q, server);
  }

  lemma {:induction false} PriorIsDistinct(s: State, run: seq<Event>, prior: seq<Event>)
    requires s.active == [] && FreshTids(s, run) && run != [] && prior == run[..|run| - 1]
    ensures FreshTids(s, prior) && DistinctSerials(StateAfter(s, prior).active)
  {
    PrefixFresh(s, run, |prior|);
    RunIsDistinct(s, prior);
  }

  lemma {:induction false} RunIsDistinct(s: State, run: seq<Event>)
    requires s.active == [] && FreshTids(s, run)
    ensures DistinctSerials(StateAfter(s, run).active) && DistinctTids(StateAfter(s, run).active)
  {
    RunTraced(s, run);
  }

  lemma {:induction false} LastKeepsWaiting(s: State, run: seq<Event>, j: nat, q: Event, server: Word32,
                                            before: State, ticks: nat)
    requires j + 1 < |run| && q.Query? && Unanswered(s, run, j) && before == StateAfter(s, run[..|run| - 1])
    requires ticks == TicksIn(run[..|run| - 1][j + 1..])
    requires DistinctSerials(before.active) && WaitsIn(before.active, q, j, server, ticks)
    ensures WaitsIn(StateAfter(s, run).active, q, j, server, TicksIn(run[j + 1..]))
  {
    NextTicks(run, j);
    LastIsStep(s, run, j, before);
    NextWaits(before, |run| - 1, run[|run| - 1], q, j, server, ticks);
  }

  lemma {:induction false} LastIsStep(s: State, run: seq<Event>, j: nat, before: State)
    requires j + 1 < |run| && Unanswered(s, run, j) && before == StateAfter(s, run[..|run| - 1])
    ensures var (after, out) := Step(before, |run| - 1, run[|run| - 1]);
            StateAfter(s, run) == after && !run[|run| - 1].Clear? && !(out.Reply? && out.serial == j)
  {
    assert !Settles(s, run, |run| - 1, j);
  }

  /** The response answers the query: same type, and the name as it is kept. */
  predicate Matches(e: Event, q: Event)
    requires e.Response? && q.Query?
  {
    e.queryType == q.queryType && e.name == if |q.name| > 63 then q.name[..63] else q.name
  }

  lemma {:induction false} WaitingIsFound(active: seq<Pending>, p: Pending)
    requires DistinctTids(active) && p in active
    ensures var r := FindTid(active, p.req.newTid); r.Some? && active[r.value] == p
  {
    var k :| 0 <= k < |active| && active[k] == p;
    assert InUse(active, active[k].req.newTid);
    assert FindTid(active, p.req.newTid) == Some(k);
  }

  /**
   The response to a forwarded query, from the server and under the id it was forwarded with, is
   passed on to the client, at the address and port of the query and under its original id, if and
   only if less than ten seconds have passed; meanwhile the queue was not cleared and no response
   to the query passed on, but anything else may have happened.
   */
  lemma {:induction false} ResponseIsPassedOn(s: State, run: seq<Event>, j: nat, e: Event)
    requires s.active == [] && FreshTids(s, run) && j < |run| && Unanswered(s, run, j)
    requires run[j].Query? && e.Response? && e.sent && Matches(e, run[j])
    requires OutputAt(s, run, j) == Forward(e.ip, e.tid)
    ensures var out, q := Step(StateAfter(s, run), |run|, e).1, run[j];
            if TicksIn(run[j + 1..]) < 10 then out == Reply(j, q.ip, q.port, q.tid)
            else !(out.Reply? && out.serial == j)
  {
    var active, q, ticks := StateAfter(s, run).active, run[j], TicksIn(run[j + 1..]);
    ForwardedAs(StateAfter(s, run[..j]), j, q);
    QueryWaits(s, run, j, q, e.ip);
    RunIsDistinct(s, run);
    if ticks < 10 {
      WaitingIsFound(active, Waiting(q, j, e.ip, 10 - ticks));
    }
  }

  lemma {:induction false} ForwardedAs(s: State, serial: nat, q: Event)
    requires q.Query? && Step(s, serial, q).1.Forward?
    ensures Step(s, serial, q).1.tid == q.newTid
  {
  }

  /**
   A query is answered from the cache if a server is configured and the cache has the answer. It is
   forwarded, under the id drawn and to a configured server, if and only if the cache does not have
   it, the counter of the second is within the limit if there is one, and fewer than 512 requests
   wait; then it waits for its response in front of the others.
   */
  lemma {:induction false} QueryIsForwardedIff(s: State, serial: nat, q: Event)
    requires q.Query? && (s.lastServer == 1 || s.lastServer == 2)
    ensures var (t, out) := Step(s, serial, q);
            var served := s.cfg.server1 != 0 || s.cfg.server2 != 0;
            && (out.FromCache? <==> served && q.cached)
            && (out.Forward? <==>
                  && served && !q.cached && |s.active| < 512
                  && (s.cfg.rateLimit == 0 || (s.rate + 1) % 65536 <= s.cfg.rateLimit))
            && (if out.Forward? then
                  && out.tid == q.newTid && out.serverIp != 0
                  && (out.serverIp == s.cfg.server1 || out.serverIp == s.cfg.server2)
                  && t.active == [Waiting(q, serial, out.serverIp, 10)] + s.active
                else t.active == s.active)
  {
    ServersTakeTurns(s.lastServer, s.cfg);
  }

  /** Once the queue was cleared no response to an earlier query is passed on. */
  lemma {:induction false} ClearedIsNotAnswered(s: State, run: seq<Event>, j: nat, c: nat, e: Event)
    requires j < c < |run| && run[c].Clear?
    ensures var out := Step(StateAfter(s, run), |run|, e).1; !(out.Reply? && out.serial == j)
  {
    assert run[..c + 1][..c] == run[..c];
    assert StateAfter(s, run[..c + 1]).active == [];
    GoneForGood(s, run, c + 1, j);
    AnswersPending(StateAfter(s, run), |run|, e);
  }

  lemma {:induction false} AnswersPending(s: State, serial: nat, e: Event)
    ensures var out := Step(s, serial, e).1; out.Reply? ==> PendingSerial(s.active, out.serial)
  {
    if e.Response? && Step(s, serial, e).1.Reply? {
      assert s.active[FindTid(s.active, e.tid).value].serial == Step(s, serial, e).1.serial;
    }
  }
}
