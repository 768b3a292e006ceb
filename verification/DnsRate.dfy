/** What the query rate limit of the DNS proxy, counted in 16 bits, lets through in a second. */
module DnsRate {
  import opened Common
  import opened DnsModel
  import opened DnsRun

  /** A stretch of a run within one second and one configuration. */
  ghost predicate WithinASecond(run: seq<Event>) {
    forall i :: 0 <= i < |run| ==> !run[i].Tick? && !run[i].Configure?
  }

  /** The query gets as far as the limit: a server is configured and the cache does not answer. */
  function CountsAsAsked(cfg: Config, e: Event): nat {
    if e.Query? && !e.cached && (cfg.server1 != 0 || cfg.server2 != 0) then 1 else 0
  }

  function Asked(cfg: Config, run: seq<Event>): nat {
    if run == [] then 0
    else Asked(cfg, run[..|run| - 1]) + CountsAsAsked(cfg, run[|run| - 1])
  }

  ghost function Forwarded(s: State, run: seq<Event>): nat {
    if run == [] then 0
    else Forwarded(s, run[..|run| - 1]) + if OutputAt(s, run, |run| - 1).Forward? then 1 else 0
  }

  /** Every event of the run finds a free record in the queue. */
  ghost predicate HasRoom(s: State, run: seq<Event>) {
    forall i {:trigger run[..i]} :: 0 <= i < |run| ==> |StateAfter(s, run[..i]).active| < MAX_REQ
  }

  /** How many of `asked` queries find the counter within the limit: it starts over every 2^16 queries. */
  function LetThrough(limit: Word16, asked: nat): nat {
    var r := asked % 0x1_0000;
    asked / 0x1_0000 * (limit + 1) + if r < limit then r else limit
  }

  lemma {:induction false} LetThroughNext(limit: Word16, asked: nat)
    requires limit != 0
    ensures LetThrough(limit, asked + 1) == LetThrough(limit, asked) + if (asked + 1) % 0x1_0000 <= limit then 1 else 0
  {
    var q, r := asked / 0x1_0000, asked % 0x1_0000;
    if r == 0xffff {
      DivModUnique(asked + 1, 0x1_0000, q + 1, 0);
      assert (q + 1) * (limit + 1) == q * (limit + 1) + (limit + 1);
    } else {
      DivModUnique(asked + 1, 0x1_0000, q, r + 1);
    }
  }

  lemma {:induction false} LetThroughWithin(limit: Word16, asked: nat)
    ensures LetThrough(limit, asked) <= limit <==> asked < 0x1_0000
  {
    var q := asked / 0x1_0000;
    if q >= 1 {
      assert q * (limit + 1) >= limit + 1;
    }
  }

  /** A query past the cache is forwarded exactly when the counter is within the limit and the queue has room. */
  lemma {:induction false} StepIsLimited(s: State, serial: nat, e: Event)
    requires s.cfg.rateLimit != 0 && (s.lastServer == 1 || s.lastServer == 2) && !e.Tick? && !e.Configure?
    ensures var (t, out) := Step(s, serial, e);
            && t.cfg == s.cfg && (t.lastServer == 1 || t.lastServer == 2)
            && t.rate == (s.rate + CountsAsAsked(s.cfg, e)) % 0x1_0000
            && (out.Forward? <==> CountsAsAsked(s.cfg, e) == 1 && t.rate <= s.cfg.rateLimit && |s.active| < MAX_REQ)
  {
    ServersTakeTurns(s.lastServer, s.cfg);
  }

  /** How the limiter stands: its counter, and what it let through as long as there was `room`. */
  ghost predicate Limited(cfg: Config, t: State, asked: nat, forwarded: nat, room: bool) {
    && t.cfg == cfg && (t.lastServer == 1 || t.lastServer == 2) && t.rate == asked % 0x1_0000
    && forwarded <= LetThrough(cfg.rateLimit, asked)
    && (room ==> forwarded == LetThrough(cfg.rateLimit, asked))
  }

  lemma {:induction false} CounterNext(asked: nat, c: nat)
    requires c <= 1
    ensures (asked % 0x1_0000 + c) % 0x1_0000 == (asked + c) % 0x1_0000
  {
  }

  lemma {:induction false} StepKeepsLimited(t: State, asked: nat, forwarded: nat, room: bool, serial: nat, e: Event)
    requires t.cfg.rateLimit != 0 && Limited(t.cfg, t, asked, forwarded, room) && !e.Tick? && !e.Configure?
    ensures var (u, out) := Step(t, serial, e);
            Limited(t.cfg, u, asked + CountsAsAsked(t.cfg, e), forwarded + if out.Forward? then 1 else 0,
                    room && |t.active| < MAX_REQ)
  {
    StepIsLimited(t, serial, e);
    LetThroughNext(t.cfg.rateLimit, asked);
    CounterNext(asked, CountsAsAsked(t.cfg, e));
  }

  /** The state, the number of queries and the number forwarded move together. */
  lemma {:induction false} RunIsLimited(s: State, run: seq<Event>)
    requires s.rate == 0 && s.cfg.rateLimit != 0 && (s.lastServer == 1 || s.lastServer == 2) && WithinASecond(run)
    ensures Limited(s.cfg, StateAfter(s, run), Asked(s.cfg, run), Forwarded(s, run), HasRoom(s, run))
  {
    if run != [] {
      var prior := run[..|run| - 1];
      RunIsLimited(s, prior);
      NextIsLimited(s, run, StateAfter(s, prior), Asked(s.cfg, prior), Forwarded(s, prior), HasRoom(s, prior));
    }
  }

  lemma {:induction false} NextIsLimited(s: State, run: seq<Event>, t: State, asked: nat, forwarded: nat, room: bool)
    requires s.cfg.rateLimit != 0 && run != [] && !run[|run| - 1].Tick? && !run[|run| - 1].Configure?
    requires var prior := run[..|run| - 1];
             && t == StateAfter(s, prior) && asked == Asked(s.cfg, prior)
             && forwarded == Forwarded(s, prior) && room == HasRoom(s, prior)
    requires Limited(s.cfg, t, asked, forwarded, room)
    ensures Limited(s.cfg, StateAfter(s, run), Asked(s.cfg, run), Forwarded(s, run), HasRoom(s, run))
  {
    var e := run[|run| - 1];
    CountsNext(s, run, t);
    RoomBefore(s, run);
    StepKeepsLimited(t, asked, forwarded, room, |run| - 1, e);
  }

  lemma {:induction false} CountsNext(s: State, run: seq<Event>, before: State)
    requires run != [] && before == StateAfter(s, run[..|run| - 1])
    ensures var prior, e := run[..|run| - 1], run[|run| - 1];
            var (t, out) := Step(before, |prior|, e);
            && StateAfter(s, run) == t && Asked(s.cfg, run) == Asked(s.cfg, prior) + CountsAsAsked(s.cfg, e)
            && Forwarded(s, run) == Forwarded(s, prior) + if out.Forward? then 1 else 0
  {
  }

  lemma {:induction false} RoomBefore(s: State, run: seq<Event>)
    requires run != []
    ensures var prior := run[..|run| - 1];
            HasRoom(s, run) <==> HasRoom(s, prior) && |StateAfter(s, prior).active| < MAX_REQ
  {
    var prior := run[..|run| - 1];
    assert forall i :: 0 <= i < |prior| ==> prior[..i] == run[..i];
  }

  /**
   Within a second at most the limit is forwarded of fewer than 2^16 queries. The number
   forwarded is exact when the queue has room, and then it is within the limit if and only if
   there are fewer than 2^16 queries.
   */
  lemma {:induction false} RateIsLimited(s: State, run: seq<Event>)
    requires s.rate == 0 && s.cfg.rateLimit != 0 && (s.lastServer == 1 || s.lastServer == 2) && WithinASecond(run)
    ensures Asked(s.cfg, run) < 0x1_0000 ==> Forwarded(s, run) <= s.cfg.rateLimit
    ensures Forwarded(s, run) <= LetThrough(s.cfg.rateLimit, Asked(s.cfg, run))
    ensures HasRoom(s, run) ==>
              && Forwarded(s, run) == LetThrough(s.cfg.rateLimit, Asked(s.cfg, run))
              && (Forwarded(s, run) <= s.cfg.rateLimit <==> Asked(s.cfg, run) < 0x1_0000)
  {
    RunIsLimited(s, run);
    LetThroughWithin(s.cfg.rateLimit, Asked(s.cfg, run));
  }

  /** The same holds of every second, from the tick that starts it, whatever came before. */
  lemma {:induction false} EverySecondIsLimited(s: State, serial: nat, run: seq<Event>, t: State)
    requires s.cfg.rateLimit != 0 && (s.lastServer == 1 || s.lastServer == 2) && WithinASecond(run)
    requires t == Step(s, serial, Tick).0
    ensures Asked(s.cfg, run) < 0x1_0000 ==> Forwarded(t, run) <= s.cfg.rateLimit
    ensures HasRoom(t, run) ==> Forwarded(t, run) == LetThrough(s.cfg.rateLimit, Asked(s.cfg, run))
  {
    RateIsLimited(t, run);
  }

  // A run that exceeds the limit.

  /** A client asks `n` questions, each forwarded under its own id. */
  function Burst(n: nat): (r: seq<Event>)
    requires n <= 0x1_0000
    ensures |r| == n
  {
    seq(n, i requires 0 <= i < n => Query(1, 1, i, 1, [97], false, i))
  }

  const ONE_A_SECOND: State := State([], 1, 0, Config(1, 0, 1))

  lemma {:induction false} BurstPrefix(n: nat, i: nat)
    requires i <= n <= 0x1_0000
    ensures Burst(n)[..i] == Burst(i)
  {
  }

  lemma {:induction false} BurstAsks(n: nat, s: State)
    requires n <= 0x1_0000 && s == ONE_A_SECOND
    ensures WithinASecond(Burst(n)) && Asked(s.cfg, Burst(n)) == n
    ensures |StateAfter(s, Burst(n)).active| <= Forwarded(s, Burst(n))
    ensures forall k :: 0 <= k < |StateAfter(s, Burst(n)).active| ==> StateAfter(s, Burst(n)).active[k].req.newTid < n
  {
    if n > 0 {
      BurstPrefix(n, n - 1);
      BurstAsks(n - 1, s);
    }
  }

  /**
   With a limit of one query a second, the 65536th query within a second is the second one
   forwarded. The run is one the proxy can see: every id is unused when it is drawn.
   */
  lemma {:induction false} LimitIsExceeded(s: State)
    requires s == ONE_A_SECOND
    ensures var run := Burst(0x1_0000);
            WithinASecond(run) && FreshTids(s, run) && Forwarded(s, run) == 2 > s.cfg.rateLimit
  {
    var run := Burst(0x1_0000);
    forall i | 0 <= i < |run|
      ensures |StateAfter(s, run[..i]).active| < MAX_REQ && !InUse(StateAfter(s, run[..i]).active, run[i].newTid)
    {
      BurstPrefix(0x1_0000, i);
      BurstAsks(i, s);
      RateIsLimited(s, Burst(i));
    }
    BurstAsks(0x1_0000, s);
    RateIsLimited(s, run);
  }
}
