/** What the DNS proxy as a whole keeps over runs. */
module DnsProxyRun {
  import opened DnsCacheModel
  import opened DnsProxyModel
  import Queue = DnsModel
  import QueueRun = DnsRun
  import CacheRun = DnsCacheRun

  ghost function ProxyAfter(s: Proxy, run: seq<Event>): Proxy {
    if run == [] then s
    else Step(ProxyAfter(s, run[..|run| - 1]), |run| - 1, run[|run| - 1]).0
  }

  ghost function OutputAt(s: Proxy, run: seq<Event>, i: nat): Queue.Output
    requires i < |run|
  {
    Step(ProxyAfter(s, run[..i]), i, run[i]).1
  }

  ghost predicate FreshTids(s: Proxy, run: seq<Event>) {
    forall i :: 0 <= i < |run| && run[i].Query? ==>
      !Queue.InUse(ProxyAfter(s, run[..i]).queue.active, run[i].newTid)
  }

  /** The run as the request queue sees it. */
  ghost function QueueRunOf(s: Proxy, run: seq<Event>): (r: seq<Queue.Event>)
    ensures |r| == |run|
  {
    if run == [] then []
    else
      var prior := run[..|run| - 1];
      QueueRunOf(s, prior) + [QueueEvent(ProxyAfter(s, prior), run[|run| - 1])]
  }

  lemma {:induction false} QueueRunPrefix(s: Proxy, run: seq<Event>, i: nat)
    requires i <= |run|
    ensures QueueRunOf(s, run)[..i] == QueueRunOf(s, run[..i])
  {
    if i < |run| {
      var prior := run[..|run| - 1];
      QueueRunPrefix(s, prior, i);
      assert prior[..i] == run[..i];
    } else {
      assert run[..i] == run;
    }
  }

  /** The queue of the proxy goes through the same run as a queue on its own, with the same outputs. */
  lemma {:induction false} QueueFollows(s: Proxy, run: seq<Event>)
    ensures QueueRun.StateAfter(s.queue, QueueRunOf(s, run)) == ProxyAfter(s, run).queue
  {
    if run != [] {
      var prior := run[..|run| - 1];
      QueueFollows(s, prior);
      assert QueueRunOf(s, run)[..|run| - 1] == QueueRunOf(s, prior);
    }
  }

  lemma {:induction false} QueueFollowsAt(s: Proxy, run: seq<Event>, r: seq<Queue.Event>, i: nat)
    requires i < |run| && r == QueueRunOf(s, run)
    ensures r[i] == QueueEvent(ProxyAfter(s, run[..i]), run[i])
    ensures QueueRun.StateAfter(s.queue, r[..i]) == ProxyAfter(s, run[..i]).queue
    ensures QueueRun.OutputAt(s.queue, r, i) == OutputAt(s, run, i)
  {
    QueueRunPrefix(s, run, i);
    QueueRunPrefix(s, run, i + 1);
    QueueFollows(s, run[..i]);
    assert run[..i + 1][..i] == run[..i];
    assert r[i] == r[..i + 1][i];
  }

  lemma {:induction false} QueueRunFresh(s: Proxy, run: seq<Event>, r: seq<Queue.Event>)
    requires FreshTids(s, run) && r == QueueRunOf(s, run)
    ensures QueueRun.FreshTids(s.queue, r)
  {
    forall i | 0 <= i < |r| && r[i].Query?
      ensures !Queue.InUse(QueueRun.StateAfter(s.queue, r[..i]).active, r[i].newTid)
    {
      QueueFollowsAt(s, run, r, i);
    }
  }

  // Where cached answers come from.

  function Seconds(run: seq<Event>): nat {
    if run == [] then 0
    else Seconds(run[..|run| - 1]) + (if run[|run| - 1].Second? then 1 else 0)
  }

  /** The entry was learned from event `i` of the run and has aged with every second since. */
  ghost predicate LearnedAt(s: Proxy, run: seq<Event>, k: Key, e: Entry, i: nat) {
    && i < |run| && run[i].Response? && OutputAt(s, run, i).Reply?
    && k == Key(run[i].labels, run[i].queryType) && Cacheable(run[i].answer)
    && e == EntryFor(run[i].answer).(ttl := e.ttl)
    && e.ttl + Seconds(run[i + 1..]) == Capped(run[i].answer.ttl)
  }

  ghost predicate Backed(s: Proxy, run: seq<Event>, cache: Cache) {
    && CacheRun.Inv(cache)
    && forall k {:trigger cache[k].isStatic} ::
         k in cache && !cache[k].isStatic ==> exists i :: LearnedAt(s, run, k, cache[k], i)
  }

  lemma {:induction false} LearnedLonger(s: Proxy, run: seq<Event>, e: Event, k: Key, entry: Entry, i: nat)
    requires LearnedAt(s, run, k, entry, i)
    requires e.Second? ==> entry.ttl > 1
    ensures LearnedAt(s, run + [e], k, if e.Second? then entry.(ttl := entry.ttl - 1) else entry, i)
  {
    var r := run + [e];
    assert r[..i] == run[..i];
    assert r[i + 1..] == run[i + 1..] + [e];
    assert (run[i + 1..] + [e])[..|run| - i - 1] == run[i + 1..];
  }

  /** How an entry that was learned changes in one event. */
  lemma {:induction false} EntrySurvives(s: Proxy, e: Event, out: Queue.Output, k: Key)
    requires CacheRun.Inv(s.cache) && k in NextCache(s, e, out) && !NextCache(s, e, out)[k].isStatic
    requires k in s.cache || !e.Response?
    ensures k in s.cache && !s.cache[k].isStatic
    ensures e.Second? ==> s.cache[k].ttl > 1
    ensures NextCache(s, e, out)[k] == if e.Second? then s.cache[k].(ttl := s.cache[k].ttl - 1) else s.cache[k]
  {
    assert k in s.cache ==> CacheRun.EntryOk(k, s.cache[k]);
    match e
    case Hosts(hosts) => ConfiguredSurvives(s.cache, hosts, k);
    case ClearHosts(hosts) => ConfiguredSurvives(map[], hosts, k);
    case Second =>
    case _ =>
  }

  lemma {:induction false} HostedIsStatic(c: Cache, hosts: seq<Host>, k: Key)
    requires CacheRun.Hosted(hosts, k)
    ensures k in UpdateStatic(c, hosts) && UpdateStatic(c, hosts)[k].isStatic
  {
    CacheRun.AddedStatics(Unmarked(c), hosts);
    var i := CacheRun.LastExists(hosts, k);
    assert CacheRun.LastFor(hosts, k, i);
  }

  lemma {:induction false} ConfiguredSurvives(c: Cache, hosts: seq<Host>, k: Key)
    requires CacheRun.Inv(c) && k in UpdateStatic(c, hosts) && !UpdateStatic(c, hosts)[k].isStatic
    ensures k in c && UpdateStatic(c, hosts)[k] == c[k]
  {
    CacheRun.AddedStatics(Unmarked(c), hosts);
    if CacheRun.Hosted(hosts, k) {
      HostedIsStatic(c, hosts, k);
    }
    assert k in c ==> CacheRun.EntryOk(k, c[k]);
  }

  lemma {:induction false} NextCacheInv(s: Proxy, e: Event, out: Queue.Output)
    requires CacheRun.Inv(s.cache)
    ensures CacheRun.Inv(NextCache(s, e, out))
  {
    match e
    case Response(_, _, kind, labels, _, _, answer) =>
      CacheRun.StepKeepsInv(s.cache, CacheRun.Answered(Key(labels, kind), answer));
    case Second => CacheRun.StepKeepsInv(s.cache, CacheRun.Ticked);
    case Hosts(hosts) => CacheRun.StepKeepsInv(s.cache, CacheRun.Configured(hosts));
    case ClearHosts(hosts) => CacheRun.StepKeepsInv(map[], CacheRun.Configured(hosts));
    case _ =>
  }

  lemma {:induction false} LearnedNow(s: Proxy, run: seq<Event>, e: Event, k: Key)
    requires e.Response? && k !in ProxyAfter(s, run).cache
    requires var (p, out) := Step(ProxyAfter(s, run), |run|, e); k in p.cache
    ensures var (p, out) := Step(ProxyAfter(s, run), |run|, e); LearnedAt(s, run + [e], k, p.cache[k], |run|)
  {
    var r := run + [e];
    assert r[..|run|] == run && r[|run| + 1..] == [];
  }

  lemma {:induction false} EntryBacked(s: Proxy, run: seq<Event>, e: Event, k: Key) returns (i: nat)
    requires Backed(s, run, ProxyAfter(s, run).cache)
    requires var (p, out) := Step(ProxyAfter(s, run), |run|, e); k in p.cache && !p.cache[k].isStatic
    ensures var (p, out) := Step(ProxyAfter(s, run), |run|, e); LearnedAt(s, run + [e], k, p.cache[k], i)
  {
    var before := ProxyAfter(s, run);
    if e.Response? && k !in before.cache {
      LearnedNow(s, run, e, k);
      i := |run|;
    } else {
      EntrySurvives(before, e, Step(before, |run|, e).1, k);
      i :| LearnedAt(s, run, k, before.cache[k], i);
      LearnedLonger(s, run, e, k, before.cache[k], i);
    }
  }

  lemma {:induction false} StepBacked(s: Proxy, run: seq<Event>, e: Event)
    requires Backed(s, run, ProxyAfter(s, run).cache)
    ensures Backed(s, run + [e], Step(ProxyAfter(s, run), |run|, e).0.cache)
  {
    var before := ProxyAfter(s, run);
    var after := Step(before, |run|, e).0.cache;
    NextCacheInv(before, e, Step(before, |run|, e).1);
    forall k | k in after && !after[k].isStatic ensures exists i :: LearnedAt(s, run + [e], k, after[k], i) {
      var i := EntryBacked(s, run, e, k);
    }
  }

  lemma {:induction false} RunBacked(s: Proxy, run: seq<Event>, p: Proxy)
    requires s.cache == map[] && p == ProxyAfter(s, run)
    ensures Backed(s, run, p.cache)
  {
    if run != [] {
      var prior, e := run[..|run| - 1], run[|run| - 1];
      var before := ProxyAfter(s, prior);
      RunBacked(s, prior, before);
      StepBacked(s, prior, e);
      assert prior + [e] == run && p == Step(before, |prior|, e).0;
    }
  }

  /** Event `i` passes on the response to the query of event `j`. */
  ghost predicate AnswersQuery(s: Proxy, run: seq<Event>, i: nat, j: nat) {
    && j < i < |run| && run[j].Query? && run[i].Response?
    && OutputAt(s, run, j) == Queue.Forward(run[i].ip, run[i].tid)
    && OutputAt(s, run, i) == Queue.Reply(j, run[j].ip, run[j].port, run[j].tid)
    && run[j].queryType == run[i].queryType && Queue.Stored(run[j].name) == run[i].name
  }

  /** Every response passed to a client answers an earlier query of that client. */
  lemma {:induction false} RepliesMatchQueries(s: Proxy, run: seq<Event>, i: nat) returns (j: nat)
    requires s.queue.active == [] && FreshTids(s, run) && i < |run| && OutputAt(s, run, i).Reply?
    ensures AnswersQuery(s, run, i, j)
  {
    QueueRunFresh(s, run, QueueRunOf(s, run));
    j := RepliesMatchIn(s, run, QueueRunOf(s, run), i);
  }

  /** What event `i` looks like to the queue. */
  ghost predicate SeenAs(e: Event, q: Queue.Event) {
    && (q.Query? ==>
          && e.Query? && q.ip == e.ip && q.port == e.port && q.tid == e.tid
          && q.queryType == e.queryType && q.name == e.name)
    && (q.Response? ==>
          && e.Response? && q.ip == e.ip && q.tid == e.tid
          && q.queryType == e.queryType && q.name == e.name)
  }

  lemma {:induction false} SeenAt(s: Proxy, run: seq<Event>, r: seq<Queue.Event>, i: nat)
    requires i < |run| && r == QueueRunOf(s, run)
    ensures SeenAs(run[i], r[i]) && QueueRun.OutputAt(s.queue, r, i) == OutputAt(s, run, i)
  {
    QueueFollowsAt(s, run, r, i);
  }

  lemma {:induction false} RepliesMatchIn(s: Proxy, run: seq<Event>, r: seq<Queue.Event>, i: nat) returns (j: nat)
    requires s.queue.active == [] && r == QueueRunOf(s, run) && QueueRun.FreshTids(s.queue, r)
    requires i < |run| && OutputAt(s, run, i).Reply?
    ensures AnswersQuery(s, run, i, j)
  {
    j := OutputAt(s, run, i).serial;
    SeenAt(s, run, r, i);
    QueueRun.RepliesMatchQueries(s.queue, r, i);
    SeenAt(s, run, r, j);
  }

  /** Event `i` is a response less than its time to live, so less than 900 seconds, ago. */
  ghost predicate Recent(run: seq<Event>, i: nat) {
    && i < |run| && run[i].Response? && Cacheable(run[i].answer)
    && Seconds(run[i + 1..]) < Capped(run[i].answer.ttl) <= MAX_TTL
  }

  lemma {:induction false} FromCacheMeansCached(s: Proxy, serial: nat, e: Event)
    requires e.Query? && Step(s, serial, e).1 == Queue.FromCache
    ensures Cached(s, e)
  {
  }

  /**
   Every learned entry a query is answered from was a response, less than its time to live
   and less than 900 seconds ago, to an earlier query of the same type and name, which had
   been passed on to the server the response came from.
   */
  lemma {:induction false} CachedAnswersAreBacked(s: Proxy, run: seq<Event>, e: Event, before: Proxy, k: Key)
    returns (i: nat, j: nat)
    requires s.queue.active == [] && s.cache == map[] && FreshTids(s, run) && before == ProxyAfter(s, run)
    requires e.Query? && Step(before, |run|, e).1 == Queue.FromCache
    requires k == LookupKey(before, e)
    ensures k in before.cache
    ensures var entry := before.cache[k];
            !entry.isStatic ==> AnswersQuery(s, run, i, j) && LearnedAt(s, run, k, entry, i) && Recent(run, i)
  {
    i, j := 0, 0;
    FromCacheMeansCached(before, |run|, e);
    RunBacked(s, run, before);
    if !before.cache[k].isStatic {
      i := SourceOf(s, run, before.cache, k);
      j := RepliesMatchQueries(s, run, i);
    }
  }

  lemma {:induction false} SourceOf(s: Proxy, run: seq<Event>, cache: Cache, k: Key) returns (i: nat)
    requires Backed(s, run, cache) && k in cache && !cache[k].isStatic
    ensures LearnedAt(s, run, k, cache[k], i) && Recent(run, i)
  {
    assert CacheRun.EntryOk(k, cache[k]);
    i :| LearnedAt(s, run, k, cache[k], i);
  }
}
