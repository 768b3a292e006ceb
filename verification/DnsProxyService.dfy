/** What the whole proxy does for its clients, stated over the events it sees. */
module DnsProxyService {
  import opened Common
  import opened DnsNames
  import opened DnsCacheModel
  import opened DnsProxyModel
  import opened DnsProxyRun
  import Queue = DnsModel
  import QueueRun = DnsRun
  import QueueService = DnsService
  import CacheRun = DnsCacheRun

  // Responses are passed on in time.

  /** Event `i` gives up all requests or passes on a response to the query of event `j`. */
  ghost predicate Settles(s: Proxy, run: seq<Event>, i: nat, j: nat)
    requires i < |run|
  {
    run[i].DropRequests? || (OutputAt(s, run, i).Reply? && OutputAt(s, run, i).serial == j)
  }

  ghost predicate Unanswered(s: Proxy, run: seq<Event>, j: nat) {
    forall i: nat {:trigger Settles(s, run, i, j)} :: j < i < |run| ==> !Settles(s, run, i, j)
  }

  lemma {:induction false} QueueUnanswered(s: Proxy, run: seq<Event>, r: seq<Queue.Event>, j: nat)
    requires r == QueueRunOf(s, run) && Unanswered(s, run, j)
    ensures QueueService.Unanswered(s.queue, r, j)
  {
    forall i: nat | j < i < |r| ensures !QueueService.Settles(s.queue, r, i, j) {
      QueueFollowsAt(s, run, r, i);
      assert !Settles(s, run, i, j);
    }
  }

  lemma {:induction false} SameSeconds(s: Proxy, run: seq<Event>, r: seq<Queue.Event>, j: nat)
    requires j <= |run| && r == QueueRunOf(s, run)
    ensures QueueService.TicksIn(r[j..]) == Seconds(run[j..])
    decreases |run|
  {
    if j < |run| {
      var prior, e := run[..|run| - 1], run[|run| - 1];
      var rp, q := QueueRunOf(s, prior), QueueEvent(ProxyAfter(s, prior), e);
      SameSeconds(s, prior, rp, j);
      assert run == prior + [e];
      OneMoreSecond(prior, e, j);
      OneMoreTick(rp, q, j);
    }
  }

  lemma {:induction false} OneMoreSecond(prior: seq<Event>, e: Event, j: nat)
    requires j <= |prior|
    ensures Seconds((prior + [e])[j..]) == Seconds(prior[j..]) + if e.Second? then 1 else 0
  {
    var rest := (prior + [e])[j..];
    assert rest[..|rest| - 1] == prior[j..];
  }

  lemma {:induction false} OneMoreTick(prior: seq<Queue.Event>, e: Queue.Event, j: nat)
    requires j <= |prior|
    ensures QueueService.TicksIn((prior + [e])[j..]) == QueueService.TicksIn(prior[j..]) + if e.Tick? then 1 else 0
  {
    var rest := (prior + [e])[j..];
    assert rest[..|rest| - 1] == prior[j..];
  }

  /**
   The response to a query that was passed on, from that server and under that id, about the same
   type and name, goes to the client if and only if less than ten seconds have passed, whatever else
   the proxy did, unless all requests were given up or the query was answered.
   */
  lemma {:induction false} ResponseIsPassedOn(s: Proxy, run: seq<Event>, j: nat, e: Event)
    requires s.queue.active == [] && FreshTids(s, run) && j < |run| && Unanswered(s, run, j)
    requires run[j].Query? && e.Response? && e.sent && e.queryType == run[j].queryType
    requires e.name == if |run[j].name| > 63 then run[j].name[..63] else run[j].name
    requires OutputAt(s, run, j) == Queue.Forward(e.ip, e.tid)
    ensures var out, q := Step(ProxyAfter(s, run), |run|, e).1, run[j];
            if Seconds(run[j + 1..]) < 10 then out == Queue.Reply(j, q.ip, q.port, q.tid)
            else !(out.Reply? && out.serial == j)
  {
    var r := QueueRunOf(s, run);
    QueueRunFresh(s, run, r);
    QueueUnanswered(s, run, r, j);
    SameSeconds(s, run, r, j + 1);
    QueueFollowsAt(s, run, r, j);
    QueueFollows(s, run);
    QueueService.ResponseIsPassedOn(s.queue, r, j, QueueEvent(ProxyAfter(s, run), e));
  }

  // Answers are told again.

  /** The entry an answer leaves behind: address or alias as its type says, at most 900 seconds to live. */
  function Remembered(a: Answer): Entry
    requires a.ttl >= 0
  {
    Entry(if a.ttl > 900 then 900 else a.ttl, if a.kind == 1 then a.ip else 0, a.flags, false, false,
          if a.kind == 28 then a.ipv6 else NO_IP6, if a.kind == 5 then Some(a.packet) else None)
  }

  /** What is learned: good answers of the three types that live ten seconds or more, unless there is an entry. */
  lemma {:induction false} LearnedIff(c: Cache, k: Key, a: Answer)
    ensures var learned := a.errorCode == 0 && a.ttl >= 10 && (a.kind == 1 || a.kind == 5 || a.kind == 28) && k !in c;
            Learn(c, k, a) == if learned then c[k := Remembered(a)] else c
  {
  }

  /** The event leaves the entry alone but for its age: it clears nothing and configures no host for it. */
  ghost predicate Keeps(e: Event, k: Key) {
    !e.ClearHosts? && (e.Hosts? ==> forall i :: 0 <= i < |e.hosts| ==> StaticKey(e.hosts[i].name) != k)
  }

  /** A learned entry of the contents `e0`, with `left` seconds to live. */
  predicate Has(c: Cache, k: Key, e0: Entry, left: nat) {
    k in c && left < 0x1_0000_0000 && c[k] == e0.(ttl := left) && !e0.isStatic && !e0.marker
  }

  lemma {:induction false} StepKeepsEntry(s: Proxy, serial: nat, e: Event, k: Key, e0: Entry, left: nat)
    requires Has(s.cache, k, e0, left) && Keeps(e, k) && left > if e.Second? then 1 else 0
    ensures Has(Step(s, serial, e).0.cache, k, e0, left - if e.Second? then 1 else 0)
  {
    match e
    case Hosts(hosts) =>
      CacheRun.AddedStatics(Unmarked(s.cache), hosts);
      assert !CacheRun.Hosted(hosts, k);
      assert Unmarked(s.cache)[k] == s.cache[k].(marker := false);
    case _ =>
  }

  ghost predicate AllKeep(run: seq<Event>, from: nat, k: Key) {
    forall i {:trigger run[i]} :: from <= i < |run| ==> Keeps(run[i], k)
  }

  /** An entry that is there after `n` events is there later, older by the seconds since. */
  lemma {:induction false} EntryStays(s: Proxy, run: seq<Event>, n: nat, k: Key, e0: Entry, left: nat)
    requires n <= |run| && Has(ProxyAfter(s, run[..n]).cache, k, e0, left) && AllKeep(run, n, k)
    requires Seconds(run[n..]) < left
    ensures Has(ProxyAfter(s, run).cache, k, e0, left - Seconds(run[n..]))
    decreases |run|
  {
    if n == |run| {
      assert run[..n] == run;
    } else {
      var prior, e := run[..|run| - 1], run[|run| - 1];
      assert run == prior + [e] && prior[..n] == run[..n] && Keeps(e, k);
      OneMoreSecond(prior, e, n);
      assert AllKeep(prior, n, k) by {
        forall i | n <= i < |prior| ensures Keeps(prior[i], k) {
          assert prior[i] == run[i];
        }
      }
      EntryStays(s, prior, n, k, e0, left);
      StepKeepsEntry(ProxyAfter(s, prior), |prior|, e, k, e0, left - Seconds(prior[n..]));
    }
  }

  /** A query that names its domain is answered from the cache exactly when its packet name and type are cached. */
  lemma {:induction false} QualifiedIsFoundIff(s: Proxy, serial: nat, q: Event)
    requires q.Query? && DOT in q.name && (q.queryType == 1 || q.queryType == 5 || q.queryType == 28)
    requires (s.queue.lastServer == 1 || s.queue.lastServer == 2)
    requires s.queue.cfg.server1 != 0 || s.queue.cfg.server2 != 0
    ensures Step(s, serial, q).1 == Queue.FromCache <==> Key(q.labels, q.queryType) in s.cache
    ensures LookupKey(s, q) == Key(q.labels, q.queryType)
  {
    Queue.ServersTakeTurns(s.queue.lastServer, s.queue.cfg);
  }

  lemma {:induction false} ResponseIsLearned(s: Proxy, serial: nat, e: Event, k: Key, a: Answer)
    requires e.Response? && k == Key(e.labels, e.queryType) && a == e.answer && k !in s.cache
    requires Step(s, serial, e).1.Reply?
    requires a.errorCode == 0 && a.ttl >= 10 && (a.kind == 1 || a.kind == 5 || a.kind == 28)
    ensures Has(Step(s, serial, e).0.cache, k, Remembered(a), Remembered(a).ttl)
  {
    LearnedIff(s.cache, k, a);
  }

  /** One of the two servers was asked last, over every run. */
  lemma {:induction false} LastServerStays(s: Proxy, run: seq<Event>)
    requires s.queue.lastServer == 1 || s.queue.lastServer == 2
    ensures var last := ProxyAfter(s, run).queue.lastServer; last == 1 || last == 2
  {
    if run != [] {
      LastServerStays(s, run[..|run| - 1]);
      var before := ProxyAfter(s, run[..|run| - 1]).queue;
      Queue.ServersTakeTurns(before.lastServer, before.cfg);
    }
  }

  lemma {:induction false} AnswerStays(s: Proxy, run: seq<Event>, i: nat, k: Key, a: Answer, gone: nat)
    requires i < |run| && run[i].Response? && OutputAt(s, run, i).Reply? && gone == Seconds(run[i + 1..])
    requires a == run[i].answer && k == Key(run[i].labels, run[i].queryType)
    requires a.errorCode == 0 && a.ttl >= 10 && (a.kind == 1 || a.kind == 5 || a.kind == 28)
    requires gone < Remembered(a).ttl && k !in ProxyAfter(s, run[..i]).cache && AllKeep(run, i + 1, k)
    ensures Has(ProxyAfter(s, run).cache, k, Remembered(a), Remembered(a).ttl - gone)
  {
    var before := ProxyAfter(s, run[..i]);
    assert run[..i + 1][..i] == run[..i] && run[..i + 1][i] == run[i];
    ResponseIsLearned(before, i, run[i], k, a);
    assert ProxyAfter(s, run[..i + 1]) == Step(before, i, run[i]).0;
    EntryStays(s, run, i + 1, k, Remembered(a), Remembered(a).ttl);
  }

  /**
   A response that was passed on, with a good answer nothing was cached for, answers the same
   question of every client for its time to live, 900 seconds at most, unless the cache is cleared
   or a host is configured for the name; the entry told has the time that is left.
   */
  lemma {:induction false} AnswerIsToldAgain(s: Proxy, run: seq<Event>, i: nat, q: Event, now: Proxy, k: Key,
                                             a: Answer, gone: nat)
    requires s.queue.lastServer == 1 || s.queue.lastServer == 2
    requires i < |run| && run[i].Response? && OutputAt(s, run, i).Reply? && gone == Seconds(run[i + 1..])
    requires a == run[i].answer && k == Key(run[i].labels, run[i].queryType) && now == ProxyAfter(s, run)
    requires a.errorCode == 0 && a.ttl >= 10 && (a.kind == 1 || a.kind == 5 || a.kind == 28)
    requires gone < if a.ttl > 900 then 900 else a.ttl
    requires k !in ProxyAfter(s, run[..i]).cache && AllKeep(run, i + 1, k)
    requires q.Query? && DOT in q.name && k == Key(q.labels, q.queryType)
    requires q.queryType == 1 || q.queryType == 5 || q.queryType == 28
    requires now.queue.cfg.server1 != 0 || now.queue.cfg.server2 != 0
    ensures Step(now, |run|, q).1 == Queue.FromCache && LookupKey(now, q) == k && k in now.cache
    ensures now.cache[k] == Remembered(a).(ttl := (if a.ttl > 900 then 900 else a.ttl) - gone)
  {
    AnswerStays(s, run, i, k, a, gone);
    LastServerStays(s, run);
    QualifiedIsFoundIff(now, |run|, q);
  }

  // Configured hosts are told.

  /** The entry of a configured host; what it held of an IPv6 address stays. */
  predicate HasHost(c: Cache, k: Key, ip: Word32) {
    k in c && c[k] == Entry(3600, ip, 0x8180, true, true, c[k].ipv6, None)
  }

  ghost predicate LeavesHosts(run: seq<Event>, from: nat) {
    forall i {:trigger run[i]} :: from <= i < |run| ==> !run[i].Hosts? && !run[i].ClearHosts?
  }

  lemma {:induction false} HostStays(s: Proxy, run: seq<Event>, n: nat, k: Key, ip: Word32)
    requires n <= |run| && HasHost(ProxyAfter(s, run[..n]).cache, k, ip) && LeavesHosts(run, n)
    ensures HasHost(ProxyAfter(s, run).cache, k, ip)
    decreases |run|
  {
    if n == |run| {
      assert run[..n] == run;
    } else {
      var prior, e := run[..|run| - 1], run[|run| - 1];
      assert run == prior + [e] && prior[..n] == run[..n] && !e.Hosts? && !e.ClearHosts?;
      assert LeavesHosts(prior, n) by {
        forall i | n <= i < |prior| ensures !prior[i].Hosts? && !prior[i].ClearHosts? {
          assert prior[i] == run[i];
        }
      }
      HostStays(s, prior, n, k, ip);
      StepKeepsHost(ProxyAfter(s, prior), |prior|, e, k, ip);
    }
  }

  lemma {:induction false} StepKeepsHost(s: Proxy, serial: nat, e: Event, k: Key, ip: Word32)
    requires HasHost(s.cache, k, ip) && !e.Hosts? && !e.ClearHosts?
    ensures HasHost(Step(s, serial, e).0.cache, k, ip)
  {
  }

  lemma {:induction false} HostsAreStored(c: Cache, hosts: seq<Host>, i: nat, k: Key)
    requires i < |hosts| && hosts[i].name != [] && k == StaticKey(hosts[i].name)
    requires forall j :: i < j < |hosts| ==> hosts[j].name == [] || StaticKey(hosts[j].name) != k
    ensures HasHost(UpdateStatic(c, hosts), k, hosts[i].ip)
  {
    CacheRun.AddedStatics(Unmarked(c), hosts);
    assert CacheRun.LastFor(hosts, k, i);
  }

  /** Clearing leaves nothing in the cache but the configured hosts. */
  lemma {:induction false} ClearForgets(s: Proxy, serial: nat, hosts: seq<Host>, k: Key)
    ensures k in Step(s, serial, ClearHosts(hosts)).0.cache <==>
            exists i :: 0 <= i < |hosts| && hosts[i].name != [] && StaticKey(hosts[i].name) == k
  {
    CacheRun.AddedStatics(map[], hosts);
    assert Unmarked(map[]) == map[];
    if CacheRun.Hosted(hosts, k) {
      var i :| 0 <= i < |hosts| && CacheRun.Configures(hosts[i], k);
    }
    if i :| 0 <= i < |hosts| && hosts[i].name != [] && StaticKey(hosts[i].name) == k {
      assert CacheRun.Configures(hosts[i], k);
    }
  }

  /**
   A configured host, the last stored under its name, is told to every client that asks for its
   address by the full name, until the hosts are configured anew.
   */
  lemma {:induction false} HostIsTold(s: Proxy, run: seq<Event>, n: nat, hosts: seq<Host>, i: nat, q: Event, now: Proxy)
    requires s.queue.lastServer == 1 || s.queue.lastServer == 2
    requires n < |run| && (run[n] == Hosts(hosts) || run[n] == ClearHosts(hosts)) && LeavesHosts(run, n + 1)
    requires i < |hosts| && hosts[i].name != []
    requires forall j :: i < j < |hosts| ==>
               hosts[j].name == [] || StaticKey(hosts[j].name) != StaticKey(hosts[i].name)
    requires q.Query? && q.queryType == 1 && DOT in q.name && Key(q.labels, 1) == StaticKey(hosts[i].name)
    requires now == ProxyAfter(s, run) && (now.queue.cfg.server1 != 0 || now.queue.cfg.server2 != 0)
    ensures Step(now, |run|, q).1 == Queue.FromCache && LookupKey(now, q) in now.cache
    ensures var e := now.cache[LookupKey(now, q)]; e.ip == hosts[i].ip && e.ttl == 3600 && e.flags == 0x8180
  {
    var k, before := StaticKey(hosts[i].name), ProxyAfter(s, run[..n]);
    assert run[..n + 1][..n] == run[..n];
    HostsAreStored(if run[n].Hosts? then before.cache else map[], hosts, i, k);
    HostStays(s, run, n + 1, k, hosts[i].ip);
    LastServerStays(s, run);
    QualifiedIsFoundIff(now, |run|, q);
  }
}
