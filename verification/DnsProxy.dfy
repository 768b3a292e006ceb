/** The DNS proxy: client queries, server responses and the clock act on the queue and the cache. */
module DnsProxy {
  import opened Common
  import opened Chains
  import opened DnsNames
  import opened DnsModel
  import opened DnsQueue
  import Caching = DnsCacheModel
  import opened DnsCache
  import Whole = DnsProxyModel

  /**
   What leaves the proxy; the run position in a model output cannot be seen on the wire. An
   answer from the cache is built from an entry, for a name and type, under the client's id.
   */
  datatype Sent =
    | Nothing
    | CachedAnswer(key: Caching.Key, entry: Caching.Entry, tid: Word16)
    | ToServer(serverIp: Word32, tid: Word16)
    | ToClient(ip: Word32, port: Word16, tid: Word16)

  function OnTheWire(s: Whole.Proxy, e: Whole.Event, out: Output): Sent {
    match out
    case Silent => Nothing
    case FromCache =>
      if e.Query? && Whole.Cached(s, e) then CachedAnswer(Whole.LookupKey(s, e), s.cache[Whole.LookupKey(s, e)], e.tid)
      else Nothing
    case Forward(ip, tid) => ToServer(ip, tid)
    case Reply(_, ip, port, tid) => ToClient(ip, port, tid)
  }

  /** The proxy goes from `s` to `after` as the transition function says, and sends what it says. */
  ghost predicate IsStep(s: Whole.Proxy, serial: nat, e: Whole.Event, after: Whole.Proxy, sent: Sent) {
    var (next, out) := Whole.Step(s, serial, e);
    after == next && sent == OnTheWire(s, e, out)
  }

  lemma {:induction false} ResponseDropped(s: Whole.Proxy, serial: nat, e: Whole.Event)
    requires e.Response?
    requires var k := FindTid(s.queue.active, e.tid);
             k.Some? ==> !Answers(s.queue.active[k.value].req, e.ip, e.queryType, e.name) || !e.sent
    ensures IsStep(s, serial, e, s, Nothing)
  {
  }

  lemma {:induction false} ResponsePassed(s: Whole.Proxy, serial: nat, e: Whole.Event, k: nat, r: Req,
                                          after: Whole.Proxy)
    requires e.Response? && e.sent && FindTid(s.queue.active, e.tid) == Some(k)
    requires s.queue.active[k].req == r && Answers(r, e.ip, e.queryType, e.name)
    requires after == s.(
               queue := s.queue.(active := Without(s.queue.active, k)),
               cache := Caching.Learn(s.cache, Caching.Key(e.labels, e.queryType), e.answer))
    ensures IsStep(s, serial, e, after, ToClient(r.clientIp, r.clientPort, r.clientTid))
  {
  }

  /** Whether a query past the cache is over the rate limit, and the counter after it. */
  function Throttle(rate: Word16, cfg: Config): (bool, Word16) {
    if cfg.rateLimit == 0 then (false, rate)
    else
      var counted := (rate + 1) % 0x1_0000;
      (counted > cfg.rateLimit, counted)
  }

  lemma {:induction false} QueryAnswered(s: Whole.Proxy, serial: nat, e: Whole.Event, server: Word32, last: nat,
                                         sent: Sent)
    requires e.Query? && (server, last) == PickServer(s.queue.lastServer, s.queue.cfg)
    requires server == 0 || Whole.Cached(s, e)
    requires sent == if server == 0 then Nothing
                     else CachedAnswer(Whole.LookupKey(s, e), s.cache[Whole.LookupKey(s, e)], e.tid)
    ensures IsStep(s, serial, e, s.(queue := s.queue.(lastServer := last)), sent)
  {
  }

  /** The queue after a query past the cache, and what is sent. */
  ghost predicate Queued(q: State, serial: nat, r: Req, after: State, sent: Sent) {
    var (drop, rate) := Throttle(q.rate, q.cfg);
    if drop || |q.active| >= MAX_REQ then after == q.(rate := rate) && sent == Nothing
    else after == q.(rate := rate, active := [Pending(serial, r)] + q.active) && sent == ToServer(r.serverIp, r.newTid)
  }

  lemma {:induction false} QueryPassedOn(s: Whole.Proxy, serial: nat, e: Whole.Event, server: Word32, last: nat,
                                         after: State, sent: Sent)
    requires e.Query? && (server, last) == PickServer(s.queue.lastServer, s.queue.cfg)
    requires server != 0 && !Whole.Cached(s, e)
    requires Queued(s.queue.(lastServer := last), serial,
                    Req(MAX_REQ_TTL, e.queryType, Stored(e.name), e.ip, e.port, e.tid, e.newTid, server), after, sent)
    ensures IsStep(s, serial, e, s.(queue := after), sent)
  {
  }

  class Proxy {
    const queue: RequestQueue
    const cache: AnswerCache
    var lastServer: nat
    var rate: Word16
    var cfg: Config
    var domain: Name

    ghost predicate Valid()
      reads this, queue, cache
    {
      queue.Valid() && cache.Valid()
    }

    ghost function View(): Whole.Proxy
      requires Valid()
      reads this, queue, cache
    {
      Whole.Proxy(State(queue.View(), lastServer, rate, cfg), cache.View(), domain)
    }

    constructor (cfg: Config, domain: Name)
      ensures Valid() && View() == Whole.Proxy(State([], 1, 0, cfg), map[], domain)
      ensures fresh(queue) && fresh(cache)
    {
      queue := new RequestQueue();
      cache := new AnswerCache();
      lastServer, rate := 1, 0;
      this.cfg, this.domain := cfg, domain;
    }

    /** Draws ids until one is not in use. */
    method NewTid(draws: seq<Word16>) returns (tid: Word16)
      requires Valid() && exists i :: 0 <= i < |draws| && !InUse(queue.View(), draws[i])
      ensures !InUse(queue.View(), tid)
    {
      var i := 0;
      while true
        invariant 0 <= i < |draws| && exists j :: i <= j < |draws| && !InUse(queue.View(), draws[j])
        decreases |draws| - i
      {
        var p, _ := queue.Find(draws[i]);
        if p.None? {
          return draws[i];
        }
        i := i + 1;
      }
    }

    /** Alternates between the two servers. */
    method NextServer() returns (server: Word32)
      modifies `lastServer
      ensures (server, lastServer) == PickServer(old(lastServer), cfg)
    {
      server := 0;
      if lastServer == 1 {
        if cfg.server2 != 0 {
          lastServer, server := 2, cfg.server2;
        } else {
          server := cfg.server1;
        }
      } else if lastServer == 2 {
        if cfg.server1 != 0 {
          lastServer, server := 1, cfg.server1;
        } else {
          server := cfg.server2;
        }
      }
    }

    /** Counts a query against the rate limit; says whether it is over the limit. */
    method Limit() returns (drop: bool)
      modifies `rate
      ensures (drop, rate) == Throttle(old(rate), cfg)
    {
      drop := false;
      if cfg.rateLimit != 0 {
        rate := (rate + 1) % 0x1_0000;
        drop := rate > cfg.rateLimit;
      }
    }

    /** The cache entry that answers a query, and its key. */
    method InCache(queryType: Byte, labels: Name, name: Name) returns (k: Caching.Key, hit: Option<Caching.Entry>)
      requires Valid()
      ensures var e := Whole.Query(0, 0, 0, queryType, labels, name, 0);
              && k == Whole.LookupKey(View(), e) && (hit.Some? <==> Whole.Cached(View(), e))
              && (hit.Some? ==> hit.value == View().cache[k])
    {
      k := Caching.Key(labels, queryType);
      if DOT !in name && |name| + |domain| <= MAX_DOMAIN_NAME {
        k := Caching.Key(name + domain, queryType);
      }
      if queryType != Caching.TYPE_A && queryType != Caching.TYPE_AAAA && queryType != Caching.TYPE_CNAME {
        return k, None;
      }
      var p := cache.Find(k.name, queryType);
      hit := if p.Some? then Some(cache.table.store[p.value].value) else None;
    }

    /** A query from a client: answered from the cache, or queued and forwarded under a new id. */
    method FromClient(ip: Word32, port: Word16, tid: Word16, queryType: Byte, labels: Name, name: Name,
                      draws: seq<Word16>, ghost serial: nat)
      returns (sent: Sent, ghost newTid: Word16)
      requires Valid() && exists i :: 0 <= i < |draws| && !InUse(queue.View(), draws[i])
      modifies this, queue
      ensures Valid() && !InUse(old(View()).queue.active, newTid)
      ensures IsStep(old(View()), serial, Whole.Query(ip, port, tid, queryType, labels, name, newTid), View(), sent)
    {
      newTid :| !InUse(queue.View(), newTid);
      ghost var before := View();
      var server := NextServer();
      var k, hit := InCache(queryType, labels, name);
      if server == 0 || hit.Some? {
        ghost var e := Whole.Query(ip, port, tid, queryType, labels, name, newTid);
        sent := if server == 0 then Nothing else CachedAnswer(k, hit.value, tid);
        QueryAnswered(before, serial, e, server, lastServer, sent);
        return;
      }
      sent, newTid := PassOn(Req(MAX_REQ_TTL, queryType, Stored(name), ip, port, tid, 0, server), draws, serial);
      ghost var e := Whole.Query(ip, port, tid, queryType, labels, name, newTid);
      QueryPassedOn(before, serial, e, server, lastServer, View().queue, sent);
    }

    /** Queues the request under a new id and forwards it, unless it is over the limit or there is no room. */
    method PassOn(r: Req, draws: seq<Word16>, ghost serial: nat) returns (sent: Sent, ghost newTid: Word16)
      requires Valid() && exists i :: 0 <= i < |draws| && !InUse(queue.View(), draws[i])
      modifies `rate, queue
      ensures Valid() && !InUse(old(queue.View()), newTid)
      ensures Queued(old(View()).queue, serial, r.(newTid := newTid), View().queue, sent)
    {
      newTid :| !InUse(queue.View(), newTid);
      var drop := Limit();
      if drop {
        return Nothing, newTid;
      }
      var drawn := NewTid(draws);
      var ok := queue.Enqueue(r.(newTid := drawn), serial);
      return if ok then ToServer(r.serverIp, drawn) else Nothing, drawn;
    }

    /** A response from a server: if it matches the queued query it is passed on and cached. */
    method FromServer(ip: Word32, tid: Word16, queryType: Byte, labels: Name, name: Name, taken: bool,
                      answer: Caching.Answer, at: Ptr, ghost serial: nat)
      returns (sent: Sent)
      requires Valid() && at !in cache.table.store
      modifies queue, cache
      ensures Valid()
      ensures IsStep(old(View()), serial, Whole.Response(ip, tid, queryType, labels, name, taken, answer), View(), sent)
    {
      ghost var before, e := View(), Whole.Response(ip, tid, queryType, labels, name, taken, answer);
      var p, k := queue.Find(tid);
      if p.None? {
        ResponseDropped(before, serial, e);
        return Nothing;
      }
      var r := queue.pool.reqs[p.value];
      if ip != r.serverIp || r.queryType != queryType || r.name != name || !taken {
        ResponseDropped(before, serial, e);
        return Nothing;
      }
      queue.Retire(p.value, k);
      cache.Learn(Caching.Key(labels, queryType), answer, at);
      ResponsePassed(before, serial, e, k, r, View());
      return ToClient(r.clientIp, r.clientPort, r.clientTid);
    }

    /** The idle branch of the main loop, entered about once a second. */
    method Second(ghost serial: nat)
      requires Valid()
      modifies this, queue, cache
      ensures Valid() && View() == Whole.Step(old(View()), serial, Whole.Second).0
    {
      cache.Timer();
      queue.Timer();
      rate := 0;
    }

    /** Clears the cache and configures the hosts anew. */
    method ClearHosts(hosts: seq<Caching.Host>, at: seq<Ptr>, ghost serial: nat)
      requires Valid() && |at| == |hosts| && Distinct(at)
      requires forall i :: 0 <= i < |hosts| ==> |hosts[i].name| < MAX_DOMAIN_NAME
      modifies cache
      ensures Valid() && View() == Whole.Step(old(View()), serial, Whole.ClearHosts(hosts)).0
    {
      cache.Clear();
      cache.UpdateStatic(hosts, at);
    }

    /** The server command gives up every pending request when the proxy is switched off. */
    method DropRequests(ghost serial: nat)
      requires Valid()
      modifies queue
      ensures Valid() && View() == Whole.Step(old(View()), serial, Whole.DropRequests).0
    {
      queue.ClearAll();
    }

    method SetServers(cfg: Config, ghost serial: nat)
      requires Valid()
      modifies `cfg
      ensures Valid() && View() == Whole.Step(old(View()), serial, Whole.Servers(cfg)).0
    {
      this.cfg := cfg;
    }

    method SetDomain(text: Name, ghost serial: nat)
      requires Valid()
      modifies `domain
      ensures Valid() && View() == Whole.Step(old(View()), serial, Whole.Domain(text)).0
    {
      domain := text;
    }

    /** The host table has changed. */
    method SetHosts(hosts: seq<Caching.Host>, at: seq<Ptr>, ghost serial: nat)
      requires Valid() && |at| == |hosts| && Distinct(at)
      requires forall i :: 0 <= i < |at| ==> at[i] !in cache.table.store
      requires forall i :: 0 <= i < |hosts| ==> |hosts[i].name| < MAX_DOMAIN_NAME
      modifies cache
      ensures Valid() && View() == Whole.Step(old(View()), serial, Whole.Hosts(hosts)).0
    {
      cache.UpdateStatic(hosts, at);
    }
  }
}
