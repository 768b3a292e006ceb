/** The DNS proxy as a whole: the request queue and the answer cache, driven by the same events. */
module DnsProxyModel {
  import opened Common
  import opened DnsNames
  import opened DnsCacheModel
  import Queue = DnsModel

  datatype Proxy = Proxy(queue: Queue.State, cache: Cache, domain: Name)

  /**
   `labels` is the packet form of the name a packet asks about and `name` its dotted form.
   */
  datatype Event =
    | Query(ip: Word32, port: Word16, tid: Word16, queryType: Byte, labels: Name, name: Name, newTid: Word16)
    | Response(ip: Word32, tid: Word16, queryType: Byte, labels: Name, name: Name, sent: bool, answer: Answer)
    | Second
    | DropRequests
    | Servers(cfg: Queue.Config)
    | Hosts(hosts: seq<Host>)
    | ClearHosts(configured: seq<Host>)
    | Domain(text: Name)

  /** The name looked up in the cache: a bare name is joined to the configured domain if there is room. */
  function LookupName(labels: Name, name: Name, domain: Name): Name {
    if DOT in name || |name| + |domain| > MAX_DOMAIN_NAME then labels else name + domain
  }

  function LookupKey(s: Proxy, e: Event): Key
    requires e.Query?
  {
    Key(LookupName(e.labels, e.name, s.domain), e.queryType)
  }

  predicate Cached(s: Proxy, e: Event)
    requires e.Query?
  {
    && (e.queryType == TYPE_A || e.queryType == TYPE_AAAA || e.queryType == TYPE_CNAME)
    && LookupKey(s, e) in s.cache
  }

  /** The event as the request queue sees it. */
  function QueueEvent(s: Proxy, e: Event): Queue.Event {
    match e
    case Query(ip, port, tid, kind, labels, name, newTid) =>
      Queue.Query(ip, port, tid, kind, name, Cached(s, e), newTid)
    case Response(ip, tid, kind, labels, name, sent, answer) => Queue.Response(ip, tid, kind, name, sent)
    case Second => Queue.Tick
    case DropRequests => Queue.Clear
    case Servers(cfg) => Queue.Configure(cfg)
    case _ => Queue.Configure(s.queue.cfg)
  }

  /** What the event does to the cache; only a response passed to a client is learned. */
  function NextCache(s: Proxy, e: Event, out: Queue.Output): Cache {
    match e
    case Response(_, _, kind, labels, _, _, answer) =>
      if out.Reply? then Learn(s.cache, Key(labels, kind), answer) else s.cache
    case Second => Tick(s.cache)
    case Hosts(hosts) => UpdateStatic(s.cache, hosts)
    case ClearHosts(hosts) => UpdateStatic(map[], hosts)
    case _ => s.cache
  }

  function Step(s: Proxy, serial: nat, e: Event): (Proxy, Queue.Output) {
    var (queue, out) := Queue.Step(s.queue, serial, QueueEvent(s, e));
    (Proxy(queue, NextCache(s, e, out), if e.Domain? then e.text else s.domain), out)
  }
}
