/** The request side of the DNS proxy as a transition function on the queue of pending queries. */
module DnsModel {
  import opened Common
  import opened DnsNames

  const MAX_REQ: nat := 512
  const MAX_REQ_TTL: nat := 10

  datatype Req = Req(
    ttl: nat, queryType: Word16, name: Name,
    clientIp: Word32, clientPort: Word16, clientTid: Word16, newTid: Word16, serverIp: Word32)

  /** A queued request and the position in the run of the query it stands for. */
  datatype Pending = Pending(serial: nat, req: Req)

  datatype Config = Config(server1: Word32, server2: Word32, rateLimit: Word16)

  /** `active` starts with the request queued last. */
  datatype State = State(active: seq<Pending>, lastServer: nat, rate: Word16, cfg: Config)

  /**
   `cached` says that the cache answers the query; `newTid` is the id drawn for it, and
   `sent` whether the system took the outgoing packet.
   */
  datatype Event =
    | Query(ip: Word32, port: Word16, tid: Word16, queryType: Word16, name: Name, cached: bool, newTid: Word16)
    | Response(ip: Word32, tid: Word16, queryType: Word16, name: Name, sent: bool)
    | Tick
    | Clear
    | Configure(cfg: Config)

  datatype Output =
    | Silent
    | FromCache
    | Forward(serverIp: Word32, tid: Word16)
    | Reply(serial: nat, clientIp: Word32, clientPort: Word16, clientTid: Word16)

  /** The two name servers take turns; a missing one is skipped. */
  function PickServer(last: nat, cfg: Config): (Word32, nat) {
    if last == 1 then
      if cfg.server2 != 0 then (cfg.server2, 2) else (cfg.server1, 1)
    else if last == 2 then
      if cfg.server1 != 0 then (cfg.server1, 1) else (cfg.server2, 2)
    else (0, last)
  }

  /** The name as the request record has room for it. */
  function Stored(name: Name): Name {
    if |name| > MAX_DOMAIN_NAME then name[..MAX_DOMAIN_NAME] else name
  }

  predicate InUse(active: seq<Pending>, tid: Word16) {
    exists i :: 0 <= i < |active| && active[i].req.newTid == tid
  }

  /** The position of the request with a given id, if any. */
  function FindTid(active: seq<Pending>, tid: Word16): (r: Option<nat>)
    ensures r.Some? ==> r.value < |active| && active[r.value].req.newTid == tid
    ensures r.None? <==> !InUse(active, tid)
  {
    if active == [] then None
    else if active[0].req.newTid == tid then Some(0)
    else
      var r := FindTid(active[1..], tid);
      assert r.None? ==> forall i :: 0 < i < |active| ==> active[i] == active[1..][i - 1];
      if r.Some? then Some(r.value + 1) else None
  }

  predicate Answers(r: Req, ip: Word32, queryType: Word16, name: Name) {
    r.serverIp == ip && r.queryType == queryType && r.name == name
  }

  /** Every request loses a second; those that run out are dropped. */
  function Aged(active: seq<Pending>): seq<Pending> {
    if active == [] then []
    else
      var r := active[0].req;
      (if r.ttl <= 1 then [] else [active[0].(req := r.(ttl := r.ttl - 1))]) + Aged(active[1..])
  }

  function StepQuery(s: State, serial: nat, e: Event): (State, Output)
    requires e.Query?
  {
    var (server, last) := PickServer(s.lastServer, s.cfg);
    var s1 := s.(lastServer := last);
    if server == 0 then (s1, Silent)
    else if e.cached then (s1, FromCache)
    else
      var limited := s.cfg.rateLimit != 0;
      var rate := if limited then (s.rate + 1) % 0x1_0000 else s.rate;
      var s2 := s1.(rate := rate);
      if (limited && rate > s.cfg.rateLimit) || |s.active| >= MAX_REQ then (s2, Silent)
      else
        var r := Req(MAX_REQ_TTL, e.queryType, Stored(e.name), e.ip, e.port, e.tid, e.newTid, server);
        (s2.(active := [Pending(serial, r)] + s.active), Forward(server, e.newTid))
  }

  function StepResponse(s: State, e: Event): (State, Output)
    requires e.Response?
  {
    match FindTid(s.active, e.tid)
    case None => (s, Silent)
    case Some(k) =>
      var p := s.active[k];
      if !Answers(p.req, e.ip, e.queryType, e.name) || !e.sent then (s, Silent)
      else
        (s.(active := Without(s.active, k)), Reply(p.serial, p.req.clientIp, p.req.clientPort, p.req.clientTid))
  }

  function Step(s: State, serial: nat, e: Event): (State, Output) {
    match e
    case Query(_, _, _, _, _, _, _) => StepQuery(s, serial, e)
    case Response(_, _, _, _, _) => StepResponse(s, e)
    case Tick => (s.(active := Aged(s.active), rate := 0), Silent)
    case Clear => (s.(active := []), Silent)
    case Configure(cfg) => (s.(cfg := cfg), Silent)
  }

  /** A query goes to a configured server if there is one, and the two servers take turns. */
  lemma {:induction false} ServersTakeTurns(last: nat, cfg: Config)
    requires last == 1 || last == 2
    ensures var (server, next) := PickServer(last, cfg);
            && (next == 1 || next == 2)
            && (server == cfg.server1 || server == cfg.server2)
            && (server == 0 <==> cfg.server1 == 0 && cfg.server2 == 0)
            && (cfg.server1 != 0 && cfg.server2 != 0 ==>
                  next != last && (server != PickServer(next, cfg).0 || cfg.server1 == cfg.server2))
  {
  }

  // Drawing an id.

  /** There is always an unused id to draw, since at most 512 of the 65536 are in use. */
  lemma UnusedTidExists(active: seq<Pending>) returns (tid: Word16)
    requires |active| <= MAX_REQ
    ensures !InUse(active, tid)
  {
    tid := UnusedFrom(active, 0x1_0000);
  }

  lemma {:induction false} UnusedFrom(active: seq<Pending>, bound: nat) returns (tid: Word16)
    requires |active| < bound <= 0x1_0000
    ensures tid < bound && !InUse(active, tid)
    decreases bound
  {
    if !InUse(active, bound - 1) {
      tid := bound - 1;
    } else {
      var k :| 0 <= k < |active| && active[k].req.newTid == bound - 1;
      tid := UnusedFrom(Without(active, k), bound - 1);
      forall i | 0 <= i < |active| ensures active[i].req.newTid != tid {
        if i != k {
          assert Without(active, k)[if i < k then i else i - 1] == active[i];
        }
      }
    }
  }
}
