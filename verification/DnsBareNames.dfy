/**
 Bare names in the DNS proxy. The cache is keyed by packet names, but a bare name joined to
 the configured domain is looked up in dotted form.
 */
module DnsBareNames {
  import opened Common
  import opened DnsNames
  import opened DnsCacheModel
  import opened DnsProxyModel
  import opened DnsProxyRun
  import Queue = DnsModel
  import CacheRun = DnsCacheRun

  /** Packet names start with a label length, which the parser and the host table keep below 64. */
  ghost predicate StartShort(c: Cache) {
    forall k :: k in c && k.name != [] ==> k.name[0] < 64
  }

  /** Responses carry names the parser accepts, and host names fit their table. */
  ghost predicate Parsed(e: Event) {
    && (e.Response? && e.labels != [] ==> e.labels[0] < 64)
    && (e.Hosts? ==> ShortHosts(e.hosts))
    && (e.ClearHosts? ==> ShortHosts(e.configured))
  }

  ghost predicate ShortHosts(hosts: seq<Host>) {
    forall i :: 0 <= i < |hosts| ==> |hosts[i].name| <= MAX_DOMAIN_NAME
  }

  lemma {:induction false} HostKeyStartsShort(name: Name)
    requires |name| <= MAX_DOMAIN_NAME
    ensures var k := StaticKey(name); k.name != [] ==> k.name[0] < 64
  {
    LabelLengthAtMost(name, 0);
    assert CString(LabelForm(name)) != [] ==> CString(LabelForm(name))[0] == LabelForm(name)[0];
  }

  lemma {:induction false} HostsStartShort(c: Cache, hosts: seq<Host>, d: Cache)
    requires StartShort(c) && ShortHosts(hosts) && d == UpdateStatic(c, hosts)
    ensures StartShort(d)
  {
    CacheRun.AddedStatics(Unmarked(c), hosts);
    forall k | k in d && k.name != [] ensures k.name[0] < 64 {
      if CacheRun.Hosted(hosts, k) {
        var i :| 0 <= i < |hosts| && CacheRun.Configures(hosts[i], k);
        HostKeyStartsShort(hosts[i].name);
      }
    }
  }

  lemma {:induction false} StepStartsShort(s: Proxy, e: Event, out: Queue.Output)
    requires StartShort(s.cache) && Parsed(e)
    ensures StartShort(NextCache(s, e, out))
  {
    match e
    case Hosts(hosts) => HostsStartShort(s.cache, hosts, NextCache(s, e, out));
    case ClearHosts(hosts) => HostsStartShort(map[], hosts, NextCache(s, e, out));
    case _ =>
  }

  /** Over every run the cache holds packet names only. */
  lemma {:induction false} RunStartsShort(s: Proxy, run: seq<Event>)
    requires s.cache == map[] && forall i :: 0 <= i < |run| ==> Parsed(run[i])
    ensures StartShort(ProxyAfter(s, run).cache)
  {
    if run != [] {
      var prior, e := run[..|run| - 1], run[|run| - 1];
      RunStartsShort(s, prior);
      var before := ProxyAfter(s, prior);
      StepStartsShort(before, e, Step(before, |prior|, e).1);
    }
  }

  /**
   After any run, a query for a bare name is answered from the cache if and only if either the
   name is too long to be joined to the domain and its packet form is cached, or its first byte is
   below 64 and the joined text is, taken for a packet form, the name of an entry.
   */
  lemma {:induction false} BareNameIsFoundIff(s: Proxy, run: seq<Event>, e: Event)
    requires s.cache == map[] && forall i :: 0 <= i < |run| ==> Parsed(run[i])
    requires e.Query? && e.name != [] && DOT !in e.name
    requires e.queryType == TYPE_A || e.queryType == TYPE_AAAA || e.queryType == TYPE_CNAME
    ensures var p := ProxyAfter(s, run);
            Cached(p, e) <==>
            if |e.name| + |p.domain| > MAX_DOMAIN_NAME then Key(e.labels, e.queryType) in p.cache
            else e.name[0] < 64 && Key(e.name + p.domain, e.queryType) in p.cache
  {
    RunStartsShort(s, run);
    assert (e.name + ProxyAfter(s, run).domain)[0] == e.name[0];
  }

  /** So one that starts with a letter is never found when it is joined to the domain. */
  lemma {:induction false} LetterNameIsFoundIff(s: Proxy, run: seq<Event>, e: Event)
    requires s.cache == map[] && forall i :: 0 <= i < |run| ==> Parsed(run[i])
    requires e.Query? && e.name != [] && e.name[0] >= 64 && DOT !in e.name
    requires e.queryType == TYPE_A || e.queryType == TYPE_AAAA || e.queryType == TYPE_CNAME
    ensures var p := ProxyAfter(s, run);
            Cached(p, e) <==> |e.name| + |p.domain| > MAX_DOMAIN_NAME && Key(e.labels, e.queryType) in p.cache
  {
    BareNameIsFoundIff(s, run, e);
  }

  // A host nobody finds by its bare name.

  const A: Name := [97]
  const A_LABELS: Name := [1, 97]
  const A_QUERY: Event := Query(1, 1, 1, TYPE_A, A_LABELS, A, 1)

  const AB: Name := [97, DOT, 98]

  lemma {:induction false} HostKeys()
    ensures StaticKey(A) == Key(A_LABELS, TYPE_A) && StaticKey(AB) == Key(LabelForm(AB), TYPE_A)
  {
    CacheRun.KeyOfA();
    CacheRun.KeyOfWhole(AB);
  }

  /**
   The host "a" and, in the domain "b", the host "a.b" are both configured. The query for the
   bare name "a" is nevertheless forwarded, although its packet form is cached.
   */
  lemma {:induction false} ConfiguredHostIsMissed(s: Proxy, run: seq<Event>)
    requires s == Proxy(Queue.State([], 1, 0, Queue.Config(1, 0, 0)), map[], [98])
    requires run == [Hosts([Host(A, 7), Host(AB, 8)])]
    ensures var p := ProxyAfter(s, run);
            && Key(A_LABELS, TYPE_A) in p.cache && p.cache[Key(A_LABELS, TYPE_A)].isStatic
            && Key(LabelForm(AB), TYPE_A) in p.cache
            && Step(p, 1, A_QUERY).1.Forward?
  {
    var hosts := run[0].hosts;
    HostKeys();
    assert ProxyAfter(s, run[..0]) == s && run[..|run| - 1] == run[..0];
    assert CacheRun.Configures(hosts[0], Key(A_LABELS, TYPE_A));
    assert CacheRun.Configures(hosts[1], StaticKey(AB));
    HostedIsStatic(s.cache, hosts, Key(A_LABELS, TYPE_A));
    HostedIsStatic(s.cache, hosts, StaticKey(AB));
    assert Parsed(run[0]);
    LetterNameIsFoundIff(s, run, A_QUERY);
  }

  // A host found by a name that is not its own.

  /**
   A host with a name of 48 to 57 characters without a dot is configured, and the domain is the
   same text. A query for the bare name of one digit, the one whose code is the length of that
   label, is answered with the address of the host.
   */
  lemma {:induction false} HostIsMistaken(s: Proxy, run: seq<Event>, name: Name, digit: Byte, e: Event)
    requires DomainText(name) && DOT !in name && |name| == digit && 48 <= digit <= 57
    requires s == Proxy(Queue.State([], 1, 0, Queue.Config(1, 0, 0)), map[], name)
    requires run == [Hosts([Host(name, 7)])] && e == Query(1, 1, 1, TYPE_A, [1, digit], [digit], 1)
    ensures var p := ProxyAfter(s, run);
            && LookupKey(p, e) == StaticKey(name) && StaticKey(name) in p.cache
            && Step(p, 1, e).1 == Queue.FromCache && p.cache[StaticKey(name)].ip == 7
  {
    var hosts := run[0].hosts;
    DigitStartsLabel(name, digit);
    assert ProxyAfter(s, run[..0]) == s && run[..|run| - 1] == run[..0];
    assert hosts[..|hosts| - 1] == [] && AddStatics(Unmarked(map[]), []) == map[];
    var p := Proxy(s.queue, AddStatic(map[], hosts[0]), name);
    assert ProxyAfter(s, run) == p;
  }

  lemma {:induction false} DigitStartsLabel(name: Name, digit: Byte)
    requires DomainText(name) && DOT !in name && |name| == digit && 48 <= digit <= 57
    ensures StaticKey(name) == Key([digit] + name, TYPE_A)
  {
    FirstLabelIs(name, []);
    forall i | 0 <= i < |name| ensures name[i] != DOT {
      assert name[i] in name;
    }
    CacheRun.KeyOfWhole(name);
  }
}
