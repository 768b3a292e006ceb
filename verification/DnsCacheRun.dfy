/** What the answer cache keeps over whole runs. */
module DnsCacheRun {
  import opened DnsNames
  import opened DnsCacheModel

  datatype Event =
    | Answered(key: Key, answer: Answer)
    | Ticked
    | Configured(hosts: seq<Host>)
    | Cleared

  function Step(c: Cache, e: Event): Cache {
    match e
    case Answered(k, a) => Learn(c, k, a)
    case Ticked => Tick(c)
    case Configured(hosts) => UpdateStatic(c, hosts)
    case Cleared => map[]
  }

  function CacheAfter(c: Cache, run: seq<Event>): Cache {
    if run == [] then c else Step(CacheAfter(c, run[..|run| - 1]), run[|run| - 1])
  }

  /** Learned entries have 1 to 900 seconds left; configured ones are address entries that do not age. */
  ghost predicate EntryOk(k: Key, e: Entry) {
    if e.isStatic then k.kind == TYPE_A && e.ttl == STATIC_TTL && e.cname.None?
    else 1 <= e.ttl <= MAX_TTL && !e.marker
  }

  ghost predicate Inv(c: Cache) {
    forall k :: k in c ==> EntryOk(k, c[k])
  }

  /** The host configures the address entry `k`. */
  predicate Configures(h: Host, k: Key) {
    h.name != [] && StaticKey(h.name) == k
  }

  ghost predicate Hosted(hosts: seq<Host>, k: Key) {
    exists i :: 0 <= i < |hosts| && Configures(hosts[i], k)
  }

  /** The last host for `k` is the one at position `i`. */
  ghost predicate LastFor(hosts: seq<Host>, k: Key, i: int) {
    && 0 <= i < |hosts| && Configures(hosts[i], k)
    && forall j :: i < j < |hosts| ==> !Configures(hosts[j], k)
  }

  lemma {:induction false} HostedLonger(prior: seq<Host>, h: Host, k: Key)
    ensures Hosted(prior + [h], k) <==> Hosted(prior, k) || Configures(h, k)
  {
    var hosts := prior + [h];
    assert hosts[|prior|] == h;
    if Hosted(prior, k) {
      var i :| 0 <= i < |prior| && Configures(prior[i], k);
      assert hosts[i] == prior[i];
    }
    if Hosted(hosts, k) && !Configures(h, k) {
      var i :| 0 <= i < |hosts| && Configures(hosts[i], k);
      assert prior[i] == hosts[i];
    }
  }

  lemma {:induction false} LastForLonger(prior: seq<Host>, h: Host, k: Key, i: int)
    requires LastFor(prior + [h], k, i)
    ensures if Configures(h, k) then i == |prior| else LastFor(prior, k, i)
  {
    var hosts := prior + [h];
    assert hosts[|prior|] == h;
    if !Configures(h, k) {
      assert forall j :: 0 <= j < |prior| ==> prior[j] == hosts[j];
    }
  }

  /** What the hosts make of entry `k`, the cache with them being `d`. */
  lemma {:induction false} AddedFor(c: Cache, hosts: seq<Host>, k: Key, d: Cache)
    requires d == AddStatics(c, hosts)
    ensures k in d <==> k in c || Hosted(hosts, k)
    ensures k in c && !Hosted(hosts, k) ==> d[k] == c[k]
    ensures forall i {:trigger LastFor(hosts, k, i)} :: LastFor(hosts, k, i) ==>
              k in d && d[k] == StaticEntry(hosts[i].ip).(ipv6 := d[k].ipv6)
  {
    if hosts != [] {
      var prior, h := hosts[..|hosts| - 1], hosts[|hosts| - 1];
      assert prior + [h] == hosts;
      AddedFor(c, prior, k, AddStatics(c, prior));
      HostedLonger(prior, h, k);
      forall i | LastFor(hosts, k, i) ensures k in d && d[k] == StaticEntry(hosts[i].ip).(ipv6 := d[k].ipv6) {
        LastForLonger(prior, h, k, i);
      }
    }
  }

  lemma {:induction false} AddedStatics(c: Cache, hosts: seq<Host>)
    ensures forall k {:trigger k in AddStatics(c, hosts)} ::
              k in AddStatics(c, hosts) <==> k in c || Hosted(hosts, k)
    ensures forall k {:trigger Hosted(hosts, k)} :: k in c && !Hosted(hosts, k) ==> AddStatics(c, hosts)[k] == c[k]
    ensures forall k, i {:trigger LastFor(hosts, k, i)} :: LastFor(hosts, k, i) ==>
              && k in AddStatics(c, hosts)
              && AddStatics(c, hosts)[k] == StaticEntry(hosts[i].ip).(ipv6 := AddStatics(c, hosts)[k].ipv6)
  {
    forall k ensures k in AddStatics(c, hosts) <==> k in c || Hosted(hosts, k) {
      AddedFor(c, hosts, k, AddStatics(c, hosts));
    }
    forall k | k in c && !Hosted(hosts, k) ensures AddStatics(c, hosts)[k] == c[k] {
      AddedFor(c, hosts, k, AddStatics(c, hosts));
    }
    forall k, i | LastFor(hosts, k, i)
      ensures AddStatics(c, hosts)[k] == StaticEntry(hosts[i].ip).(ipv6 := AddStatics(c, hosts)[k].ipv6)
    {
      AddedFor(c, hosts, k, AddStatics(c, hosts));
    }
  }

  lemma {:induction false} LastExists(hosts: seq<Host>, k: Key) returns (i: int)
    requires Hosted(hosts, k)
    ensures LastFor(hosts, k, i)
  {
    var n := |hosts| - 1;
    if Configures(hosts[n], k) {
      i := n;
    } else {
      var j :| 0 <= j < |hosts| && Configures(hosts[j], k);
      assert Configures(hosts[..n][j], k);
      i := LastExists(hosts[..n], k);
      assert forall j :: i < j < n ==> hosts[..n][j] == hosts[j];
    }
  }

  lemma {:induction false} StepKeepsInv(c: Cache, e: Event)
    requires Inv(c)
    ensures Inv(Step(c, e))
  {
    match e
    case Answered(_, _) =>
    case Ticked =>
    case Configured(hosts) =>
      var u := Unmarked(c);
      AddedStatics(u, hosts);
      forall k | k in UpdateStatic(c, hosts) ensures EntryOk(k, UpdateStatic(c, hosts)[k]) {
        if Hosted(hosts, k) {
          var i := LastExists(hosts, k);
        } else {
          assert EntryOk(k, c[k]);
        }
      }
    case Cleared =>
  }

  /** Over every run from an empty cache the decrement of a time to live never wraps around. */
  lemma {:induction false} NeverWraps(run: seq<Event>)
    ensures Inv(CacheAfter(map[], run))
    ensures forall k :: k in CacheAfter(map[], run) ==>
              var e := CacheAfter(map[], run)[k]; e.ttl > 0 && Countdown(e.ttl) == e.ttl - 1
    decreases |run|
  {
    if run != [] {
      NeverWraps(run[..|run| - 1]);
      StepKeepsInv(CacheAfter(map[], run[..|run| - 1]), run[|run| - 1]);
    }
    forall k | k in CacheAfter(map[], run)
      ensures var e := CacheAfter(map[], run)[k]; e.ttl > 0 && Countdown(e.ttl) == e.ttl - 1
    {
      assert EntryOk(k, CacheAfter(map[], run)[k]);
    }
  }

  // How long a learned entry lives.

  function Ticks(run: seq<Event>): nat {
    if run == [] then 0
    else Ticks(run[..|run| - 1]) + (if run[|run| - 1].Ticked? then 1 else 0)
  }

  /** Nothing in the run clears the cache or configures a host for `k`. */
  ghost predicate LeavesAlone(e: Event, k: Key) {
    !e.Cleared? && (e.Configured? ==> !Hosted(e.hosts, k))
  }

  /** A learned entry counts down with the ticks, whatever else is learned or configured meanwhile. */
  lemma {:induction false} EntryCountsDown(c: Cache, k: Key, run: seq<Event>)
    requires Inv(c) && k in c && !c[k].isStatic
    requires forall i :: 0 <= i < |run| ==> LeavesAlone(run[i], k)
    requires Ticks(run) < c[k].ttl
    ensures k in CacheAfter(c, run) && CacheAfter(c, run)[k] == c[k].(ttl := c[k].ttl - Ticks(run))
  {
    assert EntryOk(k, c[k]);
    if run != [] {
      var prior, e := run[..|run| - 1], run[|run| - 1];
      EntryCountsDown(c, k, prior);
      assert LeavesAlone(e, k);
      if e.Configured? {
        AddedStatics(Unmarked(CacheAfter(c, prior)), e.hosts);
      }
    }
  }

  /** An entry learned with `ttl` seconds to live is gone at the tick that completes them. */
  lemma {:induction false} GoneAfterItsTicks(c: Cache, k: Key, run: seq<Event>)
    requires Inv(c) && k in c && !c[k].isStatic
    requires forall i :: 0 <= i < |run| ==> LeavesAlone(run[i], k)
    requires Ticks(run) + 1 == c[k].ttl
    ensures k !in CacheAfter(c, run + [Ticked])
  {
    EntryCountsDown(c, k, run);
    assert (run + [Ticked])[..|run|] == run;
  }

  // Configured hosts.

  /**
   One tick after the hosts were configured anew, the configured entries are exactly those
   of the hosts, the last of several for one name, each in place of whatever was learned
   about that address; every other learned entry has aged by one tick.
   */
  lemma {:induction false} ConfiguredAfterTick(c: Cache, hosts: seq<Host>, k: Key)
    requires Inv(c)
    ensures var d := Tick(UpdateStatic(c, hosts));
            && (k in d <==> Hosted(hosts, k) || (k in c && !c[k].isStatic && c[k].ttl > 1))
            && (Hosted(hosts, k) ==>
                  exists i :: LastFor(hosts, k, i) && d[k] == StaticEntry(hosts[i].ip).(ipv6 := d[k].ipv6))
            && (k in d && !Hosted(hosts, k) ==> d[k] == c[k].(ttl := c[k].ttl - 1))
  {
    var u := Unmarked(c);
    AddedStatics(u, hosts);
    if k in c {
      assert EntryOk(k, c[k]);
    }
    if Hosted(hosts, k) {
      var i := LastExists(hosts, k);
      assert LastFor(hosts, k, i) && Tick(UpdateStatic(c, hosts))[k] == UpdateStatic(c, hosts)[k];
    }
  }

  /** A name without empty labels is stored in full. */
  lemma {:induction false} KeyOfWhole(name: Name)
    requires DomainText(name) && NoEmptyLabel(name)
    ensures StaticKey(name) == Key(LabelForm(name), TYPE_A)
  {
    StringOfLabelForm(name);
    WholeIsFirstPart(name);
  }

  /**
   Two hosts share an entry if and only if their names agree up to the first empty label. So
   different names without empty labels never share one.
   */
  lemma {:induction false} HostsShareIff(a: Name, b: Name)
    requires DomainText(a) && |a| < MAX_DOMAIN_NAME && DomainText(b) && |b| < MAX_DOMAIN_NAME
    ensures StaticKey(a) == StaticKey(b) <==> FirstPart(a) == FirstPart(b)
    ensures NoEmptyLabel(a) && NoEmptyLabel(b) ==> (StaticKey(a) == StaticKey(b) <==> a == b)
  {
    SameStringIff(a, b);
    if NoEmptyLabel(a) && NoEmptyLabel(b) {
      WholeIsFirstPart(a);
      WholeIsFirstPart(b);
    }
  }

  /** The host "a." takes over the entry of the host "a", whose address is forgotten. */
  lemma {:induction false} TrailingDotTakesOver(hosts: seq<Host>)
    requires hosts == [Host([97], 1), Host([97, DOT], 2)]
    ensures UpdateStatic(map[], hosts) == map[Key([1, 97], TYPE_A) := StaticEntry(2)]
  {
    var k := Key([1, 97], TYPE_A);
    KeyOfA();
    assert hosts[..1][..0] == [] && hosts[..|hosts| - 1] == hosts[..1];
    assert AddStatics(Unmarked(map[]), []) == map[];
    assert AddStatics(Unmarked(map[]), hosts[..1]) == map[k := StaticEntry(1)];
  }

  lemma {:induction false} KeyOfA()
    ensures StaticKey([97]) == StaticKey([97, DOT]) == Key([1, 97], TYPE_A)
  {
    FirstLabelIs([97], []);
    WholeIsFirstPart([97]);
    assert LabelForm([97]) == [1, 97];
    assert [97] + [DOT] + [] == [97, DOT] && LabelForm([]) == [0];
    assert LabelForm([97, DOT]) == [1, 97, 0];
    CStringIs([1, 97], 2);
    CStringIs([1, 97, 0], 2);
  }
}
