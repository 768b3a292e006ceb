/** The answer cache of the DNS proxy as a map from name and query type to entry. */
module DnsCacheModel {
  import opened Common
  import opened DnsNames

  const MIN_TTL: nat := 10
  const MAX_TTL: nat := 900
  const STATIC_TTL: nat := 3600
  const STATIC_FLAGS: Word16 := 0x8180

  const TYPE_A: Byte := 1
  const TYPE_CNAME: Byte := 5
  const TYPE_AAAA: Byte := 28

  const NO_IP6: seq<Byte> := [0, 0, 0, 0, 0, 0, 0, 0, 0, 0, 0, 0, 0, 0, 0, 0]

  type Ip6 = s: seq<Byte> | |s| == 16 witness NO_IP6

  /** The name is in packet form. */
  datatype Key = Key(name: Name, kind: Byte)

  /** `cname` holds the whole response of an alias. */
  datatype Entry = Entry(
    ttl: Word32, ip: Word32, flags: Word16, isStatic: bool, marker: bool, ipv6: Ip6, cname: Option<seq<Byte>>)

  type Cache = map<Key, Entry>

  /** What the parser extracts from a response, and the response itself. */
  datatype Answer = Answer(
    errorCode: Byte, ttl: int, kind: Word16, flags: Word16, ip: Word32, ipv6: Ip6, packet: seq<Byte>)

  datatype Host = Host(name: Name, ip: Word32)

  const BUCKETS: nat := 1024

  /** A `char` is signed: the upper half of the byte values is sign-extended. */
  function SignExtended(c: Byte): Word32 {
    if c < 128 then c else WORD32 - 256 + c
  }

  function HashFrom(name: Name, h: Word32): nat {
    if name == [] then h
    else HashFrom(name[1..], BitXor(h * 33 % WORD32, SignExtended(name[0])) % WORD32)
  }

  function HashName(name: Name): (h: nat)
    ensures h < BUCKETS
  {
    HashFrom(name, 5381) % BUCKETS
  }

  // Learning answers.

  predicate Cacheable(a: Answer) {
    a.errorCode == 0 && a.ttl >= MIN_TTL && (a.kind == TYPE_A || a.kind == TYPE_AAAA || a.kind == TYPE_CNAME)
  }

  function Capped(ttl: int): (r: Word32)
    requires ttl >= MIN_TTL
    ensures MIN_TTL <= r <= MAX_TTL && r <= ttl
  {
    if ttl > MAX_TTL then MAX_TTL else ttl
  }

  function EntryFor(a: Answer): Entry
    requires Cacheable(a)
  {
    Entry(
      Capped(a.ttl), if a.kind == TYPE_A then a.ip else 0, a.flags, false, false,
      if a.kind == TYPE_AAAA then a.ipv6 else NO_IP6,
      if a.kind == TYPE_CNAME then Some(a.packet) else None)
  }

  /** An answer is cached unless there is an entry for the same name and type. */
  function Learn(c: Cache, k: Key, a: Answer): Cache {
    if Cacheable(a) && k !in c then c[k := EntryFor(a)] else c
  }

  // The timer.

  /** The time to live after the decrement, which wraps around like the 32-bit field. */
  function Countdown(ttl: Word32): Word32 {
    (ttl - 1) % WORD32
  }

  predicate Survives(e: Entry) {
    if e.isStatic then e.marker else Countdown(e.ttl) != 0
  }

  function AgedEntry(e: Entry): Entry {
    if e.isStatic then e else e.(ttl := Countdown(e.ttl))
  }

  function Tick(c: Cache): Cache {
    map k | k in c && Survives(c[k]) :: AgedEntry(c[k])
  }

  // Configured hosts.

  function Unmarked(c: Cache): Cache {
    map k | k in c :: c[k].(marker := false)
  }

  /** The packet form is handled as a string, so an empty label ends the key. */
  function StaticKey(name: Name): Key {
    Key(CString(LabelForm(name)), TYPE_A)
  }

  function StaticEntry(ip: Word32): Entry {
    Entry(STATIC_TTL, ip, STATIC_FLAGS, true, true, NO_IP6, None)
  }

  /** A configured host takes over the address entry of its name, which keeps its unused IPv6 bytes. */
  function AddStatic(c: Cache, h: Host): Cache {
    if h.name == [] then c
    else
      var k := StaticKey(h.name);
      c[k := StaticEntry(h.ip).(ipv6 := if k in c then c[k].ipv6 else NO_IP6)]
  }

  function AddStatics(c: Cache, hosts: seq<Host>): Cache {
    if hosts == [] then c else AddStatic(AddStatics(c, hosts[..|hosts| - 1]), hosts[|hosts| - 1])
  }

  function UpdateStatic(c: Cache, hosts: seq<Host>): Cache {
    AddStatics(Unmarked(c), hosts)
  }
}
