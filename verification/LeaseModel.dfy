/** The lease database as a value: what the three hash tables of leases stand for. */
module LeaseModel {
  import opened Common

  /** A hardware address as a 48-bit number, its first byte the most significant. */
  type Mac = m: int | 0 <= m < 0x1_0000_0000_0000
  type Ip = Word32

  const MAC_HASH_MAX: nat := 4096
  const IP_HASH_MAX: nat := 4096
  const TSTAMP_HASH_MAX: nat := 256
  const OFFER_LEASE_TIME: nat := 20

  /** `tid` is zero once the lease was acknowledged; `declined` also marks a release. */
  datatype LeaseRec = LeaseRec(
    ip: Ip, mask: Ip, tstamp: nat, lease: nat, tid: Word32, declined: bool)

  type Db = map<Mac, LeaseRec>

  ghost predicate UniqueIps(db: Db) {
    forall m, n :: m in db && n in db && db[m].ip == db[n].ip ==> m == n
  }

  ghost predicate Leased(db: Db, ip: Ip) {
    exists m :: m in db && db[m].ip == ip
  }

  lemma UniqueIpsUpdate(db: Db, m: Mac, rec: LeaseRec)
    requires UniqueIps(db) && m in db && rec.ip == db[m].ip
    ensures UniqueIps(db[m := rec])
  {
  }

  lemma UniqueIpsAdd(db: Db, m: Mac, rec: LeaseRec)
    requires UniqueIps(db) && m !in db && !Leased(db, rec.ip)
    ensures UniqueIps(db[m := rec])
  {
  }

  lemma LeasedUpdate(db: Db, m: Mac, rec: LeaseRec, a: Ip)
    requires m in db && rec.ip == db[m].ip
    ensures Leased(db[m := rec], a) <==> Leased(db, a)
  {
    if Leased(db, a) {
      var o :| o in db && db[o].ip == a;
      assert db[m := rec][o].ip == a;
    }
  }

  lemma UpdateTwice(db: Db, m: Mac, first: LeaseRec, second: LeaseRec)
    ensures db[m := first][m := second] == db[m := second]
  {
  }

  /** The one bucket a timer tick visits: leases expired by `now`, congruent to it mod 256. */
  predicate SweptAt(tstamp: nat, now: nat) {
    tstamp <= now && HashTstamp(tstamp) == HashTstamp(now)
  }

  function Sweep(db: Db, now: nat): Db {
    map m | m in db && !SweptAt(db[m].tstamp, now) :: db[m]
  }

  function HashMac(mac: Mac): (h: nat)
    ensures h < MAC_HASH_MAX
  {
    var msb := BitXor(BitXor(mac / 0x100_0000_0000, mac / 0x100_0000 % 256), mac / 0x100 % 256);
    var lsb := BitXor(BitXor(mac / 0x1_0000_0000 % 256, mac / 0x1_0000 % 256), mac % 256);
    (256 * msb + lsb) % MAC_HASH_MAX
  }

  /** The one-at-a-time hash over the address bytes still to come. */
  function OneAtATime(bytes: seq<Byte>, h: Word32): (r: nat)
    ensures r < IP_HASH_MAX
  {
    if bytes == [] then
      var h1 := (h + h * 8) % WORD32;
      var h2 := BitXor(h1, h1 / 2048) % WORD32;
      (h2 + h2 * 32768) % IP_HASH_MAX
    else
      var h1 := (h + bytes[0]) % WORD32;
      var h2 := (h1 + h1 * 1024) % WORD32;
      OneAtATime(bytes[1..], BitXor(h2, h2 / 64) % WORD32)
  }

  function HashIp(ip: Ip): (h: nat)
    ensures h < IP_HASH_MAX
  {
    OneAtATime([ip % 256, ip / 0x100 % 256, ip / 0x1_0000 % 256, ip / 0x100_0000 % 256], 0)
  }

  function HashTstamp(t: nat): (h: nat)
    ensures h < TSTAMP_HASH_MAX
  {
    t % TSTAMP_HASH_MAX
  }
}
