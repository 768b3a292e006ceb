/** How the server picks an address from a range. */
module DhcpPool {
  import opened LeaseModel
  import opened DhcpModel

  ghost predicate ValidRange(n: Network) {
    0 < n.rangeStart <= n.rangeEnd
  }

  function Size(n: Network): nat
    requires ValidRange(n)
    ensures Size(n) > 0
  {
    n.rangeEnd - n.rangeStart + 1
  }

  /** The k-th address of the range in cyclic order after the one assigned last. */
  function CyclicAt(n: Network, k: nat): Ip
    requires ValidRange(n) && k < Size(n)
  {
    var offset := SearchStart(n) - n.rangeStart + k;
    n.rangeStart + if offset < Size(n) then offset else offset - Size(n)
  }

  lemma {:induction false} FirstFreeIsFirst(db: Db, lo: nat, hi: Ip)
    requires lo <= IP_MAX && hi < IP_MAX
    ensures match FirstFree(db, lo, hi)
            case Some(ip) => lo <= ip <= hi && !Leased(db, ip) && (forall a: Ip :: lo <= a < ip ==> Leased(db, a))
            case None => forall a: Ip :: lo <= a <= hi ==> Leased(db, a)
    decreases IP_MAX + 1 - lo
  {
    if lo <= hi && Leased(db, lo) {
      FirstFreeIsFirst(db, lo + 1, hi);
    }
  }

  /**
   The position, in cyclic order after the address assigned last, of the address picked;
   the size of the range when every address is leased.
   */
  lemma NextFreeIsFirstInCyclicOrder(n: Network, db: Db) returns (k: nat)
    requires ValidRange(n) && n.rangeEnd < IP_MAX
    ensures k <= Size(n)
    ensures forall j :: 0 <= j < k ==> Leased(db, CyclicAt(n, j))
    ensures k < Size(n) ==> NextFree(n, db) == CyclicAt(n, k) && !Leased(db, CyclicAt(n, k))
    ensures k == Size(n) ==> NextFree(n, db) == 0
  {
    var start := SearchStart(n);
    FirstFreeIsFirst(db, start, n.rangeEnd);
    FirstFreeIsFirst(db, n.rangeStart, start);
    match FirstFree(db, start, n.rangeEnd)
    case Some(ip) =>
      k := ip - start;
    case None =>
      match FirstFree(db, n.rangeStart, start)
      case Some(ip) =>
        k := ip - n.rangeStart + n.rangeEnd + 1 - start;
      case None =>
        k := Size(n);
  }

  /** The server reports an exhausted range exactly when every address of it is leased. */
  lemma NoneFreeIffAllLeased(n: Network, db: Db)
    requires ValidRange(n) && n.rangeEnd < IP_MAX
    ensures NextFree(n, db) == 0 <==> forall a: Ip :: n.rangeStart <= a <= n.rangeEnd ==> Leased(db, a)
    ensures NextFree(n, db) != 0 ==> n.rangeStart <= NextFree(n, db) <= n.rangeEnd && !Leased(db, NextFree(n, db))
  {
    FirstFreeIsFirst(db, SearchStart(n), n.rangeEnd);
    FirstFreeIsFirst(db, n.rangeStart, SearchStart(n));
  }

  lemma {:induction false} FirstFreeAtTop(db: Db, lo: nat)
    requires 0 < lo <= IP_MAX + 1
    ensures match FirstFree(db, lo, IP_MAX)
            case Some(ip) =>
              && (ip == 0 <==> forall a: Ip :: lo <= a ==> Leased(db, a))
              && (ip != 0 ==> lo <= ip && !Leased(db, ip))
            case None => false
    decreases IP_MAX + 1 - lo
  {
    if lo <= IP_MAX && Leased(db, lo) {
      FirstFreeAtTop(db, lo + 1);
    }
  }

  /**
   A range that ends at the largest address is searched upwards only: the 32-bit loop
   counter runs over to zero, and free addresses below the search start are missed.
   */
  lemma TopRangeIsNotCyclic(n: Network, db: Db)
    requires ValidRange(n) && n.rangeEnd == IP_MAX
    ensures NextFree(n, db) == 0 <==> forall a: Ip :: SearchStart(n) <= a <= n.rangeEnd ==> Leased(db, a)
    ensures NextFree(n, db) != 0 ==> n.rangeStart <= NextFree(n, db) && !Leased(db, NextFree(n, db))
  {
    FirstFreeAtTop(db, SearchStart(n));
  }

  /** Three addresses up to 255.255.255.255, the last two leased: the free first one is not found. */
  lemma {:induction false} FreeAddressIsMissed(n: Network, db: Db, rec: LeaseRec)
    requires n == Network(true, 0xffff_ff00, 0xffff_ff00, IP_MAX - 2, IP_MAX, 0, 1, 0, IP_MAX - 2)
    requires db == map[1 := rec.(ip := IP_MAX - 1), 2 := rec.(ip := IP_MAX)]
    ensures ValidRange(n) && !Leased(db, n.rangeStart) && NextFree(n, db) == 0
  {
    forall a: Ip | SearchStart(n) <= a <= n.rangeEnd ensures Leased(db, a) {
      assert db[1].ip == IP_MAX - 1 && db[2].ip == IP_MAX;
    }
    TopRangeIsNotCyclic(n, db);
  }

  /** Asking again moves on: the address picked is where the next search leaves off. */
  lemma SearchMovesOn(n: Network, db: Db)
    requires ValidRange(n) && n.rangeEnd < IP_MAX && NextFree(n, db) != 0
    ensures var n' := n.(lastIp := NextFree(n, db));
            SearchStart(n') == (if NextFree(n, db) == n.rangeEnd then n.rangeStart else NextFree(n, db) + 1)
  {
    NoneFreeIffAllLeased(n, db);
  }
}
