/**
 The shared-memory allocator: circular first fit over 16-byte chunks. One map byte per
 chunk is zero when the chunk is free; the bytes of a block of n chunks count n, n-1, ..., 1,
 so that a scan that meets any byte of a block knows how far to skip.
 */
module SmallMemory {
  import opened Common

  const ALIGN_SIZE: nat := 16

  function ChunksFor(size: nat): (c: nat)
    ensures c >= 1 && c * ALIGN_SIZE >= size && (c > 1 ==> (c - 1) * ALIGN_SIZE < size)
  {
    if size == 0 then 1
    else if size % ALIGN_SIZE == 0 then size / ALIGN_SIZE
    else size / ALIGN_SIZE + 1
  }

  type Cells = seq<Byte>

  ghost predicate FreeRun(m: Cells, i: int, n: nat) {
    0 <= i && i + n <= |m| && forall k :: i <= k < i + n ==> m[k] == 0
  }

  /** The bytes from `s` on count down from `n` to one. */
  ghost predicate Countdown(m: Cells, s: nat, n: nat) {
    1 <= n && s + n <= |m| && forall k :: s <= k < s + n ==> m[k] == n - (k - s)
  }

  /** The map is tiled by free cells and by the countdowns of the live blocks, which are disjoint. */
  ghost predicate Tiled(m: Cells, live: map<nat, nat>) {
    && (forall s :: s in live ==> Countdown(m, s, live[s]))
    && (forall s, t :: s in live && t in live && s < t ==> s + live[s] <= t)
    && (forall k :: 0 <= k < |m| && m[k] != 0 ==> exists s :: s in live && s <= k < s + live[s])
  }

  /** What the skips of a scan rely on: each byte above one is followed by the next lower. */
  ghost predicate Descending(m: Cells) {
    forall k :: 0 <= k < |m| && m[k] > 1 ==> k + 1 < |m| && m[k + 1] == m[k] - 1
  }

  lemma TiledIsDescending(m: Cells, live: map<nat, nat>)
    requires Tiled(m, live)
    ensures Descending(m)
  {
    forall k | 0 <= k < |m| && m[k] > 1 ensures k + 1 < |m| && m[k + 1] == m[k] - 1 {
      var s :| s in live && s <= k < s + live[s];
      assert Countdown(m, s, live[s]);
    }
  }

  /** From any byte of a block, even in its middle, the count leads past used cells only. */
  lemma {:induction false} SkipIsSafe(m: Cells, i: nat)
    requires Descending(m) && i < |m| && m[i] != 0
    ensures i + m[i] <= |m| && forall k :: i <= k < i + m[i] ==> m[k] != 0
    decreases |m| - i
  {
    if m[i] > 1 {
      SkipIsSafe(m, i + 1);
    }
  }

  /** The count of the k-th byte of a block of `n` chunks, as a map byte can hold it. */
  function StoredCount(n: nat, k: nat): Byte {
    (n - k) % 256
  }

  function MarkedCell(m: Cells, i: nat, n: nat, k: nat): Byte
    requires k < |m|
  {
    if i <= k < i + n then StoredCount(n, k - i) else m[k]
  }

  /** Writing the counts of a new block. */
  function Marked(m: Cells, i: nat, n: nat): (r: Cells)
    requires i + n <= |m|
    ensures |r| == |m|
  {
    seq(|m|, k requires 0 <= k < |m| => MarkedCell(m, i, n, k))
  }

  function ClearedCell(m: Cells, i: nat, k: nat): Byte
    requires i < |m| && k < |m|
  {
    if i <= k < i + m[i] then 0 else m[k]
  }

  /** Clearing the cells of the block that starts at `i`, by its count. */
  function Cleared(m: Cells, i: nat): (r: Cells)
    requires i < |m|
    ensures |r| == |m|
  {
    seq(|m|, k requires 0 <= k < |m| => ClearedCell(m, i, k))
  }

  lemma CountdownElsewhere(m: Cells, m': Cells, s: nat, n: nat)
    requires Countdown(m, s, n) && |m'| == |m| && forall k :: s <= k < s + n ==> m'[k] == m[k]
    ensures Countdown(m', s, n)
  {
  }

  lemma FreeRunMissesBlocks(m: Cells, live: map<nat, nat>, i: nat, n: nat, s: nat)
    requires Tiled(m, live) && 1 <= n && FreeRun(m, i, n) && s in live
    ensures s + live[s] <= i || i + n <= s
  {
    assert Countdown(m, s, live[s]);
    var overlap := if s <= i then i else s;
    assert m[overlap] >= 0;
  }

  lemma {:induction false} MarkedIsTiled(m: Cells, live: map<nat, nat>, i: nat, n: nat)
    requires Tiled(m, live) && 1 <= n <= 255 && FreeRun(m, i, n)
    ensures Tiled(Marked(m, i, n), live[i := n])
  {
    var m', live' := Marked(m, i, n), live[i := n];
    forall s | s in live' ensures Countdown(m', s, live'[s]) {
      MarkedCountsDown(m, live, i, n, s);
    }
    forall s, t | s in live' && t in live' && s < t ensures s + live'[s] <= t {
      if s == i {
        FreeRunMissesBlocks(m, live, i, n, t);
      } else if t == i {
        FreeRunMissesBlocks(m, live, i, n, s);
      }
    }
    forall k | 0 <= k < |m'| && m'[k] != 0 ensures exists s :: s in live' && s <= k < s + live'[s] {
      if i <= k < i + n {
        assert i in live' && i <= k < i + live'[i];
      } else {
        var s := BlockOf(m, live, k);
        NotTheFreeRun(m, live, i, n, s);
        assert s in live' && live'[s] == live[s];
      }
    }
  }

  lemma {:induction false} NotTheFreeRun(m: Cells, live: map<nat, nat>, i: nat, n: nat, s: nat)
    requires Tiled(m, live) && 1 <= n && FreeRun(m, i, n) && s in live
    ensures s != i
  {
    FreeRunMissesBlocks(m, live, i, n, s);
    assert Countdown(m, s, live[s]);
  }

  lemma {:induction false} MarkedCountsDown(m: Cells, live: map<nat, nat>, i: nat, n: nat, s: nat)
    requires Tiled(m, live) && 1 <= n <= 255 && FreeRun(m, i, n) && s in live[i := n]
    ensures Countdown(Marked(m, i, n), s, live[i := n][s])
  {
    var m' := Marked(m, i, n);
    if s != i {
      FreeRunMissesBlocks(m, live, i, n, s);
      CountdownElsewhere(m, m', s, live[s]);
    } else {
      forall k | i <= k < i + n ensures m'[k] == n - (k - i) {
        assert m'[k] == StoredCount(n, k - i);
      }
    }
  }

  /** A block of more than 255 chunks has a cell that reads as free, 256 cells before its end. */
  lemma {:induction false} MarkedReadsFreeIff(m: Cells, i: nat, n: nat)
    requires i + n <= |m|
    ensures (exists k :: i <= k < i + n && Marked(m, i, n)[k] == 0) <==> n > 255
  {
    var m' := Marked(m, i, n);
    if n > 255 {
      assert m'[i + n - 256] == StoredCount(n, n - 256) == 0;
    } else {
      forall k | i <= k < i + n ensures m'[k] != 0 {
        assert m'[k] == StoredCount(n, k - i);
      }
    }
  }

  /**
   Marking a free run adds a block to the tiling exactly when its count fits a map byte; a
   larger block is live although some of its cells read as free.
   */
  lemma {:induction false} MarkedIsTiledIff(m: Cells, live: map<nat, nat>, i: nat, n: nat)
    requires Tiled(m, live) && 1 <= n && FreeRun(m, i, n)
    ensures i !in live
    ensures Tiled(Marked(m, i, n), live[i := n]) <==> n <= 255
    ensures (exists k :: i <= k < i + n && Marked(m, i, n)[k] == 0) <==> n > 255
  {
    MarkedReadsFreeIff(m, i, n);
    if i in live {
      NotTheFreeRun(m, live, i, n, i);
    }
    if n <= 255 {
      MarkedIsTiled(m, live, i, n);
    } else {
      TiledHasNoGap(Marked(m, i, n), live[i := n], i);
    }
  }

  lemma {:induction false} TiledHasNoGap(m: Cells, live: map<nat, nat>, s: nat)
    requires s in live
    ensures Tiled(m, live) ==> s + live[s] <= |m| && forall k :: s <= k < s + live[s] ==> m[k] != 0
  {
    if Tiled(m, live) {
      assert Countdown(m, s, live[s]);
    }
  }

  /** A request for the largest size the allocator advertises, on an arena with nothing allocated. */
  lemma {:induction false} AdvertisedSizeReadsFree(m: Cells)
    requires |m| == 1024 && FreeRun(m, 0, 1024)
    ensures ChunksFor(4096) == 256 && CircularFit(m, 0, 256) == Some(0)
    ensures Marked(m, 0, 256)[0] == 0 && !Tiled(Marked(m, 0, 256), map[0 := 256])
  {
    FirstFitIsFirst(m, 0, 256);
    assert FreeRun(m, 0, 256);
    var none: map<nat, nat> := map[];
    MarkedIsTiledIff(m, none, 0, 256);
    assert none[0 := 256] == map[0 := 256];
    assert Marked(m, 0, 256)[0] == MarkedCell(m, 0, 256, 0);
  }

  lemma {:induction false} BlockOf(m: Cells, live: map<nat, nat>, k: nat) returns (s: nat)
    requires Tiled(m, live) && k < |m| && m[k] != 0
    ensures s in live && s <= k < s + live[s] && Countdown(m, s, live[s])
  {
    s :| s in live && s <= k < s + live[s];
  }

  /** In a tiled map a used cell is the start of a block exactly when the count before it ends. */
  lemma {:induction false} StartOfBlockIff(m: Cells, live: map<nat, nat>, i: nat)
    requires Tiled(m, live) && i < |m| && m[i] != 0
    ensures i in live <==> i == 0 || m[i - 1] <= 1
  {
    var s := BlockOf(m, live, i);
    if i > 0 && m[i - 1] != 0 {
      var t: nat := BlockOf(m, live, i - 1);
      assert i in live ==> t + live[t] <= i;
    }
  }

  /** Freeing a block undoes its allocation, byte for byte. */
  lemma ClearUndoesMark(m: Cells, i: nat, n: nat)
    requires 1 <= n <= 255 && FreeRun(m, i, n)
    ensures Cleared(Marked(m, i, n), i) == m
  {
    var m' := Marked(m, i, n);
    assert m'[i] == n;
    forall k | 0 <= k < |m| ensures Cleared(m', i)[k] == m[k] {
      assert Cleared(m', i)[k] == ClearedCell(m', i, k) && m'[k] == MarkedCell(m, i, n, k);
    }
  }

  lemma ClearedIsTiled(m: Cells, live: map<nat, nat>, i: nat)
    requires Tiled(m, live) && i in live
    ensures i < |m| && m[i] == live[i] && Tiled(Cleared(m, i), live - {i})
  {
    assert Countdown(m, i, live[i]);
    var m', live' := Cleared(m, i), live - {i};
    forall s | s in live' ensures Countdown(m', s, live'[s]) {
      assert Countdown(m, s, live[s]);
      assert s < i ==> s + live[s] <= i;
      assert i < s ==> i + live[i] <= s;
    }
    forall k | 0 <= k < |m'| && m'[k] != 0 ensures exists s :: s in live' && s <= k < s + live'[s] {
      var s :| s in live && s <= k < s + live[s];
      assert s != i;
      assert s in live' && live'[s] == live[s];
    }
  }

  /** Freeing a pointer into a block leaves a proper map exactly when it points to its start. */
  lemma ClearedIsDescendingIff(m: Cells, i: nat)
    requires Descending(m) && i < |m| && m[i] != 0
    ensures Descending(Cleared(m, i)) <==> i == 0 || m[i - 1] <= 1
  {
    SkipIsSafe(m, i);
    var m' := Cleared(m, i);
    if i > 0 && m[i - 1] > 1 {
      assert m'[i - 1] > 1 && m'[i] == 0;
    } else {
      forall k | 0 <= k < |m'| && m'[k] > 1 ensures k + 1 < |m'| && m'[k + 1] == m'[k] - 1 {
        assert m[k] > 1;
        assert k + 1 != i;
      }
    }
  }

  /** Freeing the second chunk of a block of two leaves a count that leads past free cells. */
  lemma {:induction false} InnerPointerMisleads(m: Cells)
    requires m == [2, 1]
    ensures Descending(m) && Cleared(m, 1) == [2, 0] && !Descending(Cleared(m, 1))
  {
    var c := Cleared(m, 1);
    assert c[0] == ClearedCell(m, 1, 0) && c[1] == ClearedCell(m, 1, 1);
    ClearedIsDescendingIff(m, 1);
  }

  /** The first index from `from` on where `n` free cells start, short of the last window. */
  ghost function FirstFit(m: Cells, from: nat, n: nat): Option<nat>
    decreases |m| - from
  {
    if from + n >= |m| then None
    else if FreeRun(m, from, n) then Some(from)
    else FirstFit(m, from + 1, n)
  }

  lemma {:induction false} FirstFitSkips(m: Cells, from: nat, past: nat, n: nat)
    requires from <= past
    requires forall j :: from <= j < past ==> !FreeRun(m, j, n)
    ensures FirstFit(m, from, n) == FirstFit(m, past, n)
    decreases past
  {
    if from < past {
      FirstFitSkips(m, from, past - 1, n);
      assert !FreeRun(m, past - 1, n);
    }
  }

  /** First fit from `start`, then once more from the beginning. */
  ghost function CircularFit(m: Cells, start: nat, n: nat): Option<nat> {
    if FirstFit(m, start, n).Some? then FirstFit(m, start, n) else FirstFit(m, 0, n)
  }

  lemma {:induction false} FirstFitIsFirst(m: Cells, from: nat, n: nat)
    ensures match FirstFit(m, from, n)
            case Some(i) => from <= i < |m| - n && FreeRun(m, i, n) && (forall j :: from <= j < i ==> !FreeRun(m, j, n))
            case None => forall j :: from <= j < |m| - n ==> !FreeRun(m, j, n)
    decreases |m| - from
  {
    if from + n < |m| && !FreeRun(m, from, n) {
      FirstFitIsFirst(m, from + 1, n);
    }
  }

  /**
   From any start and for any fragmentation the search fails exactly when no window of
   free cells starts before the last one, and otherwise takes the first in cyclic order.
   */
  lemma CircularFitFailsIffNoRoom(m: Cells, start: nat, n: nat)
    ensures CircularFit(m, start, n).None? <==> forall j :: 0 <= j < |m| - n ==> !FreeRun(m, j, n)
    ensures CircularFit(m, start, n).Some? ==>
              var i := CircularFit(m, start, n).value;
              && 0 <= i < |m| - n && FreeRun(m, i, n)
              && (i >= start ==> forall j :: start <= j < i ==> !FreeRun(m, j, n))
              && (i < start ==>
                    && (forall j :: start <= j < |m| - n ==> !FreeRun(m, j, n))
                    && (forall j :: 0 <= j < i ==> !FreeRun(m, j, n)))
  {
    FirstFitIsFirst(m, start, n);
    FirstFitIsFirst(m, 0, n);
  }

  class Bucket {
    const pmem: array<Byte>
    var lastAllocation: nat
    var lastFree: nat
    var allocCalls: nat
    var allocCallsFailed: nat
    var freeCalls: nat
    var wrap: nat
    ghost var live: map<nat, nat>

    ghost predicate Valid()
      reads this, pmem
    {
      Tiled(pmem[..], live) && |live| == allocCalls - freeCalls
    }

    constructor (maxChunks: nat)
      ensures Valid() && fresh(pmem) && pmem.Length == maxChunks && live == map[]
      ensures lastAllocation == 0 && lastFree == 0
      ensures allocCalls == 0 && allocCallsFailed == 0 && freeCalls == 0 && wrap == 0
    {
      pmem := new Byte[maxChunks](i => 0);
      lastAllocation, lastFree := 0, 0;
      allocCalls, allocCallsFailed, freeCalls, wrap := 0, 0, 0, 0;
      live := map[];
    }

    /** Scans from `start` for `chunks` free cells, skipping blocks by their counts. */
    method Scan(start: nat, chunks: nat) returns (found: Option<nat>)
      requires Descending(pmem[..]) && chunks >= 1
      ensures found == FirstFit(pmem[..], start, chunks)
    {
      ghost var m := pmem[..];
      var i := start;
      while i < pmem.Length - chunks
        invariant start <= i
        invariant FirstFit(m, start, chunks) == FirstFit(m, i, chunks)
        decreases pmem.Length - i
      {
        ghost var first := i;
        if pmem[i] == 0 {
          var end := i + chunks;
          while i < end && pmem[i] == 0
            invariant first <= i <= end
            invariant forall k :: first <= k < i ==> m[k] == 0
          {
            i := i + 1;
          }
          if i == end {
            return Some(i - chunks);
          }
          assert m[i] != 0;
          i := i + 1;
        } else {
          SkipIsSafe(m, i);
          i := i + pmem[i];
        }
        forall j | first <= j < i ensures !FreeRun(m, j, chunks) {
          assert m[j] != 0 || m[i - 1] != 0;
        }
        FirstFitSkips(m, first, i, chunks);
      }
      return None;
    }

    method Mark(i: nat, chunks: nat)
      requires i + chunks <= pmem.Length
      modifies pmem
      ensures pmem[..] == Marked(old(pmem[..]), i, chunks)
    {
      var k, size := 0, chunks;
      while k < chunks
        invariant 0 <= k <= chunks && size == chunks - k
        invariant forall j :: 0 <= j < pmem.Length ==>
          pmem[j] == if i <= j < i + k then StoredCount(chunks, j - i) else old(pmem[j])
      {
        pmem[i + k] := size % 256;
        k, size := k + 1, size - 1;
      }
    }

    /** Turns a free run into a live block; the map stays in shape if its count fits a byte. */
    method Take(i: nat, chunks: nat)
      requires Valid() && 1 <= chunks && FreeRun(pmem[..], i, chunks)
      modifies this, pmem
      ensures Valid() <==> chunks <= 255
      ensures i !in old(live) && live == old(live)[i := chunks]
      ensures pmem[..] == Marked(old(pmem[..]), i, chunks)
      ensures lastAllocation == i && allocCalls == old(allocCalls) + 1
      ensures unchanged(this`freeCalls, this`allocCallsFailed, this`wrap)
    {
      MarkedIsTiledIff(pmem[..], live, i, chunks);
      Mark(i, chunks);
      live := live[i := chunks];
      lastAllocation, allocCalls := i, allocCalls + 1;
    }

    /**
     Circular first fit: at most one restart from the beginning of the map. The map stays in
     shape exactly for blocks of at most 255 chunks.
     */
    method Alloc(size: nat) returns (index: Option<nat>)
      requires Valid()
      modifies this, pmem
      ensures Valid() <==> index.None? || ChunksFor(size) <= 255
      ensures index == CircularFit(old(pmem[..]), old(lastAllocation), ChunksFor(size))
      ensures match index
              case Some(i) =>
                && i !in old(live) && live == old(live)[i := ChunksFor(size)] && lastAllocation == i
                && i + ChunksFor(size) <= pmem.Length
                && pmem[..] == Marked(old(pmem[..]), i, ChunksFor(size))
                && allocCalls == old(allocCalls) + 1 && allocCallsFailed == old(allocCallsFailed)
              case None =>
                && live == old(live) && pmem[..] == old(pmem[..])
                && allocCalls == old(allocCalls) && allocCallsFailed == old(allocCallsFailed) + 1
      ensures freeCalls == old(freeCalls)
      ensures wrap == old(wrap) +
        if old(lastAllocation) != 0 && FirstFit(old(pmem[..]), old(lastAllocation), ChunksFor(size)).None? then 1 else 0
      decreases lastAllocation
    {
      TiledIsDescending(pmem[..], live);
      var chunks := ChunksFor(size);
      var start := lastAllocation;
      var found := Scan(start, chunks);
      if found.Some? {
        FirstFitIsFirst(pmem[..], start, chunks);
        Take(found.value, chunks);
        return found;
      }
      if start != 0 {
        lastAllocation, lastFree, wrap := 0, 0, wrap + 1;
        index := Alloc(size);
        return;
      }
      allocCallsFailed := allocCallsFailed + 1;
      return None;
    }

    method Clear(i: nat)
      requires i < pmem.Length && i + pmem[i] <= pmem.Length
      modifies pmem
      ensures pmem[..] == Cleared(old(pmem[..]), i)
    {
      var size := pmem[i];
      var k := 0;
      while k < size
        invariant 0 <= k <= size
        invariant forall j :: 0 <= j < pmem.Length ==> pmem[j] == if i <= j < i + k then 0 else old(pmem[j])
      {
        pmem[i + k] := 0;
        k := k + 1;
      }
    }

    /**
     Frees the block at `offset` bytes from the first chunk. A pointer into a block frees its
     end only, and leaves a map on which scans go astray.
     */
    method Free(offset: int)
      requires Valid()
      modifies this, pmem
      ensures var i := offset / ALIGN_SIZE;
              if 0 <= i < pmem.Length && old(pmem[..])[i] != 0 then
                && pmem[..] == Cleared(old(pmem[..]), i) && freeCalls == old(freeCalls) + 1
                && live == old(live) - {i}
                && (Valid() <==> i in old(live)) && (Descending(pmem[..]) <==> i in old(live))
              else
                && Valid() && i !in old(live)
                && live == old(live) && pmem[..] == old(pmem[..]) && freeCalls == old(freeCalls)
      ensures allocCalls == old(allocCalls)
    {
      ghost var m := pmem[..];
      var delta := offset / ALIGN_SIZE;
      assert delta in live ==> Countdown(m, delta, live[delta]);
      if delta < 0 || delta >= pmem.Length || pmem[delta] == 0 {
        return;
      }
      TiledIsDescending(m, live);
      SkipIsSafe(m, delta);
      StartOfBlockIff(m, live, delta);
      ClearedIsDescendingIff(m, delta);
      if delta in live {
        ClearedIsTiled(m, live, delta);
      }
      lastFree := delta;
      Clear(delta);
      live, freeCalls := live - {delta}, freeCalls + 1;
    }
  }
}
