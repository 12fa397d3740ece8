/**
  The index iterator (`AccountsIndexIterator` in `accounts-db/src/accounts_index.rs`): a walk over the
  bins of the index in chunks, while other threads keep changing the bins.
 */
module IndexIterator {
  import opened Wrappers
  import opened Pubkeys

  const ITER_BATCH_SIZE: nat := 1000

  const USIZE_MAX: nat := U64_MAX

  datatype Bound = Unbounded | Included(key: Pubkey) | Excluded(key: Pubkey)

  predicate InRange(start: Bound, end: Bound, k: Pubkey) {
    && (start.Unbounded? || start.key < k || (start.Included? && start.key == k))
    && (end.Unbounded? || k < end.key || (end.Included? && end.key == k))
  }

  /** The ranges `a..b`, `a..=b`, `(a, b)` and `(a, b]`, and the unbounded ones. */
  lemma RangesContain(a: Pubkey, b: Pubkey, k: Pubkey)
    ensures InRange(Included(a), Excluded(b), k) <==> a <= k < b
    ensures InRange(Included(a), Included(b), k) <==> a <= k <= b
    ensures InRange(Excluded(a), Excluded(b), k) <==> a < k < b
    ensures InRange(Excluded(a), Included(b), k) <==> a < k <= b
    ensures InRange(Unbounded, Excluded(b), k) <==> k < b
    ensures InRange(Unbounded, Included(b), k) <==> k <= b
    ensures InRange(Included(a), Unbounded, k) <==> a <= k
    ensures InRange(Excluded(a), Unbounded, k) <==> a < k
    ensures InRange(Unbounded, Unbounded, k)
  {
  }

  /** What one call of `next` finds: the keys each bin holds at the moment the call reads it. */
  type Maps = seq<set<Pubkey>>

  /** Every key is in its own bin. */
  ghost predicate Placed(maps: Maps, bin: Pubkey -> nat, bins: nat) {
    |maps| == bins && forall j, k :: 0 <= j < |maps| && k in maps[j] ==> bin(k) == j
  }

  ghost predicate Ascending(keys: seq<Pubkey>) {
    forall i, j :: 0 <= i < j < |keys| ==> keys[i] < keys[j]
  }

  ghost predicate Distinct(keys: seq<Pubkey>) {
    forall i, j :: 0 <= i < j < |keys| ==> keys[i] != keys[j]
  }

  /** Held by one of the first `n` bins, and in range. */
  ghost predicate Held(maps: Maps, n: nat, start: Bound, end: Bound, k: Pubkey) {
    InRange(start, end, k) && exists j :: 0 <= j < n && j < |maps| && k in maps[j]
  }

  // ---------------------------------------------------------------- one bin

  /** The keys of a bin in range, in the hash map's order. */
  method Items(keys: set<Pubkey>, start: Bound, end: Bound) returns (r: seq<Pubkey>)
    ensures Distinct(r) && forall k :: k in r <==> k in keys && InRange(start, end, k)
  {
    r := [];
    var rest := keys;
    while rest != {}
      invariant rest <= keys && Distinct(r)
      invariant forall k :: k in r <==> k in keys - rest && InRange(start, end, k)
    {
      var k :| k in rest;
      rest := rest - {k};
      if InRange(start, end, k) { r := r + [k]; }
    }
  }

  function InsertKey(s: seq<Pubkey>, k: Pubkey): seq<Pubkey> {
    if |s| == 0 || s[|s| - 1] < k then s + [k] else InsertKey(s[..|s| - 1], k) + [s[|s| - 1]]
  }

  lemma {:induction false} InsertKeyAscending(s: seq<Pubkey>, k: Pubkey)
    requires Ascending(s) && k !in s
    ensures Ascending(InsertKey(s, k)) && forall x :: x in InsertKey(s, k) <==> x in s || x == k
  {
    if |s| > 0 && s[|s| - 1] > k {
      var front, last := s[..|s| - 1], s[|s| - 1];
      InsertKeyAscending(front, k);
      assert s == front + [last];
      forall i | 0 <= i < |InsertKey(front, k)| ensures InsertKey(front, k)[i] < last {
        assert InsertKey(front, k)[i] in InsertKey(front, k);
      }
    }
  }

  method Sort(keys: seq<Pubkey>) returns (r: seq<Pubkey>)
    requires Distinct(keys)
    ensures Ascending(r) && forall k :: k in r <==> k in keys
  {
    r := [];
    for i := 0 to |keys|
      invariant Ascending(r) && forall k :: k in r <==> k in keys[..i]
    {
      InsertKeyAscending(r, keys[i]);
      r := InsertKey(r, keys[i]);
      assert keys[..i + 1] == keys[..i] + [keys[i]];
    }
    assert keys[..|keys|] == keys;
  }

  // ---------------------------------------------------------------- which bins

  function BinFromBound(bin: Pubkey -> nat, bound: Bound, unbounded: nat): nat {
    if bound.Unbounded? then unbounded else bin(bound.key)
  }

  function BinStartAndRange(bin: Pubkey -> nat, start: Bound, end: Bound): (nat, nat) {
    var startBin, endBin := BinFromBound(bin, start, 0), BinFromBound(bin, end, USIZE_MAX);
    if startBin > endBin then (startBin, 0)
    else if endBin == USIZE_MAX then (startBin, USIZE_MAX)
    else (startBin, endBin + 1 - startBin)
  }

  /** The bins visited hold every key in range. */
  lemma VisitedBinsSuffice(bin: Pubkey -> nat, bins: nat, start: Bound, end: Bound, k: Pubkey)
    requires Monotone(bin, bins) && bins <= USIZE_MAX && InRange(start, end, k)
    ensures var (first, count) := BinStartAndRange(bin, start, end); first <= bin(k) < first + count
  {
    if !start.Unbounded? { assert bin(start.key) <= bin(k); }
    if !end.Unbounded? { assert bin(k) <= bin(end.key) < USIZE_MAX; }
  }

  /** And only bins between those of the bounds are visited. */
  lemma VisitedBinsAreNeeded(bin: Pubkey -> nat, bins: nat, start: Bound, end: Bound, j: nat)
    requires Monotone(bin, bins) && bins <= USIZE_MAX
    requires var (first, count) := BinStartAndRange(bin, start, end); first <= j < first + count
    ensures (!start.Unbounded? ==> bin(start.key) <= j) && (!end.Unbounded? ==> j <= bin(end.key))
  {
    if !end.Unbounded? { assert bin(end.key) < USIZE_MAX; }
  }

  // ---------------------------------------------------------------- one chunk

  ghost predicate Lists(chunk: seq<Pubkey>, maps: Maps, n: nat, start: Bound, end: Bound) {
    Distinct(chunk) && forall k :: k in chunk <==> Held(maps, n, start, end, k)
  }

  /** A full chunk: a thousand keys, and they are the first ones. */
  ghost predicate Full(chunk: seq<Pubkey>, maps: Maps, start: Bound, end: Bound) {
    && |chunk| == ITER_BATCH_SIZE && Ascending(chunk)
    && forall k :: k in chunk <==> Held(maps, |maps|, start, end, k) && k <= chunk[|chunk| - 1]
  }

  /** The keys found in bin `n`, each once. */
  ghost predicate InBin(items: seq<Pubkey>, maps: Maps, n: nat, start: Bound, end: Bound) {
    n < |maps| && Distinct(items) && forall k :: k in items <==> k in maps[n] && InRange(start, end, k)
  }

  method AppendItems(chunk: seq<Pubkey>, items: seq<Pubkey>, unsorted: bool) returns (r: seq<Pubkey>, full: bool)
    requires !unsorted ==> |chunk| <= ITER_BATCH_SIZE
    ensures full <==> !unsorted && |chunk| + |items| > ITER_BATCH_SIZE
    ensures r == chunk + if full then items[..ITER_BATCH_SIZE - |chunk|] else items
  {
    r := chunk;
    for i := 0 to |items|
      invariant r == chunk + items[..i] && (!unsorted ==> |r| <= ITER_BATCH_SIZE)
    {
      if |r| >= ITER_BATCH_SIZE && !unsorted { return r, true; }
      r := r + [items[i]];
    }
    full := false;
  }

  /** A bin that fits extends the listing by one bin. */
  lemma ListsNext(chunk: seq<Pubkey>, items: seq<Pubkey>, maps: Maps, bin: Pubkey -> nat, bins: nat, n: nat,
                  start: Bound, end: Bound)
    requires Monotone(bin, bins) && Placed(maps, bin, bins)
    requires Lists(chunk, maps, n, start, end) && InBin(items, maps, n, start, end)
    ensures Lists(chunk + items, maps, n + 1, start, end)
    ensures Ascending(chunk) && Ascending(items) ==> Ascending(chunk + items)
  {
    forall i, j | 0 <= i < |chunk| && 0 <= j < |items| ensures chunk[i] < items[j] {
      BelowBin(chunk[i], items[j], maps, bin, bins, n, start, end);
    }
    forall k ensures k in chunk + items <==> Held(maps, n + 1, start, end, k) {
      HeldNext(maps, n, start, end, k);
    }
  }

  lemma HeldNext(maps: Maps, n: nat, start: Bound, end: Bound, k: Pubkey)
    requires n < |maps|
    ensures Held(maps, n + 1, start, end, k) <==> Held(maps, n, start, end, k) || (InRange(start, end, k) && k in maps[n])
  {
  }

  /** Keys of earlier bins are smaller. */
  lemma BelowBin(a: Pubkey, b: Pubkey, maps: Maps, bin: Pubkey -> nat, bins: nat, n: nat, start: Bound, end: Bound)
    requires Monotone(bin, bins) && Placed(maps, bin, bins) && n < |maps|
    requires Held(maps, n, start, end, a) && b in maps[n]
    ensures a < b
  {
    assert bin(a) < bin(b);
  }

  /** Cutting the keys of a bin short fills the chunk with the first keys of all. */
  lemma CutIsFull(chunk: seq<Pubkey>, items: seq<Pubkey>, maps: Maps, bin: Pubkey -> nat, bins: nat, n: nat,
                  start: Bound, end: Bound)
    requires Monotone(bin, bins) && Placed(maps, bin, bins)
    requires Lists(chunk, maps, n, start, end) && InBin(items, maps, n, start, end)
    requires Ascending(chunk) && Ascending(items) && |chunk| <= ITER_BATCH_SIZE < |chunk| + |items|
    ensures Full(chunk + items[..ITER_BATCH_SIZE - |chunk|], maps, start, end)
  {
    ListsNext(chunk, items, maps, bin, bins, n, start, end);
    var whole, r := chunk + items, chunk + items[..ITER_BATCH_SIZE - |chunk|];
    assert r == whole[..ITER_BATCH_SIZE];
    var last := r[|r| - 1];
    assert last == whole[ITER_BATCH_SIZE - 1] && last in whole;
    forall k ensures k in r <==> Held(maps, |maps|, start, end, k) && k <= last {
      if k in r {
        var i :| 0 <= i < |r| && r[i] == k;
        assert whole[i] == k && k in whole;
      } else if Held(maps, |maps|, start, end, k) && k <= last {
        UpToLast(whole, maps, bin, bins, n, start, end, k, last);
      }
    }
  }

  /** A key in range not above a listed one has been listed. */
  lemma UpToLast(whole: seq<Pubkey>, maps: Maps, bin: Pubkey -> nat, bins: nat, n: nat, start: Bound, end: Bound,
                 k: Pubkey, last: Pubkey)
    requires Monotone(bin, bins) && Placed(maps, bin, bins) && Lists(whole, maps, n + 1, start, end)
    requires last in whole && Held(maps, |maps|, start, end, k) && k <= last
    ensures k in whole
  {
    assert Held(maps, n + 1, start, end, last);
    assert bin(k) <= bin(last);
  }

  /** The first chunk of what is left, in either mode. */
  ghost predicate FirstChunk(chunk: seq<Pubkey>, unsorted: bool, maps: Maps, start: Bound, end: Bound) {
    && (unsorted ==> Lists(chunk, maps, |maps|, start, end))
    && (!unsorted ==> Ascending(chunk) && |chunk| <= ITER_BATCH_SIZE)
    && (!unsorted ==> Full(chunk, maps, start, end) || Lists(chunk, maps, |maps|, start, end))
  }

  /** Before the first visited bin and after the last there is nothing in range. */
  lemma NothingOutside(maps: Maps, bin: Pubkey -> nat, bins: nat, start: Bound, end: Bound)
    requires Monotone(bin, bins) && Placed(maps, bin, bins) && bins <= USIZE_MAX
    ensures var (first, count) := BinStartAndRange(bin, start, end);
            forall k :: (!Held(maps, first, start, end, k))
                        && (Held(maps, |maps|, start, end, k) ==> Held(maps, first + count, start, end, k))
  {
    var (first, count) := BinStartAndRange(bin, start, end);
    forall k
      ensures !Held(maps, first, start, end, k)
      ensures Held(maps, |maps|, start, end, k) ==> Held(maps, first + count, start, end, k)
    {
      if InRange(start, end, k) { VisitedBinsSuffice(bin, bins, start, end, k); }
    }
  }

  method CollectChunk(maps: Maps, bin: Pubkey -> nat, ghost bins: nat, start: Bound, end: Bound, unsorted: bool)
    returns (chunk: seq<Pubkey>)
    requires Monotone(bin, bins) && Placed(maps, bin, bins) && bins <= USIZE_MAX
    ensures FirstChunk(chunk, unsorted, maps, start, end)
  {
    var (first, count) := BinStartAndRange(bin, start, end);
    NothingOutside(maps, bin, bins, start, end);
    chunk := [];
    var n := first;
    while n < |maps| && n < first + count
      invariant n <= first + count && Lists(chunk, maps, n, start, end)
      invariant !unsorted ==> Ascending(chunk) && |chunk| <= ITER_BATCH_SIZE
    {
      var items := Items(maps[n], start, end);
      if !unsorted { items := Sort(items); }
      ListsNext(chunk, items, maps, bin, bins, n, start, end);
      if !unsorted && |chunk| + |items| > ITER_BATCH_SIZE {
        CutIsFull(chunk, items, maps, bin, bins, n, start, end);
      }
      var full;
      chunk, full := AppendItems(chunk, items, unsorted);
      if full { return; }
      n := n + 1;
    }
    assert forall k :: Held(maps, n, start, end, k) <==> Held(maps, |maps|, start, end, k);
  }

  class AccountsIndexIterator {
    const bin: Pubkey -> nat
    const endBound: Bound
    const collectAllUnsorted: bool
    var startBound: Bound
    var isFinished: bool

    constructor (bin: Pubkey -> nat, start: Bound, end: Bound, collectAllUnsorted: bool)
      ensures this.bin == bin && startBound == start && endBound == end
      ensures this.collectAllUnsorted == collectAllUnsorted && !isFinished
    {
      this.bin, startBound, endBound := bin, start, end;
      this.collectAllUnsorted, isFinished := collectAllUnsorted, false;
    }

    /**
      The next chunk. Sorted: the first keys left, in order, a thousand of them or all. Unsorted:
      all of them at once. The walk ends exactly when nothing is left in range.
     */
    method Next(maps: Maps, ghost bins: nat) returns (r: Option<seq<Pubkey>>)
      requires Monotone(bin, bins) && Placed(maps, bin, bins) && bins <= USIZE_MAX
      modifies this
      ensures old(isFinished) ==> r.None?
      ensures !old(isFinished) && r.None? ==> forall k :: !Held(maps, |maps|, old(startBound), endBound, k)
      ensures r.None? ==> isFinished && startBound == old(startBound)
      ensures r.Some? ==> r.value != [] && FirstChunk(r.value, collectAllUnsorted, maps, old(startBound), endBound)
      ensures r.Some? ==> startBound == Excluded(r.value[|r.value| - 1]) && isFinished == collectAllUnsorted
    {
      if isFinished { return None; }
      var chunk := CollectChunk(maps, bin, bins, startBound, endBound, collectAllUnsorted);
      if chunk == [] {
        isFinished := true;
        return None;
      }
      if collectAllUnsorted { isFinished := true; }
      startBound := Excluded(chunk[|chunk| - 1]);
      r := Some(chunk);
    }
  }

  // ---------------------------------------------------------------- a whole walk

  /** What each call finds; between calls, and between bins, other threads may change anything. */
  type World = nat -> Maps

  ghost predicate AlwaysPlaced(world: World, bin: Pubkey -> nat, bins: nat) {
    forall i: nat :: Placed(world(i), bin, bins)
  }

  ghost predicate SeenAt(world: World, i: nat, k: Pubkey) {
    exists j :: 0 <= j < |world(i)| && k in world(i)[j]
  }

  ghost predicate SeenOnce(world: World, calls: nat, k: Pubkey) {
    exists i :: 0 <= i < calls && SeenAt(world, i, k)
  }

  ghost predicate SeenThroughout(world: World, calls: nat, k: Pubkey) {
    forall i :: 0 <= i < calls ==> SeenAt(world, i, k)
  }

  /** Listed so far: nothing twice, nothing that was not there, and no lasting key passed over. */
  ghost predicate Walked(world: World, calls: nat, start: Bound, end: Bound, keys: seq<Pubkey>, now: Bound, over: bool) {
    && Distinct(keys)
    && (forall k :: k in keys ==> InRange(start, end, k) && SeenOnce(world, calls, k))
    && (forall k :: InRange(start, end, k) && SeenThroughout(world, calls, k)
          ==> k in keys || (!over && InRange(now, end, k)))
  }

  /** Where the walk stands: after the last key listed. */
  ghost predicate Standing(start: Bound, keys: seq<Pubkey>, now: Bound) {
    && (keys == [] ==> now == start)
    && (keys != [] ==> now == Excluded(keys[|keys| - 1]))
  }

  /** The listing of a finished walk. */
  ghost predicate WalkedAll(world: World, calls: nat, start: Bound, end: Bound, keys: seq<Pubkey>) {
    && Distinct(keys)
    && (forall k :: k in keys ==> InRange(start, end, k) && SeenOnce(world, calls, k))
    && (forall k :: InRange(start, end, k) && SeenThroughout(world, calls, k) ==> k in keys)
  }

  function Floor(b: Bound): nat {
    match b
    case Unbounded => 0
    case Included(k) => k
    case Excluded(k) => k + 1
  }

  /** A chunk comes after the keys listed before, and moves the walk forward. */
  lemma ChunkFollows(keys: seq<Pubkey>, chunk: seq<Pubkey>, unsorted: bool, maps: Maps, start: Bound, now: Bound, end: Bound)
    requires Standing(start, keys, now) && chunk != [] && FirstChunk(chunk, unsorted, maps, now, end)
    requires if unsorted then keys == [] else Ascending(keys)
    ensures Distinct(keys + chunk) && (!unsorted ==> Ascending(keys + chunk))
    ensures Floor(now) < Floor(Excluded(chunk[|chunk| - 1]))
  {
    forall j | 0 <= j < |chunk| ensures InRange(now, end, chunk[j]) {
      assert chunk[j] in chunk;
    }
  }

  lemma WalkedSome(world: World, calls: nat, start: Bound, end: Bound, keys: seq<Pubkey>, now: Bound,
                   chunk: seq<Pubkey>, unsorted: bool)
    requires Walked(world, calls, start, end, keys, now, false) && Standing(start, keys, now)
    requires chunk != [] && FirstChunk(chunk, unsorted, world(calls), now, end)
    requires if unsorted then keys == [] else Ascending(keys)
    ensures Walked(world, calls + 1, start, end, keys + chunk, Excluded(chunk[|chunk| - 1]), unsorted)
    ensures !unsorted ==> Ascending(keys + chunk)
  {
    var maps, last := world(calls), chunk[|chunk| - 1];
    forall k | k in chunk ensures Held(maps, |maps|, now, end, k) && SeenAt(world, calls, k) {}
    ChunkFollows(keys, chunk, unsorted, maps, start, now, end);
    forall k | k in keys + chunk ensures InRange(start, end, k) && SeenOnce(world, calls + 1, k) {
      if k in keys {
        var i :| 0 <= i < calls && SeenAt(world, i, k);
      } else {
        assert k in chunk && InRange(now, end, k);
        assert keys != [] ==> keys[|keys| - 1] in keys;
      }
    }
    forall k | InRange(start, end, k) && SeenThroughout(world, calls + 1, k)
      ensures k in keys + chunk || (!unsorted && InRange(Excluded(last), end, k))
    {
      assert SeenAt(world, calls, k);
      assert k in keys || Held(maps, |maps|, now, end, k);
    }
  }

  /** The walk has passed everything once nothing is left. */
  lemma WalkedNone(world: World, calls: nat, start: Bound, end: Bound, keys: seq<Pubkey>, now: Bound, over: bool)
    requires Walked(world, calls, start, end, keys, now, over)
    requires !over ==> forall k :: !Held(world(calls), |world(calls)|, now, end, k)
    ensures WalkedAll(world, calls + 1, start, end, keys)
  {
    forall k | k in keys ensures SeenOnce(world, calls + 1, k) {
      var i :| 0 <= i < calls && SeenAt(world, i, k);
    }
    forall k | InRange(start, end, k) && SeenThroughout(world, calls + 1, k) ensures k in keys {
      assert SeenAt(world, calls, k);
      assert !(!over && InRange(now, end, k)) || Held(world(calls), |world(calls)|, now, end, k);
    }
  }

  /**
    All chunks, one after the other. Whatever other threads do meanwhile, no key is listed twice,
    only keys that were there are listed, and a key in range that was there throughout is listed.
   */
  method ScanAll(it: AccountsIndexIterator, world: World, ghost bins: nat) returns (keys: seq<Pubkey>, calls: nat)
    requires Monotone(it.bin, bins) && AlwaysPlaced(world, it.bin, bins) && bins <= USIZE_MAX && !it.isFinished
    modifies it
    ensures calls > 0 && WalkedAll(world, calls, old(it.startBound), it.endBound, keys)
    ensures !it.collectAllUnsorted ==> Ascending(keys)
  {
    ghost var start, end := it.startBound, it.endBound;
    keys, calls := [], 0;
    while true
      invariant Walked(world, calls, start, end, keys, it.startBound, it.isFinished)
      invariant Standing(start, keys, it.startBound)
      invariant if it.collectAllUnsorted then !it.isFinished ==> keys == [] else !it.isFinished && Ascending(keys)
      decreases if it.isFinished then 0 else SPACE + 1 - Floor(it.startBound)
    {
      ghost var now, over := it.startBound, it.isFinished;
      var chunk := it.Next(world(calls), bins);
      if chunk.None? {
        WalkedNone(world, calls, start, end, keys, now, over);
        calls := calls + 1;
        return;
      }
      ChunkFollows(keys, chunk.value, it.collectAllUnsorted, world(calls), start, now, end);
      WalkedSome(world, calls, start, end, keys, now, chunk.value, it.collectAllUnsorted);
      keys, calls := keys + chunk.value, calls + 1;
    }
  }

  /** With nobody else changing the index, the listing is exact. */
  lemma QuietScanIsExact(world: World, maps: Maps, start: Bound, end: Bound, calls: nat, keys: seq<Pubkey>, k: Pubkey)
    requires calls > 0 && WalkedAll(world, calls, start, end, keys) && forall i: nat :: world(i) == maps
    ensures k in keys <==> Held(maps, |maps|, start, end, k)
  {
    if k in keys {
      var i :| 0 <= i < calls && SeenAt(world, i, k);
    } else if Held(maps, |maps|, start, end, k) {
      var j :| 0 <= j < |maps| && k in maps[j];
      forall i: nat | i < calls ensures SeenAt(world, i, k) { assert k in world(i)[j]; }
    }
  }
}
