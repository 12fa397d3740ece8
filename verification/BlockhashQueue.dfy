/**
  The queue of recent block hashes (`accounts-db/src/blockhash_queue.rs`): which hashes a transaction
  may still refer to.
 */
module BlockhashQueues {
  import opened Wrappers
  import opened Pubkeys

  /** Position `i` is the hash registered under index `i`; index 0 is the genesis hash, if any. */
  type Log = seq<Option<Hash>>

  /** The latest index a hash was registered under. */
  function LatestIndex(log: Log, h: Hash): (r: Option<nat>)
    ensures r.Some? ==> r.value < |log| && log[r.value] == Some(h)
  {
    if |log| == 0 then None
    else if log[|log| - 1] == Some(h) then Some(|log| - 1)
    else LatestIndex(log[..|log| - 1], h)
  }

  /** How many registrations ago a hash was last registered is at most `age`. */
  ghost predicate RegisteredWithin(log: Log, h: Hash, age: nat) {
    LatestIndex(log, h).Some? && |log| - 1 - LatestIndex(log, h).value <= age
  }

  lemma {:induction false} LatestIndexIsLast(log: Log, h: Hash, i: nat)
    requires i < |log| && log[i] == Some(h)
    ensures LatestIndex(log, h).Some? && i <= LatestIndex(log, h).value
  {
    if log[|log| - 1] != Some(h) { LatestIndexIsLast(log[..|log| - 1], h, i); }
  }

  /** At most one hash per index in an interval. */
  lemma {:induction false} DistinctIndexes(hashes: map<Hash, nat>, lo: nat, hi: nat)
    requires forall h :: h in hashes ==> lo <= hashes[h] < hi
    requires forall g, h :: g in hashes && h in hashes && hashes[g] == hashes[h] ==> g == h
    ensures |hashes| <= if lo <= hi then hi - lo else 0
    decreases hi
  {
    if hashes.Keys == {} {
      assert |hashes| == |hashes.Keys|;
    } else {
      var any :| any in hashes.Keys;
      if h :| h in hashes && hashes[h] == hi - 1 {
        var fewer := hashes - {h};
        assert hashes.Keys == fewer.Keys + {h} && |hashes| == |hashes.Keys| && |fewer| == |fewer.Keys|;
        DistinctIndexes(fewer, lo, hi - 1);
      } else {
        DistinctIndexes(hashes, lo, hi - 1);
      }
    }
  }

  /** One hash for every index in an interval. */
  lemma {:induction false} EveryIndexTaken(log: Log, hashes: map<Hash, nat>, lo: nat, hi: nat)
    requires lo <= hi <= |log|
    requires forall i :: lo <= i < hi ==> log[i].Some? && log[i].value in hashes && hashes[log[i].value] == i
    ensures |hashes| >= hi - lo
    decreases hi
  {
    if lo < hi {
      var h := log[hi - 1].value;
      var fewer := hashes - {h};
      assert hashes.Keys == fewer.Keys + {h} && |hashes| == |hashes.Keys| && |fewer| == |fewer.Keys|;
      EveryIndexTaken(log, fewer, lo, hi - 1);
    }
  }

  // ---------------------------------------------------------------- the queue against the log

  /** Every entry carries its latest index, and every hash young enough has an entry. */
  ghost predicate Tracks(log: Log, hashes: map<Hash, nat>, maxAge: nat) {
    && log != [] && (forall i :: 1 <= i < |log| ==> log[i].Some?)
    && (forall h :: h in hashes ==> LatestIndex(log, h) == Some(hashes[h]))
    && (forall h :: RegisteredWithin(log, h, maxAge) ==> h in hashes)
  }

  ghost predicate AllDistinct(log: Log) {
    forall i, j :: 0 <= i < j < |log| ==> log[i] != log[j]
  }

  /** No entry is older than the queue's age. */
  ghost predicate NoneStale(log: Log, hashes: map<Hash, nat>, maxAge: nat) {
    forall h :: h in hashes ==> RegisteredWithin(log, h, maxAge)
  }

  predicate IsHashIndexValid(last: nat, maxAge: nat, index: nat) { last - index <= maxAge }

  function Retained(hashes: map<Hash, nat>, last: nat, maxAge: nat): map<Hash, nat> {
    map h | h in hashes && IsHashIndexValid(last, maxAge, hashes[h]) :: hashes[h]
  }

  function Registered(hashes: map<Hash, nat>, last: nat, maxAge: nat, hash: Hash): map<Hash, nat> {
    (if |hashes| < maxAge then hashes else Retained(hashes, last, maxAge))[hash := last]
  }

  lemma LatestIndexAppend(log: Log, hash: Hash, h: Hash)
    ensures LatestIndex(log + [Some(hash)], h) == if h == hash then Some(|log|) else LatestIndex(log, h)
  {
    assert (log + [Some(hash)])[..|log|] == log;
  }

  lemma RegisterTracks(log: Log, hashes: map<Hash, nat>, maxAge: nat, hash: Hash)
    requires Tracks(log, hashes, maxAge)
    ensures Tracks(log + [Some(hash)], Registered(hashes, |log|, maxAge, hash), maxAge)
  {
    forall h ensures LatestIndex(log + [Some(hash)], h) == if h == hash then Some(|log|) else LatestIndex(log, h) {
      LatestIndexAppend(log, hash, h);
    }
  }

  lemma RetainedBounded(log: Log, hashes: map<Hash, nat>, maxAge: nat)
    requires Tracks(log, hashes, maxAge)
    ensures |Retained(hashes, |log|, maxAge)| <= maxAge
  {
    DistinctIndexes(Retained(hashes, |log|, maxAge), if |log| < maxAge then 0 else |log| - maxAge, |log|);
  }

  /** The queue holds at most one more hash than its age. */
  lemma RegisterBounded(log: Log, hashes: map<Hash, nat>, maxAge: nat, hash: Hash)
    requires Tracks(log, hashes, maxAge)
    ensures |Registered(hashes, |log|, maxAge, hash)| <= maxAge + 1
  {
    var kept := if |hashes| < maxAge then hashes else Retained(hashes, |log|, maxAge);
    if |hashes| >= maxAge { RetainedBounded(log, hashes, maxAge); }
    assert kept[hash := |log|].Keys == kept.Keys + {hash};
    assert |kept[hash := |log|]| == |kept[hash := |log|].Keys| && |kept| == |kept.Keys|;
  }

  /** The entry of another hash is about to pass the queue's age. */
  ghost predicate Expiring(log: Log, hashes: map<Hash, nat>, maxAge: nat, hash: Hash, h: Hash) {
    h in hashes && h != hash && |log| - hashes[h] > maxAge
  }

  /** A registration leaves a stale entry exactly if one expires while the queue is shorter than its age. */
  lemma StaleExactly(log: Log, hashes: map<Hash, nat>, maxAge: nat, hash: Hash)
    requires Tracks(log, hashes, maxAge)
    ensures NoneStale(log + [Some(hash)], Registered(hashes, |log|, maxAge, hash), maxAge)
       <==> |hashes| >= maxAge || forall h :: !Expiring(log, hashes, maxAge, hash, h)
  {
    forall h ensures LatestIndex(log + [Some(hash)], h) == if h == hash then Some(|log|) else LatestIndex(log, h) {
      LatestIndexAppend(log, hash, h);
    }
    if h :| |hashes| < maxAge && Expiring(log, hashes, maxAge, hash, h) {
      assert h in Registered(hashes, |log|, maxAge, hash);
    } else {
      forall h | h in Registered(hashes, |log|, maxAge, hash) ensures RegisteredWithin(log + [Some(hash)], h, maxAge) {
        assert |hashes| >= maxAge || !Expiring(log, hashes, maxAge, hash, h);
      }
    }
  }

  /** While no hash is registered twice, that never happens. */
  lemma RegisterDropsStale(log: Log, hashes: map<Hash, nat>, maxAge: nat, hash: Hash)
    requires Tracks(log, hashes, maxAge) && NoneStale(log, hashes, maxAge) && AllDistinct(log + [Some(hash)])
    ensures NoneStale(log + [Some(hash)], Registered(hashes, |log|, maxAge, hash), maxAge)
  {
    StaleExactly(log, hashes, maxAge, hash);
    assert AllDistinct(log) by { assert (log + [Some(hash)])[..|log|] == log; }
    if h :| Expiring(log, hashes, maxAge, hash, h) {
      OldestMeansMany(log, hashes, maxAge, hashes[h]);
    }
  }

  lemma OldestMeansMany(log: Log, hashes: map<Hash, nat>, maxAge: nat, oldest: nat)
    requires Tracks(log, hashes, maxAge) && AllDistinct(log)
    requires oldest < |log| && log[oldest].Some? && |log| - 1 - oldest <= maxAge
    ensures |hashes| >= |log| - oldest
  {
    forall i | oldest <= i < |log| ensures log[i].Some? && log[i].value in hashes && hashes[log[i].value] == i {
      LatestIndexIsLast(log, log[i].value, i);
      assert RegisteredWithin(log, log[i].value, maxAge);
    }
    EveryIndexTaken(log, hashes, oldest, |log|);
  }

  /** The queue after registering the hashes of a log in order. */
  function Run(log: Log, maxAge: nat): map<Hash, nat>
    requires log != [] && forall i :: 1 <= i < |log| ==> log[i].Some?
  {
    if |log| == 1 then (if log[0].Some? then map[log[0].value := 0] else map[])
    else Registered(Run(log[..|log| - 1], maxAge), |log| - 1, maxAge, log[|log| - 1].value)
  }

  lemma RunAppend(log: Log, maxAge: nat, hash: Hash)
    requires log != [] && forall i :: 1 <= i < |log| ==> log[i].Some?
    ensures Run(log + [Some(hash)], maxAge) == Registered(Run(log, maxAge), |log|, maxAge, hash)
  {
    assert (log + [Some(hash)])[..|log|] == log;
  }

  /** Whatever is registered, and how often: entries carry their latest index, and are few. */
  lemma {:induction false} RunTracks(log: Log, maxAge: nat)
    requires log != [] && forall i :: 1 <= i < |log| ==> log[i].Some?
    ensures Tracks(log, Run(log, maxAge), maxAge) && |Run(log, maxAge)| <= maxAge + 1
  {
    if |log| > 1 {
      var front, h := log[..|log| - 1], log[|log| - 1].value;
      RunTracks(front, maxAge);
      assert log == front + [Some(h)];
      RunAppend(front, maxAge, h);
      RegisterTracks(front, Run(front, maxAge), maxAge, h);
      RegisterBounded(front, Run(front, maxAge), maxAge, h);
    } else {
      forall h: Hash ensures LatestIndex(log, h) == if log[0] == Some(h) then Some(0) else None {
        assert log[..0] == [];
      }
    }
  }

  /** The queue held as many hashes as its age when index `j` was registered. */
  ghost predicate FullBefore(log: Log, maxAge: nat, j: nat)
    requires forall i :: 1 <= i < |log| ==> log[i].Some?
  {
    0 < j < |log| && |Run(log[..j], maxAge)| >= maxAge
  }

  /** Some registration after index `from` found as many hashes as the queue's age, and so dropped what was expired. */
  ghost predicate SweptAfter(log: Log, maxAge: nat, from: nat)
    requires forall i :: 1 <= i < |log| ==> log[i].Some?
  {
    exists j :: from < j < |log| && FullBefore(log, maxAge, j)
  }

  /** The hash was registered, and dropped since it expired. */
  ghost predicate Swept(log: Log, maxAge: nat, h: Hash)
    requires forall i :: 1 <= i < |log| ==> log[i].Some?
  {
    LatestIndex(log, h).Some? && SweptAfter(log, maxAge, LatestIndex(log, h).value + maxAge)
  }

  lemma FullBeforePrefix(log: Log, maxAge: nat, j: nat)
    requires log != [] && (forall i :: 1 <= i < |log| ==> log[i].Some?) && j < |log| - 1
    ensures FullBefore(log[..|log| - 1], maxAge, j) <==> FullBefore(log, maxAge, j)
  {
    assert log[..|log| - 1][..j] == log[..j];
  }

  lemma SweptAfterNext(log: Log, maxAge: nat, from: nat)
    requires |log| > 1 && forall i :: 1 <= i < |log| ==> log[i].Some?
    ensures SweptAfter(log, maxAge, from)
       <==> SweptAfter(log[..|log| - 1], maxAge, from) || (from < |log| - 1 && FullBefore(log, maxAge, |log| - 1))
  {
    var n := |log| - 1;
    if SweptAfter(log, maxAge, from) {
      var j :| from < j < |log| && FullBefore(log, maxAge, j);
      if j < n { FullBeforePrefix(log, maxAge, j); }
    }
    if SweptAfter(log[..n], maxAge, from) {
      var j :| from < j < n && FullBefore(log[..n], maxAge, j);
      FullBeforePrefix(log, maxAge, j);
    }
  }

  /** What the queue holds after any run: every hash registered, unless it was swept since. */
  lemma {:induction false} RunHolds(log: Log, maxAge: nat, h: Hash)
    requires log != [] && forall i :: 1 <= i < |log| ==> log[i].Some?
    ensures h in Run(log, maxAge) <==> LatestIndex(log, h).Some? && !Swept(log, maxAge, h)
  {
    var n := |log| - 1;
    if n == 0 {
      assert log[..0] == [];
    } else {
      var front, last := log[..n], log[n].value;
      RunHolds(front, maxAge, h);
      RunTracks(front, maxAge);
      assert log == front + [Some(last)];
      RunAppend(front, maxAge, last);
      LatestIndexAppend(front, last, h);
      if LatestIndex(front, h).Some? { SweptAfterNext(log, maxAge, LatestIndex(front, h).value + maxAge); }
    }
  }

  /** A hash past the queue's age, and not swept: `is_hash_valid` still accepts it. */
  ghost predicate Outlives(log: Log, maxAge: nat, h: Hash)
    requires log != [] && forall i :: 1 <= i < |log| ==> log[i].Some?
  {
    LatestIndex(log, h).Some? && |log| - 1 - LatestIndex(log, h).value > maxAge && !Swept(log, maxAge, h)
  }

  /** Exactly when the queue is free of hashes past its age, after any run. */
  lemma NoneStaleExactly(log: Log, maxAge: nat)
    requires log != [] && forall i :: 1 <= i < |log| ==> log[i].Some?
    ensures NoneStale(log, Run(log, maxAge), maxAge) <==> forall h: Hash :: !Outlives(log, maxAge, h)
  {
    forall h: Hash ensures h in Run(log, maxAge) <==> LatestIndex(log, h).Some? && !Swept(log, maxAge, h) {
      RunHolds(log, maxAge, h);
    }
    if h: Hash :| Outlives(log, maxAge, h) {
      assert h in Run(log, maxAge);
    } else {
      forall h: Hash | h in Run(log, maxAge) ensures RegisteredWithin(log, h, maxAge) { assert !Outlives(log, maxAge, h); }
    }
  }

  /** With no hash registered twice, the queue holds the young hashes and no others. */
  lemma {:induction false} RunDropsStale(log: Log, maxAge: nat)
    requires log != [] && (forall i :: 1 <= i < |log| ==> log[i].Some?) && AllDistinct(log)
    ensures NoneStale(log, Run(log, maxAge), maxAge)
  {
    RunTracks(log, maxAge);
    if |log| > 1 {
      var front, h := log[..|log| - 1], log[|log| - 1].value;
      assert log == front + [Some(h)];
      RunTracks(front, maxAge);
      RunDropsStale(front, maxAge);
      RunAppend(front, maxAge, h);
      RegisterDropsStale(front, Run(front, maxAge), maxAge, h);
    }
  }

  function Repeated(g: Hash, h: Hash, n: nat): Log { [None, Some(g)] + seq(n, _ => Some(h)) }

  function TwoHashes(g: Hash, h: Hash, n: nat): map<Hash, nat> {
    if n == 0 then map[g := 1] else map[g := 1, h := n + 1]
  }

  /** The queue then holds the two hashes, however often the second is registered. */
  lemma {:induction false} RunRepeated(g: Hash, h: Hash, n: nat, maxAge: nat)
    requires g != h && maxAge >= 3
    ensures Run(Repeated(g, h, n), maxAge) == TwoHashes(g, h, n)
  {
    if n == 0 {
      RunOfOne(g, h, maxAge);
    } else {
      RunRepeated(g, h, n - 1, maxAge);
      RepeatedNext(g, h, n);
      RunAppend(Repeated(g, h, n - 1), maxAge, h);
      RegisteredShort(n, maxAge, g, h);
    }
  }

  lemma RunOfOne(g: Hash, h: Hash, maxAge: nat)
    requires maxAge >= 3
    ensures Run(Repeated(g, h, 0), maxAge) == map[g := 1]
  {
    assert Repeated(g, h, 0) == [None] + [Some(g)];
    RunAppend([None], maxAge, g);
  }

  lemma RepeatedNext(g: Hash, h: Hash, n: nat)
    requires n > 0
    ensures Repeated(g, h, n) == Repeated(g, h, n - 1) + [Some(h)]
  {
  }

  lemma RegisteredShort(n: nat, maxAge: nat, g: Hash, h: Hash)
    requires n > 0 && maxAge >= 3 && g != h
    ensures Registered(TwoHashes(g, h, n - 1), n + 1, maxAge, h) == TwoHashes(g, h, n)
  {
    var hashes := TwoHashes(g, h, n - 1);
    assert hashes.Keys == {g} || hashes.Keys == {g, h};
    assert |hashes| == |hashes.Keys|;
  }

  /** So the entry of the first stays, however old it gets. */
  lemma RepeatsLeaveStale(g: Hash, h: Hash, n: nat, maxAge: nat)
    requires g != h && n > maxAge >= 3
    ensures !NoneStale(Repeated(g, h, n), Run(Repeated(g, h, n), maxAge), maxAge)
  {
    var log := Repeated(g, h, n);
    RunRepeated(g, h, n, maxAge);
    RunTracks(log, maxAge);
    assert g in Run(log, maxAge);
  }

  class BlockhashQueue {
    var lastHashIndex: nat
    var lastHash: Option<Hash>
    var hashes: map<Hash, nat>
    const maxAge: nat
    ghost var log: Log

    ghost predicate Valid()
      reads this
    {
      && |log| == lastHashIndex + 1 && lastHash == log[lastHashIndex]
      && (forall i :: 1 <= i < |log| ==> log[i].Some?) && hashes == Run(log, maxAge)
    }

    constructor (maxAge: nat)
      ensures Valid() && this.maxAge == maxAge && log == [None]
    {
      this.maxAge, lastHashIndex, lastHash, hashes, log := maxAge, 0, None, map[], [None];
    }

    /** As the first call it keeps the queue in step with the log; later it still gives the hash index 0. */
    method GenesisHash(hash: Hash)
      modifies this
      ensures hashes == old(hashes)[hash := 0] && lastHash == Some(hash) && lastHashIndex == old(lastHashIndex)
      ensures old(Valid()) && old(log) == [None] ==> Valid() && log == [Some(hash)]
    {
      hashes := hashes[hash := 0];
      lastHash := Some(hash);
      log := [Some(hash)];
    }

    method RegisterHash(hash: Hash)
      requires Valid()
      modifies this
      ensures Valid() && log == old(log) + [Some(hash)]
    {
      ghost var before := hashes;
      lastHashIndex := lastHashIndex + 1;
      if |hashes| >= maxAge {
        hashes := Retained(hashes, lastHashIndex, maxAge);
      }
      hashes := hashes[hash := lastHashIndex];
      lastHash := Some(hash);
      assert hashes == Registered(before, lastHashIndex, maxAge, hash);
      RunAppend(log, maxAge, hash);
      log := log + [Some(hash)];
    }

    /** Exact for every age the queue is kept for, whatever was registered before. */
    method IsHashValidForAge(hash: Hash, age: nat) returns (r: bool)
      requires Valid()
      ensures r ==> RegisteredWithin(log, hash, age)
      ensures age <= maxAge ==> r == RegisteredWithin(log, hash, age)
    {
      RunTracks(log, maxAge);
      r := hash in hashes && IsHashIndexValid(lastHashIndex, age, hashes[hash]);
    }

    /** Ageless validity: what the queue holds, which is right unless the hash outlived its age. */
    method IsHashValid(hash: Hash) returns (r: bool)
      requires Valid()
      ensures r <==> LatestIndex(log, hash).Some? && !Swept(log, maxAge, hash)
      ensures r == RegisteredWithin(log, hash, maxAge) <==> !Outlives(log, maxAge, hash)
      ensures AllDistinct(log) ==> r == RegisteredWithin(log, hash, maxAge)
    {
      RunTracks(log, maxAge);
      RunHolds(log, maxAge, hash);
      if AllDistinct(log) { RunDropsStale(log, maxAge); }
      r := hash in hashes;
    }
  }
}
