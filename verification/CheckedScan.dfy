/**
  A checked scan from end to end (`do_checked_scan_accounts` and `do_scan_accounts` in
  `accounts-db/src/accounts_index.rs`). The walk over the bins, and the lookup of each pubkey it lists,
  happen while the index changes; each bin and each slot list is read at some moment of the scan.
 */
module CheckedScans {
  import opened Wrappers
  import opened Pubkeys
  import opened SlotLists
  import E = SlotEdits
  import I = IndexIterator
  import P = ScanProtocol
  import D = DeadPubkeys
  import T = ScanStability
  import F = ForkedScans

  // ---------------------------------------------------------------- moments of a run

  lemma {:induction false} RunSplit(s: P.State, steps: seq<P.Step>, t: nat)
    requires P.Run(P.All, s, steps) && t <= |steps|
    ensures P.Run(P.All, s, steps[..t]) && P.Run(P.All, P.After(P.All, s, steps[..t]), steps[t..])
    ensures P.After(P.All, P.After(P.All, s, steps[..t]), steps[t..]) == P.After(P.All, s, steps)
    decreases |steps|
  {
    if t == 0 {
      assert steps[..0] == [] && steps[0..] == steps;
    } else {
      RunSplit(P.Apply(s, steps[0]), steps[1..], t - 1);
      assert steps[1..][..t - 1] == steps[..t][1..] && steps[1..][t - 1..] == steps[t..];
    }
  }

  /** The index after `t` steps of the run. */
  ghost function At(s: P.State, steps: seq<P.Step>, t: nat): P.State
    requires P.Run(P.All, s, steps) && t <= |steps|
  {
    RunSplit(s, steps, t);
    P.After(P.All, s, steps[..t])
  }

  /** The pubkey has no lamports and is purged under the scan within the first `t` steps. */
  ghost predicate TakenBy(s: P.State, steps: seq<P.Step>, id: nat, key: Pubkey, t: nat)
    requires P.Run(P.All, s, steps) && t <= |steps|
  {
    RunSplit(s, steps, t);
    T.Taken(s, steps[..t], id, key)
  }

  lemma {:induction false} TakenLater(s: P.State, steps: seq<P.Step>, id: nat, key: Pubkey, t: nat)
    requires P.Run(P.All, s, steps) && t <= |steps| && TakenBy(s, steps, id, key, t)
    ensures T.Taken(s, steps, id, key)
    decreases |steps|
  {
    RunSplit(s, steps, t);
    if !T.Takes(s, steps[0], id, key) {
      assert steps[..t][1..] == steps[1..][..t - 1];
      TakenLater(P.Apply(s, steps[0]), steps[1..], id, key, t - 1);
    }
  }

  /** A run during which scan `id` of a bank that is not removed is under way. */
  ghost predicate Scanning(s: P.State, steps: seq<P.Step>, id: nat) {
    && D.Inv(s) && s.maxExclusive > 0 && id in s.scans && P.EndScan(id) !in steps && P.Run(P.All, s, steps)
    && s.scans[id].bank !in P.After(P.All, s, steps).removed
  }

  lemma SeesTheSame(s: P.State, steps: seq<P.Step>, id: nat, t: nat, key: Pubkey)
    requires Scanning(s, steps, id) && t <= |steps|
    ensures var now := At(s, steps, t);
            && id in now.scans && now.scans[id] == s.scans[id]
            && T.SameOrPurged(P.SeenBy(s, id, key), P.SeenBy(now, id, key), TakenBy(s, steps, id, key, t))
  {
    RunSplit(s, steps, t);
    var now := At(s, steps, t);
    T.ScanIsStable(s, steps[..t], id, key);
    if now.scans[id].bank in now.removed { T.RemovedStays(now, steps[t..], id); }
  }

  // ---------------------------------------------------------------- what the scan reads

  /** The pubkeys of bin `j`. */
  ghost function Bin(index: map<P.Key, SlotList>, bin: Pubkey -> nat, j: nat): set<Pubkey> {
    set k | k in index && bin(k) == j
  }

  /** Call `i` of the walk reads bin `j` after `when(i, j)` steps. */
  ghost predicate ReadFrom(world: I.World, s: P.State, steps: seq<P.Step>, bin: Pubkey -> nat, bins: nat, when: (nat, nat) -> nat)
    requires P.Run(P.All, s, steps)
  {
    forall i: nat, j: nat {:trigger when(i, j)} ::
      |world(i)| == bins && when(i, j) <= |steps| && (j < bins ==> world(i)[j] == Bin(At(s, steps, when(i, j)).index, bin, j))
  }

  lemma ReadsArePlaced(world: I.World, s: P.State, steps: seq<P.Step>, bin: Pubkey -> nat, bins: nat, when: (nat, nat) -> nat)
    requires P.Run(P.All, s, steps) && ReadFrom(world, s, steps, bin, bins, when)
    ensures I.AlwaysPlaced(world, bin, bins)
  {
    forall i: nat ensures I.Placed(world(i), bin, bins) {
      assert when(i, 0) <= |steps|;
      forall j, k | 0 <= j < |world(i)| && k in world(i)[j] ensures bin(k) == j {
        assert when(i, j) <= |steps|;
      }
    }
  }

  /** A pubkey the scan sees, and that is not purged under it, is in its bin whenever the walk reads it. */
  lemma SeenIsThroughout(world: I.World, s: P.State, steps: seq<P.Step>, id: nat, bin: Pubkey -> nat, bins: nat,
                         when: (nat, nat) -> nat, calls: nat, key: Pubkey)
    requires Scanning(s, steps, id) && Monotone(bin, bins) && ReadFrom(world, s, steps, bin, bins, when)
    requires P.SeenBy(s, id, key).Some? && !T.Taken(s, steps, id, key)
    ensures I.SeenThroughout(world, calls, key)
  {
    forall i: nat | i < calls ensures I.SeenAt(world, i, key) {
      var j := bin(key);
      assert when(i, j) <= |steps|;
      SeesTheSame(s, steps, id, when(i, j), key);
      if TakenBy(s, steps, id, key, when(i, j)) { TakenLater(s, steps, id, key, when(i, j)); }
      assert key in world(i)[j];
    }
  }

  // ---------------------------------------------------------------- the scan

  /** What latest_slot finds of the pubkeys listed, in order; a pubkey's list and the roots are read together. */
  function Found(keys: seq<Pubkey>, view: View, roots: Pubkey -> set<Slot>, lists: Pubkey -> SlotList): seq<(Pubkey, Entry)> {
    if |keys| == 0 then []
    else
      var front, k := Found(keys[..|keys| - 1], view, roots, lists), keys[|keys| - 1];
      var e := Latest(view, roots(k), lists(k));
      if e.Some? then front + [(k, e.value)] else front
  }

  lemma {:induction false} FoundMembers(keys: seq<Pubkey>, view: View, roots: Pubkey -> set<Slot>, lists: Pubkey -> SlotList, k: Pubkey, e: Entry)
    ensures (k, e) in Found(keys, view, roots, lists) <==> k in keys && Latest(view, roots(k), lists(k)) == Some(e)
  {
    if |keys| > 0 {
      assert keys == keys[..|keys| - 1] + [keys[|keys| - 1]];
      FoundMembers(keys[..|keys| - 1], view, roots, lists, k, e);
    }
  }

  /** No pubkey is reported twice. */
  ghost predicate Once(found: seq<(Pubkey, Entry)>) {
    forall i, j :: 0 <= i < j < |found| ==> found[i].0 != found[j].0
  }

  lemma {:induction false} FoundOnce(keys: seq<Pubkey>, view: View, roots: Pubkey -> set<Slot>, lists: Pubkey -> SlotList)
    requires I.Distinct(keys)
    ensures Once(Found(keys, view, roots, lists))
  {
    if |keys| > 0 {
      var front, k := keys[..|keys| - 1], keys[|keys| - 1];
      FoundOnce(front, view, roots, lists);
      var found := Found(front, view, roots, lists);
      forall i | 0 <= i < |found| ensures found[i].0 != k {
        assert (found[i].0, found[i].1) in found;
        FoundMembers(front, view, roots, lists, found[i].0, found[i].1);
      }
    }
  }

  method DoScanAccounts(it: I.AccountsIndexIterator, world: I.World, ghost bins: nat, ancestors: set<Slot>, maxRoot: Slot,
                        roots: Pubkey -> set<Slot>, lists: Pubkey -> SlotList)
    returns (found: seq<(Pubkey, Entry)>, ghost calls: nat, ghost keys: seq<Pubkey>)
    requires Monotone(it.bin, bins) && I.AlwaysPlaced(world, it.bin, bins) && bins <= I.USIZE_MAX && !it.isFinished
    modifies it
    ensures I.WalkedAll(world, calls, old(it.startBound), it.endBound, keys)
    ensures found == Found(keys, View(ancestors, Some(maxRoot)), roots, lists)
  {
    var listed, n := I.ScanAll(it, world, bins);
    keys, calls, found := listed, n, [];
    ghost var view := View(ancestors, Some(maxRoot));
    for i := 0 to |listed|
      invariant found == Found(listed[..i], view, roots, lists)
    {
      assert listed[..i + 1][..i] == listed[..i];
      var k := listed[i];
      var at := LatestSlot(Some(ancestors), roots(k), lists(k), Some(maxRoot));
      if at.Some? { found := found + [(k, lists(k)[at.value])]; }
    }
    assert listed[..|listed|] == listed;
  }

  /** The list of pubkey `k`, and the roots, are read after `at(k)` steps. */
  ghost predicate LookedUpIn(roots: Pubkey -> set<Slot>, lists: Pubkey -> SlotList, s: P.State, steps: seq<P.Step>, at: Pubkey -> nat)
    requires P.Run(P.All, s, steps)
  {
    forall k: Pubkey {:trigger at(k)} ::
      at(k) <= |steps| && roots(k) == At(s, steps, at(k)).roots && lists(k) == P.ListOf(At(s, steps, at(k)), k)
  }

  /** Version `v` of `key` is reported. */
  ghost predicate Reports(found: seq<(Pubkey, Entry)>, key: Pubkey, v: E.Version) {
    exists e :: (key, e) in found && E.VersionOf(Some(e)) == Some(v)
  }

  lemma LookupIsSeen(s: P.State, steps: seq<P.Step>, id: nat, roots: Pubkey -> set<Slot>, lists: Pubkey -> SlotList,
                     at: Pubkey -> nat, key: Pubkey)
    requires Scanning(s, steps, id) && LookedUpIn(roots, lists, s, steps, at)
    ensures at(key) <= |steps|
    ensures E.VersionOf(Latest(P.ViewOf(s.scans[id]), roots(key), lists(key)))
            == if TakenBy(s, steps, id, key, at(key)) then None else P.SeenBy(s, id, key)
  {
    assert at(key) <= |steps|;
    SeesTheSame(s, steps, id, at(key), key);
  }

  /**
    What is reported of a pubkey: only what is in range and was seen at the start; all of that with
    lamports, and of the rest what was not purged during the scan, but nothing purged before it was looked up.
   */
  ghost predicate Accurate(found: seq<(Pubkey, Entry)>, s: P.State, steps: seq<P.Step>, id: nat, start: I.Bound, end: I.Bound,
                           key: Pubkey, v: E.Version, lookedUp: nat)
    requires P.Run(P.All, s, steps) && id in s.scans && lookedUp <= |steps|
  {
    var wanted := I.InRange(start, end, key) && P.SeenBy(s, id, key) == Some(v);
    && (Reports(found, key, v) ==> wanted && !TakenBy(s, steps, id, key, lookedUp))
    && (!v.zero || !T.Taken(s, steps, id, key) ==> (Reports(found, key, v) <==> wanted))
  }

  lemma FoundVersion(keys: seq<Pubkey>, view: View, roots: Pubkey -> set<Slot>, lists: Pubkey -> SlotList, key: Pubkey, v: E.Version)
    ensures Reports(Found(keys, view, roots, lists), key, v)
            <==> key in keys && E.VersionOf(Latest(view, roots(key), lists(key))) == Some(v)
  {
    var found, e := Found(keys, view, roots, lists), Latest(view, roots(key), lists(key));
    if x :| (key, x) in found && E.VersionOf(Some(x)) == Some(v) { FoundMembers(keys, view, roots, lists, key, x); }
    if e.Some? { FoundMembers(keys, view, roots, lists, key, e.value); }
  }

  /**
    A scan whose bank is not removed by the time it ends reports, of the pubkeys in its range, exactly
    those with lamports it saw when it began, each once and in the version it saw then, whatever happened
    meanwhile. One without lamports is reported exactly if it is listed, and not purged when looked up.
   */
  lemma ScanReportsExactly(s: P.State, steps: seq<P.Step>, id: nat, bin: Pubkey -> nat, bins: nat, world: I.World,
                           when: (nat, nat) -> nat, roots: Pubkey -> set<Slot>, lists: Pubkey -> SlotList, at: Pubkey -> nat,
                           calls: nat, start: I.Bound, end: I.Bound, keys: seq<Pubkey>, key: Pubkey, v: E.Version)
    requires Scanning(s, steps, id) && Monotone(bin, bins) && ReadFrom(world, s, steps, bin, bins, when)
    requires LookedUpIn(roots, lists, s, steps, at) && I.WalkedAll(world, calls, start, end, keys)
    ensures at(key) <= |steps|
    ensures var found := Found(keys, P.ViewOf(s.scans[id]), roots, lists);
            && Once(found)
            && Accurate(found, s, steps, id, start, end, key, v, at(key))
            && (Reports(found, key, v) <==> key in keys && P.SeenBy(s, id, key) == Some(v) && !TakenBy(s, steps, id, key, at(key)))
  {
    var view := P.ViewOf(s.scans[id]);
    FoundOnce(keys, view, roots, lists);
    LookupIsSeen(s, steps, id, roots, lists, at, key);
    FoundVersion(keys, view, roots, lists, key, v);
    LastingIsListed(s, steps, id, bin, bins, world, when, calls, start, end, keys, key, v);
    if TakenBy(s, steps, id, key, at(key)) { TakenLater(s, steps, id, key, at(key)); }
  }

  /** What is seen in range, and has lamports or is not purged during the scan, is listed; and only what is in range is. */
  lemma LastingIsListed(s: P.State, steps: seq<P.Step>, id: nat, bin: Pubkey -> nat, bins: nat, world: I.World,
                        when: (nat, nat) -> nat, calls: nat, start: I.Bound, end: I.Bound, keys: seq<Pubkey>, key: Pubkey, v: E.Version)
    requires Scanning(s, steps, id) && Monotone(bin, bins) && ReadFrom(world, s, steps, bin, bins, when)
    requires I.WalkedAll(world, calls, start, end, keys)
    ensures key in keys ==> I.InRange(start, end, key)
    ensures P.SeenBy(s, id, key) == Some(v) && !v.zero ==> !T.Taken(s, steps, id, key)
    ensures I.InRange(start, end, key) && P.SeenBy(s, id, key).Some? && !T.Taken(s, steps, id, key) ==> key in keys
  {
    T.ScanIsStable(s, steps, id, key);
    if P.SeenBy(s, id, key).Some? && !T.Taken(s, steps, id, key) {
      SeenIsThroughout(world, s, steps, id, bin, bins, when, calls, key);
    }
  }

  /**
    The scan from its registration to its final check; `None` is the error that the bank's slot was removed.
    Its ancestors are ignored when the greatest root is not among them.
   */
  method DoCheckedScanAccounts(it: I.AccountsIndexIterator, world: I.World, ghost bins: nat, bank: P.BankId, ancestors: set<Slot>,
                               maxRoot: Slot, roots: Pubkey -> set<Slot>, lists: Pubkey -> SlotList, removed: set<P.BankId>,
                               ghost before: P.State, ghost s: P.State, ghost steps: seq<P.Step>, ghost id: nat,
                               ghost when: (nat, nat) -> nat, ghost at: Pubkey -> nat)
    returns (r: Option<seq<(Pubkey, Entry)>>)
    requires Monotone(it.bin, bins) && bins <= I.USIZE_MAX && !it.isFinished
    requires D.Inv(before) && before.maxExclusive > 0 && maxRoot == P.MaxRoot(before)
    requires P.Enabled(before, P.BeginScan(id, bank, ancestors)) && P.Disciplined(P.All, before, P.BeginScan(id, bank, ancestors))
    requires s == P.Apply(before, P.BeginScan(id, bank, ancestors))
    requires P.Run(P.All, s, steps) && P.EndScan(id) !in steps && removed == P.After(P.All, s, steps).removed
    requires ReadFrom(world, s, steps, it.bin, bins, when) && LookedUpIn(roots, lists, s, steps, at)
    modifies it
    ensures r.None? <==> bank in removed
    ensures r.Some? ==> Once(r.value)
    ensures r.Some? ==> forall key: Pubkey, v: E.Version ::
              at(key) <= |steps| && Accurate(r.value, s, steps, id, old(it.startBound), it.endBound, key, v, at(key))
    ensures r.Some? ==> forall key: Pubkey, v: E.Version :: !v.zero ==>
              (Reports(r.value, key, v) <==> I.InRange(old(it.startBound), it.endBound, key) && T.Shows(before, ancestors, key, v))
  {
    ReadsArePlaced(world, s, steps, it.bin, bins, when);
    ghost var start, end := it.startBound, it.endBound;
    var fork := if maxRoot in ancestors then ancestors else {};
    var found, calls, keys := DoScanAccounts(it, world, bins, fork, maxRoot, roots, lists);
    if bank in removed { return None; }
    ScanBegun(before, s, id, bank, ancestors);
    forall key: Pubkey, v: E.Version
      ensures at(key) <= |steps| && Accurate(found, s, steps, id, start, end, key, v, at(key))
      ensures !v.zero ==> (Reports(found, key, v) <==> I.InRange(start, end, key) && T.Shows(before, ancestors, key, v))
    {
      ScanReportsExactly(s, steps, id, it.bin, bins, world, when, roots, lists, at, calls, start, end, keys, key, v);
      T.BeginsWith(before, id, bank, ancestors, key, v);
    }
    FoundOnce(keys, P.ViewOf(s.scans[id]), roots, lists);
    r := Some(found);
  }

  lemma ScanBegun(before: P.State, s: P.State, id: nat, bank: P.BankId, ancestors: set<Slot>)
    requires D.Inv(before) && P.Enabled(before, P.BeginScan(id, bank, ancestors))
    requires P.Disciplined(P.All, before, P.BeginScan(id, bank, ancestors)) && s == P.Apply(before, P.BeginScan(id, bank, ancestors))
    ensures D.Inv(s) && s.maxExclusive == before.maxExclusive && id in s.scans && s.scans[id].bank == bank
    ensures P.ViewOf(s.scans[id])
            == View(if P.MaxRoot(before) in ancestors then ancestors else {}, Some(P.MaxRoot(before)))
  {
    D.StepKeeps(before, P.BeginScan(id, bank, ancestors));
  }

  // ---------------------------------------------------------------- scans of banks

  /** What the index does along a run of banks and index. */
  ghost function BankSteps(s: F.State, steps: seq<F.Step>): (r: seq<P.Step>)
    requires F.Coupled(s) && F.Run(s, steps)
    ensures P.Run(P.All, s.index, r) && P.After(P.All, s.index, r) == F.After(s, steps).index
  {
    F.IndexRuns(s, steps);
    F.IndexSteps(s, steps)
  }

  /** Banks and index after a run from a snapshot. */
  ghost function Reached(slot: Slot, rooted: set<Slot>, index: map<P.Key, SlotList>, steps: seq<F.Step>): (s: F.State)
    requires F.Loaded(slot, rooted, index) && F.Run(F.Snapshot(slot, rooted, index), steps)
    ensures F.Coupled(s)
  {
    F.StartedCoupled(slot, rooted, index);
    F.IndexRuns(F.Snapshot(slot, rooted, index), steps);
    F.After(F.Snapshot(slot, rooted, index), steps)
  }

  ghost function Next(s: F.State, step: F.Step): (t: F.State)
    requires F.Coupled(s) && F.Enabled(s, step)
    ensures F.Coupled(t)
  {
    F.StepKeeps(s, step);
    F.Apply(s, step)
  }

  /** In every run of banks and index from a snapshot, the scan of a bank that is not removed reports accurately. */
  lemma BankScanReportsExactly(slot: Slot, rooted: set<Slot>, index: map<P.Key, SlotList>, before: seq<F.Step>, during: seq<F.Step>,
                               s: F.State, steps: seq<P.Step>, id: nat, bin: Pubkey -> nat, bins: nat, world: I.World,
                               when: (nat, nat) -> nat, roots: Pubkey -> set<Slot>, lists: Pubkey -> SlotList, at: Pubkey -> nat,
                               calls: nat, start: I.Bound, end: I.Bound, keys: seq<Pubkey>, key: Pubkey, v: E.Version)
    requires F.Loaded(slot, rooted, index) && F.Run(F.Snapshot(slot, rooted, index), before)
    requires s == Reached(slot, rooted, index, before) && F.Run(s, during) && steps == BankSteps(s, during)
    requires id in s.index.scans && F.Index(P.EndScan(id)) !in during
    requires s.index.scans[id].bank !in F.After(s, during).index.removed
    requires Monotone(bin, bins) && ReadFrom(world, s.index, steps, bin, bins, when)
    requires LookedUpIn(roots, lists, s.index, steps, at) && I.WalkedAll(world, calls, start, end, keys)
    ensures at(key) <= |steps|
    ensures var found := Found(keys, P.ViewOf(s.index.scans[id]), roots, lists);
            Once(found) && Accurate(found, s.index, steps, id, start, end, key, v, at(key))
  {
    if P.EndScan(id) in steps { F.EndsAreOwn(s, during, id); }
    ScanReportsExactly(s.index, steps, id, bin, bins, world, when, roots, lists, at, calls, start, end, keys, key, v);
  }

  /**
    From its beginning: of the versions with lamports, exactly the newest ones on the bank's fork when the
    scan began are reported, of the pubkeys in range.
   */
  lemma BankScanReportsItsFork(slot: Slot, rooted: set<Slot>, index: map<P.Key, SlotList>, before: seq<F.Step>, bankSlot: Slot,
                               bank: P.BankId, during: seq<F.Step>, begun: F.State, s: F.State, steps: seq<P.Step>, id: nat,
                               bin: Pubkey -> nat, bins: nat, world: I.World, when: (nat, nat) -> nat, roots: Pubkey -> set<Slot>,
                               lists: Pubkey -> SlotList, at: Pubkey -> nat, calls: nat, start: I.Bound, end: I.Bound,
                               keys: seq<Pubkey>, key: Pubkey, v: E.Version)
    requires F.Loaded(slot, rooted, index) && F.Run(F.Snapshot(slot, rooted, index), before)
    requires begun == Reached(slot, rooted, index, before) && F.Enabled(begun, F.ScanBank(id, bankSlot, bank))
    requires s == Next(begun, F.ScanBank(id, bankSlot, bank)) && F.Run(s, during) && steps == BankSteps(s, during)
    requires id in s.index.scans && F.Index(P.EndScan(id)) !in during
    requires s.index.scans[id].bank !in F.After(s, during).index.removed
    requires Monotone(bin, bins) && ReadFrom(world, s.index, steps, bin, bins, when)
    requires LookedUpIn(roots, lists, s.index, steps, at) && I.WalkedAll(world, calls, start, end, keys)
    ensures !v.zero ==>
              (Reports(Found(keys, P.ViewOf(s.index.scans[id]), roots, lists), key, v)
               <==> I.InRange(start, end, key) && F.OnFork(begun, bankSlot, key, v))
  {
    if P.EndScan(id) in steps { F.EndsAreOwn(s, during, id); }
    ScanReportsExactly(s.index, steps, id, bin, bins, world, when, roots, lists, at, calls, start, end, keys, key, v);
    F.ScanBeginsOnFork(begun, id, bankSlot, bank, key, v);
  }
}
