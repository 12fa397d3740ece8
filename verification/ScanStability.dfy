/**
  What a scan sees while everybody else goes on: the version it saw when it began, unless that version
  has no lamports and is purged, or the scan began before there was any root.
 */
module ScanStability {
  import opened Wrappers
  import opened SlotLists
  import opened SlotEdits
  import opened ScanProtocol
  import opened DeadPubkeys

  // ---------------------------------------------------------------- what a scan sees when it begins

  /** What a bank with these ancestors may read: alive roots, and its own fork if that has the greatest root. */
  ghost predicate Open(s: State, ancestors: set<Slot>, slot: Slot) {
    (slot in s.roots && slot <= MaxRoot(s)) || (MaxRoot(s) in ancestors && slot in ancestors)
  }

  /** The newest version of the pubkey the bank may read. */
  ghost predicate Shows(s: State, ancestors: set<Slot>, key: Key, v: Version) {
    exists e :: e in ListOf(s, key) && Open(s, ancestors, e.slot) && v == Version(e.info.id, e.info.zero)
      && forall x :: x in ListOf(s, key) && Open(s, ancestors, x.slot) ==> x.slot <= e.slot
  }

  /** A scan begins with the newest versions its bank may read. */
  lemma BeginsWith(s: State, id: nat, bank: BankId, ancestors: set<Slot>, key: Key, v: Version)
    requires Base(s) && id !in s.scans
    ensures SeenBy(Apply(s, BeginScan(id, bank, ancestors)), id, key) == Some(v) <==> Shows(s, ancestors, key, v)
  {
    var list, s' := ListOf(s, key), Apply(s, BeginScan(id, bank, ancestors));
    var view := ViewOf(s'.scans[id]);
    assert forall x: Slot :: Visible(view, s.roots, x) <==> Open(s, ancestors, x);
    var seen := Latest(view, s.roots, list);
    if Shows(s, ancestors, key, v) {
      var e :| e in list && Open(s, ancestors, e.slot) && v == Version(e.info.id, e.info.zero)
        && forall x :: x in list && Open(s, ancestors, x.slot) ==> x.slot <= e.slot;
      UniqueMember(list, e, seen.value);
    }
  }

  /** A bank of the greatest root's fork reads its own writes, at its slot or later ones of its fork. */
  lemma WritesAreRead(s: State, key: Key, slot: Slot, info: Info, ancestors: set<Slot>)
    requires MaxRoot(s) in ancestors && slot in ancestors
    requires forall x :: x in ListOf(s, key) && Open(s, ancestors, x.slot) ==> x.slot <= slot
    ensures Shows(Apply(s, WriteAccount(key, slot, info)), ancestors, key, Version(info.id, info.zero))
  {
    var s', e := Apply(s, WriteAccount(key, slot, info)), Entry(slot, info);
    forall x ensures x in ListOf(s', key) <==> x == e || (x in ListOf(s, key) && x.slot != slot) {
      EditsExactly(s, WriteAccount(key, slot, info), x);
    }
    assert e in ListOf(s', key) && Open(s', ancestors, e.slot);
  }

  // ---------------------------------------------------------------- one step

  /** The step edits one list, which shows the scan the same version as before. */
  lemma EditUnseen(s: State, step: Step, k: Key, id: nat, key: Key)
    requires Enabled(s, step) && EditedKey(s, step) == Some(k) && id in s.scans
    requires VersionOf(Latest(ViewOf(s.scans[id]), s.roots, ListOf(Apply(s, step), k)))
             == VersionOf(Latest(ViewOf(s.scans[id]), s.roots, ListOf(s, k)))
    ensures SeenBy(Apply(s, step), id, key) == SeenBy(s, id, key)
  {
    if key != k { OtherListsStay(s, step, key); }
  }

  /** A clean never takes what a scan sees: that is rooted, or lies above the clean's bound. */
  lemma CleanUnseen(s: State, clean: nat, id: nat, key: Key)
    requires Base(s) && clean in s.cleans && id in s.scans
    ensures var view, list := ViewOf(s.scans[id]), ListOf(s, key);
            Latest(view, s.roots, Cleaned(s.roots, MaxRoot(s), list, s.cleans[clean])) == Latest(view, s.roots, list)
  {
    CleanIsInvisible(ViewOf(s.scans[id]), s.roots, MaxRoot(s), ListOf(s, key), s.cleans[clean]);
  }

  /** Nor does a flush: what it skips is older than a version every scan sees. */
  lemma SkipUnseen(s: State, clean: nat, id: nat, key: Key, slot: Slot)
    requires Base(s) && clean in s.cleans && id in s.scans && WrittenLater(s, s.cleans[clean], key, slot)
    ensures var view, list := ViewOf(s.scans[id]), ListOf(s, key);
            Latest(view, s.roots, Without(list, {slot})) == Latest(view, s.roots, list)
  {
    var view, list := ViewOf(s.scans[id]), ListOf(s, key);
    var e :| e in list && slot < e.slot && e.slot in s.roots && (s.cleans[clean].None? || e.slot <= s.cleans[clean].value);
    assert Visible(view, s.roots, e.slot);
    WithoutOthers(view, s.roots, list, {slot});
  }

  lemma OutOfSightIsUnseen(s: State, id: nat, slot: Slot)
    requires Base(s) && id in s.scans && s.scans[id].bank !in s.removed && OutOfSight(s, slot)
    ensures !Visible(ViewOf(s.scans[id]), s.roots, slot)
  {
  }

  lemma WriteUnseen(s: State, k: Key, e: Entry, id: nat)
    requires Base(s) && id in s.scans && s.scans[id].bank !in s.removed && OutOfSight(s, e.slot)
    ensures Latest(ViewOf(s.scans[id]), s.roots, Written(ListOf(s, k), e)) == Latest(ViewOf(s.scans[id]), s.roots, ListOf(s, k))
  {
    var view, list := ViewOf(s.scans[id]), ListOf(s, k);
    OutOfSightIsUnseen(s, id, e.slot);
    WrittenUnseen(view, s.roots, list, e);
    UnseenChange(view, s.roots, list, Written(list, e));
  }

  lemma PurgeUnseen(s: State, k: Key, slot: Slot, id: nat)
    requires Base(s) && id in s.scans && s.scans[id].bank !in s.removed && OutOfSight(s, slot)
    ensures var view, list := ViewOf(s.scans[id]), ListOf(s, k);
            Latest(view, s.roots, Without(list, {slot})) == Latest(view, s.roots, list)
  {
    OutOfSightIsUnseen(s, id, slot);
    WithoutOthers(ViewOf(s.scans[id]), s.roots, ListOf(s, k), {slot});
  }

  lemma RepackUnseen(s: State, k: Key, from: Slot, to: Slot, id: nat)
    requires id in s.scans && Settled(s, from) && Settled(s, to) && Apart(ListOf(s, k), from, to)
    ensures var view, list := ViewOf(s.scans[id]), ListOf(s, k);
            VersionOf(Latest(view, s.roots, Moved(list, from, to))) == VersionOf(Latest(view, s.roots, list))
  {
    MovedKeeps(ViewOf(s.scans[id]), s.roots, ListOf(s, k), from, to);
  }

  lemma DeadSlotUnseen(s: State, slot: Slot, id: nat, key: Key)
    requires id in s.scans && Unreferenced(s, slot)
    ensures SeenBy(Apply(s, CleanDeadSlot(slot)), id, key) == SeenBy(s, id, key)
  {
    SameVisibility(ViewOf(s.scans[id]), s.roots, s.roots - {slot}, ListOf(s, key));
  }

  /** Slot 0 becomes the first root of all, the pubkey has a version there, and the scan did not see slot 0. */
  ghost predicate Reveals(s: State, step: Step, id: nat, key: Key) {
    && s.maxExclusive == 0 && step == AddRoot(0)
    && HasSlot(ListOf(s, key), 0) && id in s.scans && 0 !in s.scans[id].ancestors
  }

  lemma AddRootSeen(s: State, slot: Slot, id: nat, key: Key)
    requires Base(s) && Enabled(s, AddRoot(slot)) && id in s.scans
    ensures SeenBy(Apply(s, AddRoot(slot)), id, key) == SeenBy(s, id, key) <==> !Reveals(s, AddRoot(slot), id, key)
    ensures Reveals(s, AddRoot(slot), id, key) ==> SeenBy(s, id, key).None?
  {
    var view, list, roots := ViewOf(s.scans[id]), ListOf(s, key), s.roots + {slot};
    if Reveals(s, AddRoot(slot), id, key) {
      var i :| 0 <= i < |list| && list[i].slot == 0;
      assert list[i] in list && Visible(view, roots, list[i].slot);
      assert s.roots == {};
    } else {
      forall e | e in list ensures Visible(view, s.roots, e.slot) == Visible(view, roots, e.slot) {
        var i :| 0 <= i < |list| && list[i] == e;
      }
      SameVisibility(view, s.roots, roots, list);
    }
  }

  /** A purge of pubkeys without lamports takes the version the scan sees. */
  ghost predicate Takes(s: State, step: Step, id: nat, key: Key) {
    && step.PurgeDead? && step.found in s.dead && s.dead[step.found].key == key && id in s.scans
    && var seen := Latest(ViewOf(s.scans[id]), s.roots, ListOf(s, key));
       seen.Some? && seen.value.slot in s.dead[step.found].slots
  }

  /** What is purged of a dead pubkey goes unseen, or the version seen has no lamports and nothing is seen after. */
  lemma DeadSeen(s: State, d: Dead, list: SlotList, id: nat)
    requires Base(s) && id in s.scans && s.scans[id].bank !in s.removed && DeadOk(s, d, list)
    ensures var view := ViewOf(s.scans[id]);
            var seen, after := Latest(view, s.roots, list), Latest(view, s.roots, Without(list, d.slots));
            if seen.Some? && seen.value.slot in d.slots then seen.value.info.zero && after == None else after == seen
  {
    var view := ViewOf(s.scans[id]);
    var seen, after := Latest(view, s.roots, list), Latest(view, s.roots, Without(list, d.slots));
    if seen.Some? && seen.value.slot in d.slots {
      NewestIsSeen(s, d, list, id);
      if after.Some? {
        WithoutMembers(list, d.slots, after.value);
        assert EntryOk(s, d, list, after.value);
        OutOfSightIsUnseen(s, id, after.value.slot);
      }
    } else {
      WithoutOthers(view, s.roots, list, d.slots);
    }
  }

  lemma NewestIsSeen(s: State, d: Dead, list: SlotList, id: nat)
    requires id in s.scans && DeadOk(s, d, list)
    requires var seen := Latest(ViewOf(s.scans[id]), s.roots, list); seen.Some? && seen.value.slot in d.slots
    ensures var seen := Latest(ViewOf(s.scans[id]), s.roots, list).value; seen.slot == d.newest && seen.info.zero
  {
    var seen := Latest(ViewOf(s.scans[id]), s.roots, list).value;
    assert EntryOk(s, d, list, seen);
    assert forall x :: x in list && Settled(s, x.slot) ==> Visible(ViewOf(s.scans[id]), s.roots, x.slot);
  }

  lemma PurgeDeadSeen(s: State, i: nat, id: nat, key: Key)
    requires Inv(s) && i in s.dead && id in s.scans && s.scans[id].bank !in s.removed
    ensures SeenBy(Apply(s, PurgeDead(i)), id, key) == SeenBy(s, id, key) <==> !Takes(s, PurgeDead(i), id, key)
    ensures Takes(s, PurgeDead(i), id, key) ==>
              SeenBy(s, id, key).Some? && SeenBy(s, id, key).value.zero && SeenBy(Apply(s, PurgeDead(i)), id, key).None?
  {
    var d := s.dead[i];
    DeadSeen(s, d, ListOf(s, d.key), id);
    if key != d.key { OtherListsStay(s, PurgeDead(i), key); }
  }

  /** The other steps that edit a list. */
  lemma OtherEditUnseen(s: State, step: Step, k: Key, id: nat)
    requires Base(s) && Enabled(s, step) && Disciplined(All, s, step) && id in s.scans && s.scans[id].bank !in s.removed
    requires EditedKey(s, step) == Some(k) && !step.PurgeDead?
    ensures VersionOf(Latest(ViewOf(s.scans[id]), s.roots, ListOf(Apply(s, step), k)))
            == VersionOf(Latest(ViewOf(s.scans[id]), s.roots, ListOf(s, k)))
  {
    match step
    case WriteAccount(_, slot, info) => WriteUnseen(s, k, Entry(slot, info), id);
    case CleanKey(clean, _) => CleanUnseen(s, clean, id, k);
    case FlushKey(_, slot) => StoredKeeps(ViewOf(s.scans[id]), s.roots, ListOf(s, k), slot);
    case FlushSkips(clean, _, slot) => SkipUnseen(s, clean, id, k, slot);
    case Repack(_, from, to) => RepackUnseen(s, k, from, to, id);
    case PurgeSlot(_, slot) => PurgeUnseen(s, k, slot, id);
  }

  lemma OthersUnseen(s: State, step: Step, id: nat, key: Key)
    requires Base(s) && Enabled(s, step) && Disciplined(All, s, step) && id in s.scans && step != EndScan(id)
    requires s.scans[id].bank !in s.removed && !step.AddRoot? && !step.PurgeDead?
    ensures id in Apply(s, step).scans && SeenBy(Apply(s, step), id, key) == SeenBy(s, id, key)
  {
    ScanGoesOn(s, step, id);
    if step.CleanDeadSlot? {
      DeadSlotUnseen(s, step.slot, id, key);
    } else if EditedKey(s, step).Some? {
      var k := EditedKey(s, step).value;
      OtherEditUnseen(s, step, k, id);
      EditUnseen(s, step, k, id, key);
    } else {
      OtherListsStay(s, step, key);
    }
  }

  lemma ScanGoesOn(s: State, step: Step, id: nat)
    requires Enabled(s, step) && id in s.scans && step != EndScan(id)
    ensures id in Apply(s, step).scans && Apply(s, step).scans[id] == s.scans[id]
  {
  }

  /**
    One step of anybody leaves the version a scan of a bank that is not removed sees unchanged, with two
    exceptions: a version without lamports is purged, and then nothing is seen; or the scan began before
    there was any root and sees the version at slot 0 when slot 0 is rooted.
   */
  lemma StepIsUnseen(s: State, step: Step, id: nat, key: Key)
    requires Inv(s) && Enabled(s, step) && Disciplined(All, s, step) && id in s.scans && step != EndScan(id)
    requires s.scans[id].bank !in s.removed
    ensures var s' := Apply(s, step); id in s'.scans && s'.scans[id] == s.scans[id]
    ensures var seen, seen' := SeenBy(s, id, key), SeenBy(Apply(s, step), id, key);
            && (seen' == seen <==> !Reveals(s, step, id, key) && !Takes(s, step, id, key))
            && (Reveals(s, step, id, key) ==> seen.None?)
            && (Takes(s, step, id, key) ==> seen.Some? && seen.value.zero && seen'.None?)
  {
    ScanGoesOn(s, step, id);
    if step.AddRoot? {
      AddRootSeen(s, step.slot, id, key);
    } else if step.PurgeDead? {
      PurgeDeadSeen(s, step.found, id, key);
    } else {
      OthersUnseen(s, step, id, key);
    }
  }

  // ---------------------------------------------------------------- whole runs

  lemma InitialInv()
    ensures Inv(Initial())
  {
    QuietInv(Initial());
  }

  lemma {:induction false} RunKeeps(s: State, steps: seq<Step>)
    requires Inv(s) && Run(All, s, steps)
    ensures Inv(After(All, s, steps))
    decreases |steps|
  {
    if steps != [] {
      StepKeeps(s, steps[0]);
      RunKeeps(Apply(s, steps[0]), steps[1..]);
    }
  }

  /** Once the bank of a scan has been removed, the scan will find out when it ends. */
  lemma {:induction false} RemovedStays(s: State, steps: seq<Step>, id: nat)
    requires Run(All, s, steps) && id in s.scans && EndScan(id) !in steps && s.scans[id].bank in s.removed
    ensures var s' := After(All, s, steps); id in s'.scans && s'.scans[id] == s.scans[id] && s'.scans[id].bank in s'.removed
    decreases |steps|
  {
    if steps != [] { RemovedStays(Apply(s, steps[0]), steps[1..], id); }
  }

  /** While a scan runs, its bank is marked as removed exactly if it was before or a step of the run removes it. */
  lemma {:induction false} RemovedExactly(s: State, steps: seq<Step>, id: nat)
    requires Run(All, s, steps) && id in s.scans && EndScan(id) !in steps
    ensures var s', bank := After(All, s, steps), s.scans[id].bank;
            && id in s'.scans && s'.scans[id] == s.scans[id]
            && (bank in s'.removed <==>
                  bank in s.removed || exists i :: 0 <= i < |steps| && steps[i].MarkRemoved? && bank in steps[i].banks)
    decreases |steps|
  {
    if steps != [] {
      ScanGoesOn(s, steps[0], id);
      TracksExactly(s, steps[0], s.scans[id].bank);
      RemovedExactly(Apply(s, steps[0]), steps[1..], id);
      assert forall i :: 0 < i < |steps| ==> steps[i] == steps[1..][i - 1];
    }
  }

  /** Some step of the run roots slot 0 as the first root while the pubkey has a version there. */
  ghost predicate Revealed(s: State, steps: seq<Step>, id: nat, key: Key)
    requires Run(All, s, steps)
    decreases |steps|
  {
    steps != [] && (Reveals(s, steps[0], id, key) || Revealed(Apply(s, steps[0]), steps[1..], id, key))
  }

  /** Some step of the run purges the pubkey while the scan sees the version purged. */
  ghost predicate Taken(s: State, steps: seq<Step>, id: nat, key: Key)
    requires Run(All, s, steps)
    decreases |steps|
  {
    steps != [] && (Takes(s, steps[0], id, key) || Taken(Apply(s, steps[0]), steps[1..], id, key))
  }

  lemma {:induction false} RevealedAtMostOnce(s: State, steps: seq<Step>, id: nat, key: Key)
    requires Run(All, s, steps) && s.maxExclusive > 0
    ensures !Revealed(s, steps, id, key)
    decreases |steps|
  {
    if steps != [] { RevealedAtMostOnce(Apply(s, steps[0]), steps[1..], id, key); }
  }

  lemma TakenHasRoot(s: State, step: Step, id: nat, key: Key)
    requires Inv(s) && Takes(s, step, id, key)
    ensures s.maxExclusive > 0 && Apply(s, step).maxExclusive > 0
  {
    assert s.dead[step.found].newest in s.rooted;
  }

  /** What the scan sees at the end of the run, given what it saw at the start and what happened. */
  ghost predicate Sees(seen: Option<Version>, revealed: bool, taken: bool, seen': Option<Version>) {
    && (revealed ==> seen.None?)
    && (taken ==> seen'.None?)
    && (taken && !revealed ==> seen.Some? && seen.value.zero)
    && (!taken ==> if revealed then seen'.Some? else seen' == seen)
  }

  /**
    What a scan sees of a pubkey along a run in which it does not end and its bank is not removed: the
    version it saw first, unless that has no lamports and is purged, after which it sees nothing; or
    nothing at first, and the version at slot 0 once that becomes the first root, until that is purged.
    Whether the bank was removed is what the scan checks before it returns.
   */
  lemma {:induction false} ScanSeesExactly(s: State, steps: seq<Step>, id: nat, key: Key)
    requires Inv(s) && Run(All, s, steps) && id in s.scans && EndScan(id) !in steps
    ensures var s' := After(All, s, steps);
            && id in s'.scans && s'.scans[id] == s.scans[id]
            && (s'.scans[id].bank !in s'.removed ==>
                  && Sees(SeenBy(s, id, key), Revealed(s, steps, id, key), Taken(s, steps, id, key), SeenBy(s', id, key))
                  && (SeenBy(s', id, key) == SeenBy(s, id, key) <==> (Revealed(s, steps, id, key) <==> Taken(s, steps, id, key))))
    decreases |steps|
  {
    if s.scans[id].bank in s.removed {
      RemovedStays(s, steps, id);
    } else if steps != [] {
      var t := Apply(s, steps[0]);
      StepKeeps(s, steps[0]);
      StepIsUnseen(s, steps[0], id, key);
      ScanSeesExactly(t, steps[1..], id, key);
      if Takes(s, steps[0], id, key) { TakenHasRoot(s, steps[0], id, key); }
      if t.maxExclusive > 0 { RevealedAtMostOnce(t, steps[1..], id, key); }
    }
  }

  /** The versions a scan sees, then and now: the same, or one without lamports that has been purged. */
  ghost predicate SameOrPurged(seen: Option<Version>, seen': Option<Version>, taken: bool) {
    && Loadable(seen') == Loadable(seen)
    && (seen' == seen <==> !taken)
    && (taken ==> seen.Some? && seen.value.zero && seen'.None?)
  }

  /**
    Scan stability: once there is a root, along every run in which scan `id` does not end, however
    the other scans, writers, root advances, cleans, flushes, shrinks and purges interleave, every
    pubkey with lamports looks to it as when it began, unless its bank has been removed. One without
    lamports does exactly until it is purged, and then it is gone.
   */
  lemma ScanIsStable(s: State, steps: seq<Step>, id: nat, key: Key)
    requires Inv(s) && Run(All, s, steps) && id in s.scans && EndScan(id) !in steps && s.maxExclusive > 0
    ensures var s' := After(All, s, steps);
            && id in s'.scans && s'.scans[id] == s.scans[id]
            && (s'.scans[id].bank !in s'.removed ==>
                  SameOrPurged(SeenBy(s, id, key), SeenBy(s', id, key), Taken(s, steps, id, key)))
  {
    ScanSeesExactly(s, steps, id, key);
    RevealedAtMostOnce(s, steps, id, key);
  }

  /** In particular in every run of the index from its beginning. */
  lemma StableFromStart(before: seq<Step>, during: seq<Step>, id: nat, key: Key)
    requires Run(All, Initial(), before) && Run(All, After(All, Initial(), before), during)
    requires var s := After(All, Initial(), before); id in s.scans && s.maxExclusive > 0
    requires EndScan(id) !in during
    ensures var s := After(All, Initial(), before);
            var s' := After(All, s, during);
            && id in s'.scans && s'.scans[id] == s.scans[id]
            && (s'.scans[id].bank !in s'.removed ==>
                  SameOrPurged(SeenBy(s, id, key), SeenBy(s', id, key), Taken(s, during, id, key)))
  {
    InitialInv();
    RunKeeps(Initial(), before);
    ScanIsStable(After(All, Initial(), before), during, id, key);
  }

  /** The count of a scan that has begun is always there to be lowered. */
  lemma EndScanNeverPanics(s: State, id: nat)
    requires Inv(s) && id in s.scans
    ensures Enabled(s, EndScan(id))
  {
    assert id in ScansAt(s.scans, s.scans[id].root);
  }
}
