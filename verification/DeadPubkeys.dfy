/**
  Pubkeys without lamports: a clean or a shrink finds them and purges them later, while writers, other
  cleans and scans go on. Whatever happens in between, what is purged then is all there is to see of the
  pubkey up to its newest version found, and that version has no lamports.
 */
module DeadPubkeys {
  import opened Wrappers
  import opened SlotLists
  import opened SlotEdits
  import opened ScanProtocol

  /** Some version of the list, at or above `newest`, is seen by every scan. */
  ghost predicate Overshadowed(s: State, list: SlotList, newest: Slot) {
    exists e :: e in list && newest <= e.slot && Settled(s, e.slot)
  }

  /**
    The newest version to be purged has no lamports. An older one to be purged is not seen by any scan,
    because there is a newer one; an older one that is not to be purged is out of sight.
   */
  ghost predicate EntryOk(s: State, d: Dead, list: SlotList, e: Entry) {
    && (e.slot == d.newest ==> e.info.zero)
    && (e.slot < d.newest ==> if e.slot in d.slots then Overshadowed(s, list, d.newest) else OutOfSight(s, e.slot))
  }

  ghost predicate DeadOk(s: State, d: Dead, list: SlotList) {
    && d.newest in d.slots && (forall x :: x in d.slots ==> x in s.rooted && x <= d.newest)
    && forall e :: e in list ==> EntryOk(s, d, list, e)
  }

  ghost predicate Inv(s: State) {
    Base(s) && forall i :: i in s.dead ==> DeadOk(s, s.dead[i], ListOf(s, s.dead[i].key))
  }

  // ---------------------------------------------------------------- what is to be purged stays dead

  /** What a list that was edited shows of a pubkey to be purged. */
  lemma ListStaysDead(s: State, d: Dead, list: SlotList, list': SlotList)
    requires DeadOk(s, d, list)
    requires forall e :: e in list' ==> From(list, e) || (e.slot !in d.slots && OutOfSight(s, e.slot))
    requires (exists e :: e in list' && e.slot < d.newest && e.slot in d.slots) && Overshadowed(s, list, d.newest)
             ==> Overshadowed(s, list', d.newest)
    ensures DeadOk(s, d, list')
  {
    forall e | e in list' ensures EntryOk(s, d, list', e) {
      if From(list, e) {
        var x :| x in list && x.slot == e.slot && x.info.zero == e.info.zero;
        assert EntryOk(s, d, list, x);
      }
    }
  }

  lemma WriteStaysDead(s: State, d: Dead, list: SlotList, e: Entry)
    requires RootsOk(s.roots, s.rooted, s.maxExclusive) && DeadOk(s, d, list) && OutOfSight(s, e.slot)
    ensures DeadOk(s, d, Written(list, e))
  {
    forall x | x in Written(list, e) ensures From(list, x) || (x.slot !in d.slots && OutOfSight(s, x.slot)) {
      WrittenMembers(list, e, x);
    }
    if Overshadowed(s, list, d.newest) {
      var x :| x in list && d.newest <= x.slot && Settled(s, x.slot);
      WrittenMembers(list, e, x);
    }
    ListStaysDead(s, d, list, Written(list, e));
  }

  lemma FlushStaysDead(s: State, d: Dead, list: SlotList, slot: Slot)
    requires DeadOk(s, d, list)
    ensures DeadOk(s, d, Stored(list, slot))
  {
    forall x | x in Stored(list, slot) ensures From(list, x) { StoredMembers(list, slot, x); }
    if Overshadowed(s, list, d.newest) {
      var x :| x in list && d.newest <= x.slot && Settled(s, x.slot);
      StoredMembers(list, slot, x);
    }
    ListStaysDead(s, d, list, Stored(list, slot));
  }

  /** A clean keeps the newest root up to its bound, which every scan sees. */
  lemma CleanKeepsCover(s: State, d: Dead, list: SlotList, bound: Slot)
    requires Overshadowed(s, list, d.newest) && forall id :: id in s.scans ==> bound <= s.scans[id].root
    ensures Overshadowed(s, Kept(list, bound, NewestRoot(s.roots, list, Some(bound))), d.newest)
  {
    var newest := NewestRoot(s.roots, list, Some(bound));
    PurgePartitions(list, bound, newest);
    var x :| x in list && d.newest <= x.slot && Settled(s, x.slot);
    if x !in Kept(list, bound, newest) {
      var y :| y in list && y.slot == newest;
      assert y in Kept(list, bound, newest) && Settled(s, y.slot);
    }
  }

  lemma CleanStaysDead(s: State, d: Dead, list: SlotList, bound: Slot)
    requires DeadOk(s, d, list) && forall id :: id in s.scans ==> bound <= s.scans[id].root
    ensures DeadOk(s, d, Kept(list, bound, NewestRoot(s.roots, list, Some(bound))))
  {
    var newest := NewestRoot(s.roots, list, Some(bound));
    var kept := Kept(list, bound, newest);
    forall x | x in kept ensures From(list, x) { PurgePartitions(list, bound, newest); }
    if Overshadowed(s, list, d.newest) { CleanKeepsCover(s, d, list, bound); }
    ListStaysDead(s, d, list, kept);
  }

  /** Purging `slots` takes `x`, which every scan sees, from above `e`, which is to be purged. */
  ghost predicate Uncovers(s: State, d: Dead, slots: set<Slot>, x: Entry, e: Entry) {
    x.slot in slots && Settled(s, x.slot) && e.slot < d.newest <= x.slot && e.slot in d.slots
  }

  /** If a version every scan sees goes, then with all the older ones, or a newer one stays. */
  lemma WithoutStaysDead(s: State, d: Dead, list: SlotList, slots: set<Slot>)
    requires DeadOk(s, d, list)
    requires forall x, e :: x in list && e in list && Uncovers(s, d, slots, x, e) ==>
               e.slot in slots || Overshadowed(s, Without(list, slots), x.slot)
    ensures DeadOk(s, d, Without(list, slots))
  {
    var rest := Without(list, slots);
    forall x | x in rest ensures From(list, x) { WithoutMembers(list, slots, x); }
    if e :| e in rest && e.slot < d.newest && e.slot in d.slots && Overshadowed(s, list, d.newest) {
      WithoutMembers(list, slots, e);
      var x :| x in list && d.newest <= x.slot && Settled(s, x.slot);
      WithoutMembers(list, slots, x);
      assert x in rest || Uncovers(s, d, slots, x, e);
    }
    ListStaysDead(s, d, list, rest);
  }

  lemma SkipStaysDead(s: State, d: Dead, key: Key, bound: Slot, slot: Slot)
    requires DeadOk(s, d, ListOf(s, key)) && WrittenLater(s, Some(bound), key, slot)
    requires forall id :: id in s.scans ==> bound <= s.scans[id].root
    ensures DeadOk(s, d, Without(ListOf(s, key), {slot}))
  {
    var list := ListOf(s, key);
    var later :| later in list && slot < later.slot && later.slot in s.roots && later.slot <= bound;
    WithoutMembers(list, {slot}, later);
    assert Overshadowed(s, Without(list, {slot}), slot);
    WithoutStaysDead(s, d, list, {slot});
  }

  lemma PurgeStaysDead(s: State, d: Dead, list: SlotList, slot: Slot)
    requires RootsOk(s.roots, s.rooted, s.maxExclusive) && DeadOk(s, d, list) && slot !in s.rooted
    ensures DeadOk(s, d, Without(list, {slot}))
  {
    WithoutStaysDead(s, d, list, {slot});
  }

  /** Two findings of one pubkey: what one of them leaves of the other's is out of sight. */
  lemma TakeStaysDead(s: State, d: Dead, taken: Dead, list: SlotList)
    requires DeadOk(s, d, list) && DeadOk(s, taken, list)
    ensures DeadOk(s, d, Without(list, taken.slots))
  {
    forall x, e | x in list && e in list && Uncovers(s, d, taken.slots, x, e)
      ensures e.slot in taken.slots
    {
      assert EntryOk(s, taken, list, e);
    }
    WithoutStaysDead(s, d, list, taken.slots);
  }

  /** Other steps: what was out of sight stays so below `newest`, and what every scan saw it still sees. */
  lemma OthersStayDead(s: State, s': State, d: Dead, list: SlotList)
    requires DeadOk(s, d, list) && s.rooted <= s'.rooted
    requires forall x: Slot :: x < d.newest && OutOfSight(s, x) ==> OutOfSight(s', x)
    requires forall e :: e in list && Settled(s, e.slot) ==> Settled(s', e.slot)
    ensures DeadOk(s', d, list)
  {
    forall e | e in list ensures EntryOk(s', d, list, e) {
      assert EntryOk(s, d, list, e);
      if e.slot < d.newest && e.slot in d.slots {
        var x :| x in list && d.newest <= x.slot && Settled(s, x.slot);
        assert Settled(s', x.slot);
      }
    }
  }

  /** No scan has begun, and no bank of one has come back. */
  ghost predicate NoNewScans(s: State, s': State) {
    forall id :: id in s'.scans ==>
      id in s.scans && s'.scans[id] == s.scans[id] && (s.scans[id].bank in s.removed ==> s.scans[id].bank in s'.removed)
  }

  lemma NoNewForks(s: State, s': State, slot: Slot)
    requires NoNewScans(s, s') && InScannedFork(s', slot)
    ensures InScannedFork(s, slot)
  {
    var id :| id in s'.scans && slot in s'.scans[id].ancestors && s'.scans[id].bank !in s'.removed;
    assert id in s.scans;
  }

  /** The state matters to `DeadOk` only by its roots, scans and removed banks. */
  lemma QuietStaysDead(s: State, s': State, d: Dead, list: SlotList)
    requires DeadOk(s, d, list) && s.rooted == s'.rooted && NoNewScans(s, s')
    requires forall e :: e in list && e.slot in s.roots ==> e.slot in s'.roots
    ensures DeadOk(s', d, list)
  {
    forall x: Slot | OutOfSight(s, x) ensures OutOfSight(s', x) {
      if InScannedFork(s', x) { NoNewForks(s, s', x); }
    }
    OthersStayDead(s, s', d, list);
  }

  lemma AddRootStaysDead(s: State, slot: Slot, d: Dead, list: SlotList)
    requires Base(s) && Enabled(s, AddRoot(slot)) && DeadOk(s, d, list)
    ensures DeadOk(Apply(s, AddRoot(slot)), d, list)
  {
    var s' := Apply(s, AddRoot(slot));
    assert d.newest in s.rooted;
    forall x: Slot | x < d.newest && OutOfSight(s, x) ensures OutOfSight(s', x) {
      if InScannedFork(s', x) { NoNewForks(s, s', x); }
    }
    OthersStayDead(s, s', d, list);
  }

  lemma BeginScanStaysDead(s: State, id: nat, bank: BankId, ancestors: set<Slot>, d: Dead, list: SlotList)
    requires Base(s) && DeadOk(s, d, list)
    requires Enabled(s, BeginScan(id, bank, ancestors)) && Disciplined(All, s, BeginScan(id, bank, ancestors))
    ensures DeadOk(Apply(s, BeginScan(id, bank, ancestors)), d, list)
  {
    var s' := Apply(s, BeginScan(id, bank, ancestors));
    assert d.newest in s.rooted;
    forall x: Slot | x < d.newest && OutOfSight(s, x) ensures OutOfSight(s', x) {}
    OthersStayDead(s, s', d, list);
  }

  /** A step that edits the list of the pubkey found. */
  lemma OwnEditStaysDead(s: State, step: Step, i: nat)
    requires Inv(s) && Enabled(s, step) && Disciplined(All, s, step) && i in s.dead && EditedKey(s, step) == Some(s.dead[i].key)
    ensures DeadOk(s, s.dead[i], ListOf(Apply(s, step), s.dead[i].key))
  {
    var d, list := s.dead[i], ListOf(s, s.dead[i].key);
    match step
    case WriteAccount(key, slot, info) => WriteStaysDead(s, d, list, Entry(slot, info));
    case CleanKey(id, key) => CleanStaysDead(s, d, list, s.cleans[id].value);
    case FlushKey(key, slot) => FlushStaysDead(s, d, list, slot);
    case FlushSkips(id, key, slot) => SkipStaysDead(s, d, key, s.cleans[id].value, slot);
    case PurgeDead(j) => TakeStaysDead(s, d, s.dead[j], list);
    case PurgeSlot(key, slot) => PurgeStaysDead(s, d, list, slot);
    case _ =>
  }

  lemma StaysDead(s: State, step: Step, i: nat)
    requires Inv(s) && Enabled(s, step) && Disciplined(All, s, step) && i in s.dead
    ensures DeadOk(Apply(s, step), s.dead[i], ListOf(Apply(s, step), s.dead[i].key))
  {
    var d, list, s' := s.dead[i], ListOf(s, s.dead[i].key), Apply(s, step);
    if step.BeginScan? {
      BeginScanStaysDead(s, step.scan, step.bank, step.ancestors, d, list);
    } else if step.AddRoot? {
      AddRootStaysDead(s, step.slot, d, list);
    } else {
      if EditedKey(s, step) == Some(d.key) { OwnEditStaysDead(s, step, i); } else { OtherListsStay(s, step, d.key); }
      NothingNew(s, step);
      QuietStaysDead(s, s', d, ListOf(s', d.key));
    }
  }

  lemma NothingNew(s: State, step: Step)
    requires Enabled(s, step) && Disciplined(All, s, step) && !step.BeginScan? && !step.AddRoot?
    ensures var s' := Apply(s, step); s'.rooted == s.rooted && NoNewScans(s, s')
    ensures var s' := Apply(s, step); forall key, e :: key in s.index && e in s.index[key] && e.slot in s.roots ==> e.slot in s'.roots
  {
  }

  /** A clean's finding: what it leaves below the newest version is unrooted, so of no scan's fork. */
  lemma FoundIsDead(s: State, clean: nat, key: Key)
    requires Base(s) && clean in s.cleans
    requires var newest := NewestRooted(s.roots, ListOf(s, key), s.cleans[clean]); newest.Some? && newest.value.info.zero
    ensures DeadOk(s, FoundDead(s, key, s.cleans[clean]), ListOf(s, key))
  {
    var list, bound := ListOf(s, key), s.cleans[clean];
    var newest, d := NewestRooted(s.roots, list, bound).value, FoundDead(s, key, bound);
    assert newest in list && Settled(s, newest.slot);
    forall e | e in list ensures EntryOk(s, d, list, e) {
      if e.slot == newest.slot { UniqueMember(list, e, newest); }
    }
  }

  lemma SingleIsDead(s: State, i: nat, key: Key, slot: Slot)
    requires Base(s) && Enabled(s, FindSingle(i, key, slot)) && Disciplined(All, s, FindSingle(i, key, slot))
    ensures DeadOk(s, Dead(key, slot, {slot}), ListOf(s, key))
  {
  }

  lemma StepKeeps(s: State, step: Step)
    requires Inv(s) && Enabled(s, step) && Disciplined(All, s, step)
    ensures Inv(Apply(s, step))
  {
    BaseKeeps(s, step);
    var s' := Apply(s, step);
    forall i | i in s'.dead ensures DeadOk(s', s'.dead[i], ListOf(s', s'.dead[i].key)) {
      if i in s.dead {
        StaysDead(s, step, i);
      } else if step.FindDead? {
        FoundIsDead(s, step.clean, step.key);
        QuietStaysDead(s, s', s'.dead[i], ListOf(s, step.key));
      } else {
        SingleIsDead(s, i, step.key, step.slot);
        QuietStaysDead(s, s', s'.dead[i], ListOf(s, step.key));
      }
    }
  }

  /** Between scans and cleans little is left of the invariant. */
  lemma QuietInv(s: State)
    requires s.ongoing == map[] && s.scans == map[] && s.cleans == map[] && s.dead == map[]
    requires s.roots == s.rooted && (forall r :: r in s.rooted ==> r < s.maxExclusive) && (s.maxExclusive > 0 ==> MaxRoot(s) in s.rooted)
    requires forall key :: key in s.index ==> Unique(s.index[key])
    ensures Inv(s)
  {
    forall r ensures |ScansAt(s.scans, r)| == 0 { assert ScansAt(s.scans, r) == {}; }
  }
}
