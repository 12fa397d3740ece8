/**
  `AccountStorage` while slots are being shrunk. A shrink reads the old store from `map`, publishes
  the new store in `shrink_in_progress_map`, later swaps it into `map`, and then unpublishes it; readers look in
  `map`, in `shrink_in_progress_map`, and in `map` again. Every access is one step, and the steps
  of any number of shrinks and readers interleave.
 */
module AccountStorages {
  import opened Wrappers

  type Slot = nat

  type FileId = nat

  /** A store; `file` tells equivalent stores with one id apart. */
  datatype Store = Store(id: FileId, file: nat)

  datatype Reference = Reference(storage: Store, id: FileId)

  datatype Phase = Started | Published | Swapped

  /** A shrink, from its read of the old store until the drop of its `ShrinkInProgress` is over. */
  datatype Shrink = Shrink(oldStore: Store, newStore: Store, phase: Phase)

  datatype Lookup =
    | MissedInMap(slot: Slot, id: FileId)
    | MissedInProgress(slot: Slot, id: FileId)
    | Returned(id: FileId, result: Option<Store>)

  datatype State = State(
    map_: map<Slot, Reference>,
    progress: map<Slot, Store>,
    shrinks: map<Slot, Shrink>,
    lookups: map<nat, Lookup>,
    ids: set<FileId>)                 // every id handed out so far

  datatype Step =
    | Insert(slot: Slot, store: Store)
    | Remove(slot: Slot)
    | Reopen(slot: Slot, store: Store)            // replace_storage_with_equivalent
    | Start(slot: Slot, newStore: Store)          // shrinking_in_progress, the read of the old store
    | Publish(slot: Slot)                         // shrinking_in_progress, the insertion of the new one
    | Swap(slot: Slot)                            // drop, first half
    | Unpublish(slot: Slot)                       // drop, second half
    | FirstRead(reader: nat, slot: Slot, id: FileId)
    | SecondRead(reader: nat)
    | ThirdRead(reader: nat)

  predicate InMap(s: State, slot: Slot, id: FileId) { slot in s.map_ && s.map_[slot].id == id }

  predicate InProgress(s: State, slot: Slot, id: FileId) { slot in s.progress && s.progress[slot].id == id }

  /** The store can be had from one of the two maps. */
  predicate Available(s: State, slot: Slot, id: FileId) { InMap(s, slot, id) || InProgress(s, slot, id) }

  /** What the code asserts, and that ids are fresh and a slot is not shrunk twice at once, or removed meanwhile. */
  predicate Enabled(s: State, step: Step) {
    match step
    case Insert(slot, store) => s.progress == map[] && slot !in s.map_ && store.id !in s.ids
    case Remove(slot) => slot !in s.shrinks
    case Reopen(slot, store) => slot in s.map_ && store.id == s.map_[slot].storage.id
    case Start(slot, newStore) => slot in s.map_ && slot !in s.shrinks && newStore.id !in s.ids
    case Publish(slot) => slot in s.shrinks && s.shrinks[slot].phase.Started?
    case Swap(slot) => slot in s.shrinks && s.shrinks[slot].phase.Published?
    case Unpublish(slot) => slot in s.shrinks && s.shrinks[slot].phase.Swapped?
    case FirstRead(reader, _, _) => reader !in s.lookups
    case SecondRead(reader) => reader in s.lookups && s.lookups[reader].MissedInMap?
    case ThirdRead(reader) => reader in s.lookups && s.lookups[reader].MissedInProgress?
  }

  function Apply(s: State, step: Step): State
    requires Enabled(s, step)
  {
    match step
    case Insert(slot, store) => s.(map_ := s.map_[slot := Reference(store, store.id)], ids := s.ids + {store.id})
    case Remove(slot) => s.(map_ := s.map_ - {slot})
    case Reopen(slot, store) => s.(map_ := s.map_[slot := s.map_[slot].(storage := store)])
    case Start(slot, newStore) =>
      s.(shrinks := s.shrinks[slot := Shrink(s.map_[slot].storage, newStore, Started)], ids := s.ids + {newStore.id})
    case Publish(slot) =>
      s.(progress := s.progress[slot := s.shrinks[slot].newStore],
         shrinks := s.shrinks[slot := s.shrinks[slot].(phase := Published)])
    case Swap(slot) =>
      var newStore := s.shrinks[slot].newStore;
      s.(map_ := s.map_[slot := Reference(newStore, newStore.id)],
         shrinks := s.shrinks[slot := s.shrinks[slot].(phase := Swapped)])
    case Unpublish(slot) => s.(progress := s.progress - {slot}, shrinks := s.shrinks - {slot})
    case FirstRead(reader, slot, id) =>
      s.(lookups := s.lookups[reader :=
        if InMap(s, slot, id) then Returned(id, Some(s.map_[slot].storage)) else MissedInMap(slot, id)])
    case SecondRead(reader) =>
      var l := s.lookups[reader];
      s.(lookups := s.lookups[reader :=
        if InProgress(s, l.slot, l.id) then Returned(l.id, Some(s.progress[l.slot])) else MissedInProgress(l.slot, l.id)])
    case ThirdRead(reader) =>
      var l := s.lookups[reader];
      s.(lookups := s.lookups[reader :=
        Returned(l.id, if InMap(s, l.slot, l.id) then Some(s.map_[l.slot].storage) else None)])
  }

  // ---------------------------------------------------------------- what every step keeps

  /** A shrink's old store is in the map until the swap, its new store is published until the end. */
  ghost predicate ShrinkOk(s: State, slot: Slot) {
    slot in s.shrinks ==>
      && (slot in s.progress <==> !s.shrinks[slot].phase.Started?)
      && (slot in s.progress ==> s.progress[slot] == s.shrinks[slot].newStore)
      && slot in s.map_ && s.map_[slot].id == (if s.shrinks[slot].phase.Swapped? then s.shrinks[slot].newStore else s.shrinks[slot].oldStore).id
      && s.shrinks[slot].newStore.id in s.ids && (!s.shrinks[slot].phase.Swapped? ==> s.map_[slot].id != s.shrinks[slot].newStore.id)
  }

  ghost predicate RefOk(s: State, slot: Slot) {
    && (slot in s.map_ ==> s.map_[slot].id == s.map_[slot].storage.id && s.map_[slot].id in s.ids)
    && (slot in s.progress ==> slot in s.shrinks && s.progress[slot].id in s.ids)
  }

  ghost predicate LookupOk(l: Lookup) {
    l.Returned? && l.result.Some? ==> l.result.value.id == l.id
  }

  ghost predicate Inv(s: State) {
    && (forall slot :: ShrinkOk(s, slot))
    && (forall slot :: RefOk(s, slot))
    && (forall r :: r in s.lookups ==> LookupOk(s.lookups[r]))
  }

  lemma StepKeeps(s: State, step: Step)
    requires Inv(s) && Enabled(s, step)
    ensures Inv(Apply(s, step))
  {
    var s' := Apply(s, step);
    forall slot ensures ShrinkOk(s', slot) && RefOk(s', slot) { assert ShrinkOk(s, slot) && RefOk(s, slot); }
    if step.FirstRead? { assert RefOk(s, step.slot); }
    if step.ThirdRead? { assert RefOk(s, s.lookups[step.reader].slot); }
  }

  /** No assertion of a shrink fails: nothing is published before, and the drop finds the old store and the published one. */
  lemma ShrinkAssertionsHold(s: State, slot: Slot)
    requires Inv(s) && slot in s.shrinks
    ensures s.shrinks[slot].phase.Started? ==> slot !in s.progress
    ensures s.shrinks[slot].phase.Published? ==> InMap(s, slot, s.shrinks[slot].oldStore.id)
    ensures s.shrinks[slot].phase.Swapped? ==> slot in s.progress
  {
    assert ShrinkOk(s, slot);
  }

  // ---------------------------------------------------------------- lookups

  /** The store has left `shrink_in_progress_map` for `map`, or was never there. */
  predicate Settled(s: State, slot: Slot, id: FileId) { InMap(s, slot, id) && !InProgress(s, slot, id) }

  /** A settled store stays in `map` for as long as it can be had at all. */
  lemma SettledStays(s: State, step: Step, slot: Slot, id: FileId)
    requires Inv(s) && Enabled(s, step) && Settled(s, slot, id) && Available(Apply(s, step), slot, id)
    ensures Settled(Apply(s, step), slot, id)
  {
    assert ShrinkOk(s, slot) && RefOk(s, slot);
  }

  ghost predicate Run(s: State, steps: seq<Step>)
    decreases |steps|
  {
    steps == [] || (Enabled(s, steps[0]) && Run(Apply(s, steps[0]), steps[1..]))
  }

  ghost function After(s: State, steps: seq<Step>): State
    requires Run(s, steps)
    decreases |steps|
  {
    if steps == [] then s else After(Apply(s, steps[0]), steps[1..])
  }

  /** The store can be had in every state of the run. */
  ghost predicate AlwaysAvailable(s: State, steps: seq<Step>, slot: Slot, id: FileId)
    requires Run(s, steps)
    decreases |steps|
  {
    Available(s, slot, id) && (steps == [] || AlwaysAvailable(Apply(s, steps[0]), steps[1..], slot, id))
  }

  /** The lookup has not missed the store for good. */
  ghost predicate OnTrack(s: State, reader: nat, slot: Slot, id: FileId) {
    reader in s.lookups &&
    match s.lookups[reader]
    case MissedInMap(sl, i) => sl == slot && i == id
    case MissedInProgress(sl, i) => sl == slot && i == id && Settled(s, slot, id)
    case Returned(i, result) => i == id && result.Some? && result.value.id == id
  }

  lemma StepStaysOnTrack(s: State, step: Step, reader: nat, slot: Slot, id: FileId)
    requires Inv(s) && Enabled(s, step) && OnTrack(s, reader, slot, id)
    requires Available(s, slot, id) && Available(Apply(s, step), slot, id)
    ensures OnTrack(Apply(s, step), reader, slot, id)
  {
    assert RefOk(s, slot);
    if s.lookups[reader].MissedInProgress? { SettledStays(s, step, slot, id); }
  }

  /**
    Lookup safety: whatever shrinks, removals and other readers do meanwhile, a lookup never comes
    back empty-handed for a store that could be had in every state since its first read, and what
    it returns has the id asked for.
   */
  lemma {:induction false} LookupFinds(s: State, steps: seq<Step>, reader: nat, slot: Slot, id: FileId)
    requires Inv(s) && Run(s, steps) && OnTrack(s, reader, slot, id) && AlwaysAvailable(s, steps, slot, id)
    ensures OnTrack(After(s, steps), reader, slot, id)
    decreases |steps|
  {
    if steps != [] {
      StepKeeps(s, steps[0]);
      StepStaysOnTrack(s, steps[0], reader, slot, id);
      LookupFinds(Apply(s, steps[0]), steps[1..], reader, slot, id);
    }
  }

  lemma FirstReadIsOnTrack(s: State, reader: nat, slot: Slot, id: FileId)
    requires Inv(s) && Enabled(s, FirstRead(reader, slot, id)) && Available(s, slot, id)
    ensures OnTrack(Apply(s, FirstRead(reader, slot, id)), reader, slot, id)
  {
    assert RefOk(s, slot);
  }

  // ---------------------------------------------------------------- what makes a store available

  /** The slot is neither removed nor shrunk again. */
  predicate Undisturbed(steps: seq<Step>, slot: Slot) {
    forall i :: 0 <= i < |steps| ==> steps[i] != Remove(slot) && steps[i] != Publish(slot)
  }

  /** The newest store of the slot: published, or in the map with nothing published. */
  predicate Newest(s: State, slot: Slot, id: FileId) {
    InProgress(s, slot, id) || (InMap(s, slot, id) && slot !in s.progress)
  }

  lemma NewestStays(s: State, step: Step, slot: Slot, id: FileId)
    requires Inv(s) && Enabled(s, step) && Newest(s, slot, id) && step != Remove(slot) && step != Publish(slot)
    ensures Newest(Apply(s, step), slot, id)
  {
    assert ShrinkOk(s, slot) && RefOk(s, slot);
  }

  lemma {:induction false} NewestIsAvailable(s: State, steps: seq<Step>, slot: Slot, id: FileId)
    requires Inv(s) && Run(s, steps) && Newest(s, slot, id) && Undisturbed(steps, slot)
    ensures AlwaysAvailable(s, steps, slot, id)
    decreases |steps|
  {
    if steps != [] {
      StepKeeps(s, steps[0]);
      NewestStays(s, steps[0], slot, id);
      NewestIsAvailable(Apply(s, steps[0]), steps[1..], slot, id);
    }
  }

  // ---------------------------------------------------------------- which store a lookup returns

  /** The step brings `store` to the slot: inserted, reopened, or written by a shrink. */
  predicate Brings(step: Step, slot: Slot, store: Store) {
    step == Insert(slot, store) || step == Reopen(slot, store) || step == Start(slot, store)
  }

  /** The stores with the id that the slot has, and those a lookup of it has returned, are among `known`. */
  ghost predicate Traced(s: State, slot: Slot, id: FileId, reader: nat, known: set<Store>) {
    && (slot in s.map_ && s.map_[slot].storage.id == id ==> s.map_[slot].storage in known)
    && (slot in s.progress && s.progress[slot].id == id ==> s.progress[slot] in known)
    && (slot in s.shrinks && s.shrinks[slot].newStore.id == id ==> s.shrinks[slot].newStore in known)
    && reader in s.lookups
    && match s.lookups[reader]
       case MissedInMap(sl, i) => sl == slot && i == id
       case MissedInProgress(sl, i) => sl == slot && i == id
       case Returned(i, result) => i == id && (result.Some? ==> result.value in known)
  }

  ghost function Brought(step: Step, slot: Slot, id: FileId): set<Store> {
    if (step.Insert? || step.Reopen?) && step.slot == slot && step.store.id == id then {step.store}
    else if step.Start? && step.slot == slot && step.newStore.id == id then {step.newStore}
    else {}
  }

  lemma StepTraces(s: State, step: Step, slot: Slot, id: FileId, reader: nat, known: set<Store>)
    requires Inv(s) && Enabled(s, step) && Traced(s, slot, id, reader, known)
    ensures Traced(Apply(s, step), slot, id, reader, known + Brought(step, slot, id))
  {
    assert RefOk(s, slot) && ShrinkOk(s, slot);
  }

  /** A lookup returns a store the slot had when the lookup began, or one brought to the slot since. */
  lemma {:induction false} ReturnsWhatWasBrought(s: State, steps: seq<Step>, slot: Slot, id: FileId, reader: nat, known: set<Store>)
    requires Inv(s) && Run(s, steps) && Traced(s, slot, id, reader, known)
    ensures var s' := After(s, steps);
            && reader in s'.lookups && s'.lookups[reader].id == id
            && (s'.lookups[reader].Returned? && s'.lookups[reader].result.Some? ==>
                  var store := s'.lookups[reader].result.value;
                  store in known || exists i :: 0 <= i < |steps| && Brings(steps[i], slot, store))
    decreases |steps|
  {
    if steps != [] {
      StepKeeps(s, steps[0]);
      StepTraces(s, steps[0], slot, id, reader, known);
      var more := Brought(steps[0], slot, id);
      ReturnsWhatWasBrought(Apply(s, steps[0]), steps[1..], slot, id, reader, known + more);
      forall store | store in more ensures Brings(steps[0], slot, store) {}
      forall i | 0 <= i < |steps| - 1 ensures steps[1..][i] == steps[i + 1] {}
    }
  }

  /** Ids are never handed out twice. */
  lemma {:induction false} OldIdsAreNotReused(s: State, steps: seq<Step>, i: nat)
    requires Run(s, steps) && i < |steps|
    ensures steps[i].Insert? ==> steps[i].store.id !in s.ids
    ensures steps[i].Start? ==> steps[i].newStore.id !in s.ids
    decreases |steps|
  {
    if i > 0 { OldIdsAreNotReused(Apply(s, steps[0]), steps[1..], i - 1); }
  }

  /** Once swapped in, the new store itself is in the map until the slot is reopened, removed or shrunk again. */
  lemma {:induction false} SwappedStoreStays(s: State, steps: seq<Step>, slot: Slot, store: Store)
    requires Run(s, steps) && Undisturbed(steps, slot) && forall x :: Reopen(slot, x) !in steps
    requires slot in s.map_ && s.map_[slot] == Reference(store, store.id) && (slot in s.shrinks ==> !s.shrinks[slot].phase.Published?)
    ensures var s' := After(s, steps); slot in s'.map_ && s'.map_[slot] == Reference(store, store.id)
    decreases |steps|
  {
    if steps != [] { SwappedStoreStays(Apply(s, steps[0]), steps[1..], slot, store); }
  }

  lemma SwapPutsNewStore(s: State, steps: seq<Step>, slot: Slot)
    requires Enabled(s, Swap(slot)) && Run(Apply(s, Swap(slot)), steps)
    requires Undisturbed(steps, slot) && forall x :: Reopen(slot, x) !in steps
    ensures var s' := After(Apply(s, Swap(slot)), steps); slot in s'.map_ && s'.map_[slot].storage == s.shrinks[slot].newStore
  {
    SwappedStoreStays(Apply(s, Swap(slot)), steps, slot, s.shrinks[slot].newStore);
  }

  /**
    A lookup of the new store that starts once it is published finds it, wherever the shrink is: the very
    store that was published, or one that it has been reopened as.
   */
  lemma NewStoreIsFound(s: State, steps: seq<Step>, reader: nat, slot: Slot, id: FileId)
    requires Inv(s) && Newest(s, slot, id) && Enabled(s, FirstRead(reader, slot, id))
    requires Run(Apply(s, FirstRead(reader, slot, id)), steps) && Undisturbed(steps, slot)
    ensures var s' := After(Apply(s, FirstRead(reader, slot, id)), steps);
            && OnTrack(s', reader, slot, id)
            && (s'.lookups[reader].Returned? ==>
                  var store := s'.lookups[reader].result.value;
                  || (slot in s.progress && store == s.progress[slot])
                  || (slot in s.map_ && store == s.map_[slot].storage)
                  || Reopen(slot, store) in steps)
  {
    var s' := Apply(s, FirstRead(reader, slot, id));
    StepKeeps(s, FirstRead(reader, slot, id));
    NewestStays(s, FirstRead(reader, slot, id), slot, id);
    FirstReadIsOnTrack(s, reader, slot, id);
    NewestIsAvailable(s', steps, slot, id);
    LookupFinds(s', steps, reader, slot, id);
    NewStoreIsReturned(s, steps, reader, slot, id);
  }

  lemma NewStoreIsReturned(s: State, steps: seq<Step>, reader: nat, slot: Slot, id: FileId)
    requires Inv(s) && Newest(s, slot, id) && Enabled(s, FirstRead(reader, slot, id))
    requires Run(Apply(s, FirstRead(reader, slot, id)), steps)
    ensures var s' := After(Apply(s, FirstRead(reader, slot, id)), steps);
            reader in s'.lookups && (s'.lookups[reader].Returned? && s'.lookups[reader].result.Some? ==>
              var store := s'.lookups[reader].result.value; store in Stores(s, slot) || Reopen(slot, store) in steps)
  {
    var s1 := Apply(s, FirstRead(reader, slot, id));
    StepKeeps(s, FirstRead(reader, slot, id));
    assert RefOk(s, slot) && ShrinkOk(s, slot);
    ReturnsWhatWasBrought(s1, steps, slot, id, reader, Stores(s, slot));
    var l := After(s1, steps).lookups[reader];
    if l.Returned? && l.result.Some? && l.result.value !in Stores(s, slot) {
      var i :| 0 <= i < |steps| && Brings(steps[i], slot, l.result.value);
      OldIdsAreNotReused(s1, steps, i);
      RunKeeps(s1, steps);
      assert LookupOk(After(s1, steps).lookups[reader]);
    }
  }

  ghost function Stores(s: State, slot: Slot): set<Store> {
    (if slot in s.progress then {s.progress[slot]} else {}) + (if slot in s.map_ then {s.map_[slot].storage} else {})
  }

  /** A lookup of the old store whose first read comes before the swap returns it at once, as it then is. */
  lemma OldStoreIsFound(s: State, reader: nat, slot: Slot)
    requires Inv(s) && slot in s.shrinks && !s.shrinks[slot].phase.Swapped?
    requires Enabled(s, FirstRead(reader, slot, s.shrinks[slot].oldStore.id))
    ensures slot in s.map_
    ensures var l := Apply(s, FirstRead(reader, slot, s.shrinks[slot].oldStore.id)).lookups[reader];
            l.Returned? && l.result == Some(s.map_[slot].storage) && l.result.value.id == s.shrinks[slot].oldStore.id
  {
    assert ShrinkOk(s, slot) && RefOk(s, slot);
  }

  /** A store just inserted, or reopened, is what a lookup returns; of a slot just removed it returns nothing. */
  lemma InsertedIsFound(s: State, reader: nat, slot: Slot, store: Store)
    requires Inv(s) && Enabled(s, Insert(slot, store)) && reader !in s.lookups
    ensures Apply(Apply(s, Insert(slot, store)), FirstRead(reader, slot, store.id)).lookups[reader] == Returned(store.id, Some(store))
  {
  }

  lemma ReopenedIsFound(s: State, reader: nat, slot: Slot, store: Store)
    requires Inv(s) && Enabled(s, Reopen(slot, store)) && reader !in s.lookups
    ensures Apply(Apply(s, Reopen(slot, store)), FirstRead(reader, slot, store.id)).lookups[reader] == Returned(store.id, Some(store))
  {
    assert RefOk(s, slot);
  }

  lemma RemovedIsNotFound(s: State, reader: nat, slot: Slot, id: FileId)
    requires Inv(s) && Enabled(s, Remove(slot)) && reader !in s.lookups
    ensures var first := Apply(Apply(s, Remove(slot)), FirstRead(reader, slot, id));
            && Enabled(first, SecondRead(reader)) && Enabled(Apply(first, SecondRead(reader)), ThirdRead(reader))
            && Apply(Apply(first, SecondRead(reader)), ThirdRead(reader)).lookups[reader] == Returned(id, None)
  {
    assert RefOk(s, slot);
  }

  // ---------------------------------------------------------------- exactly when a lookup can miss

  lemma RunCons(s: State, step: Step, rest: seq<Step>)
    requires Enabled(s, step) && Run(Apply(s, step), rest)
    ensures Run(s, [step] + rest) && After(s, [step] + rest) == After(Apply(s, step), rest)
  {
    assert ([step] + rest)[1..] == rest;
  }

  lemma {:induction false} RunConcat(s: State, a: seq<Step>, b: seq<Step>)
    requires Run(s, a) && Run(After(s, a), b)
    ensures Run(s, a + b) && After(s, a + b) == After(After(s, a), b)
    decreases |a|
  {
    if a == [] {
      assert a + b == b;
    } else {
      assert (a + b)[1..] == a[1..] + b;
      RunConcat(Apply(s, a[0]), a[1..], b);
    }
  }

  lemma {:induction false} RunSplit(s: State, steps: seq<Step>, t: nat)
    requires Run(s, steps) && t <= |steps|
    ensures Run(s, steps[..t]) && Run(After(s, steps[..t]), steps[t..])
    decreases |steps|
  {
    if t == 0 {
      assert steps[..0] == [] && steps[0..] == steps;
    } else {
      var next := Apply(s, steps[0]);
      RunSplit(next, steps[1..], t - 1);
      RunCons(s, steps[0], steps[1..][..t - 1]);
      assert [steps[0]] + steps[1..][..t - 1] == steps[..t] && steps[1..][t - 1..] == steps[t..];
    }
  }

  /** Steps of anybody but the reader. */
  predicate Others(step: Step, reader: nat) {
    !((step.FirstRead? || step.SecondRead? || step.ThirdRead?) && step.reader == reader)
  }

  ghost predicate AllOthers(steps: seq<Step>, reader: nat) {
    forall i :: 0 <= i < |steps| ==> Others(steps[i], reader)
  }

  function WithLookup(s: State, reader: nat, l: Lookup): State { s.(lookups := s.lookups[reader := l]) }

  /** How far a reader is makes no difference to the others. */
  lemma OthersDoNotMind(s: State, step: Step, reader: nat, l: Lookup)
    requires reader in s.lookups && Others(step, reader) && Enabled(s, step)
    ensures Enabled(WithLookup(s, reader, l), step)
    ensures Apply(WithLookup(s, reader, l), step) == WithLookup(Apply(s, step), reader, l)
    ensures reader in Apply(s, step).lookups && Apply(s, step).lookups[reader] == s.lookups[reader]
  {
    var t, u := Apply(WithLookup(s, reader, l), step), WithLookup(Apply(s, step), reader, l);
    assert t.lookups == u.lookups;
  }

  lemma {:induction false} OthersRunOn(s: State, steps: seq<Step>, reader: nat, l: Lookup)
    requires reader in s.lookups && AllOthers(steps, reader) && Run(s, steps)
    ensures Run(WithLookup(s, reader, l), steps)
    ensures After(WithLookup(s, reader, l), steps) == WithLookup(After(s, steps), reader, l)
    ensures reader in After(s, steps).lookups && After(s, steps).lookups[reader] == s.lookups[reader]
    decreases |steps|
  {
    if steps != [] {
      OthersDoNotMind(s, steps[0], reader, l);
      OthersRunOn(Apply(s, steps[0]), steps[1..], reader, l);
    }
  }

  /** The storage after `t` steps of the others. */
  ghost function At(s: State, steps: seq<Step>, t: nat): State
    requires Run(s, steps) && t <= |steps|
  {
    RunSplit(s, steps, t);
    After(s, steps[..t])
  }

  /** A lookup whose first read missed, and the others' steps from then on. */
  ghost predicate Missed(s: State, steps: seq<Step>, reader: nat, slot: Slot, id: FileId) {
    Run(s, steps) && AllOthers(steps, reader) && reader in s.lookups && s.lookups[reader] == MissedInMap(slot, id)
  }

  /** The others' steps with the lookup's second read after `i` of them and, if it misses too, its third after `j`. */
  ghost function Interleaved(s: State, steps: seq<Step>, reader: nat, slot: Slot, id: FileId, i: nat, j: nat): seq<Step>
    requires Missed(s, steps, reader, slot, id) && i <= j <= |steps|
  {
    steps[..i] + ([SecondRead(reader)] + (steps[i..j] + if InProgress(At(s, steps, i), slot, id) then [] else [ThirdRead(reader)]))
  }

  /** Each interleaving is a run, and the lookup then returns what its two reads find. */
  lemma InterleavedReturns(s: State, steps: seq<Step>, reader: nat, slot: Slot, id: FileId, i: nat, j: nat)
    requires Missed(s, steps, reader, slot, id) && i <= j <= |steps|
    ensures var run := Interleaved(s, steps, reader, slot, id, i, j);
            && Run(s, run) && reader in After(s, run).lookups
            && After(s, run).lookups[reader] == Returned(id,
                 if InProgress(At(s, steps, i), slot, id) then Some(At(s, steps, i).progress[slot])
                 else if InMap(At(s, steps, j), slot, id) then Some(At(s, steps, j).map_[slot].storage)
                 else None)
  {
    var read := SecondRead(reader);
    var a := At(s, steps, i);
    SecondReadThen(s, steps, reader, slot, id, i, j);
    var l := Apply(a, read).lookups[reader];
    var b := WithLookup(At(s, steps, j), reader, l);
    if InProgress(a, slot, id) {
      assert steps[i..j] + [] == steps[i..j];
      ReadThen(s, steps[..i], read, steps[i..j]);
    } else {
      RunCons(b, ThirdRead(reader), []);
      assert [ThirdRead(reader)] + [] == [ThirdRead(reader)];
      RunConcat(Apply(a, read), steps[i..j], [ThirdRead(reader)]);
      ReadThen(s, steps[..i], read, steps[i..j] + [ThirdRead(reader)]);
    }
  }

  /** The second read, and the others going on to `j`. */
  lemma SecondReadThen(s: State, steps: seq<Step>, reader: nat, slot: Slot, id: FileId, i: nat, j: nat)
    requires Missed(s, steps, reader, slot, id) && i <= j <= |steps|
    ensures var a := At(s, steps, i);
            && Enabled(a, SecondRead(reader)) && a.lookups[reader] == MissedInMap(slot, id)
            && Run(s, steps[..i]) && Run(Apply(a, SecondRead(reader)), steps[i..j])
            && After(Apply(a, SecondRead(reader)), steps[i..j])
               == WithLookup(At(s, steps, j), reader, Apply(a, SecondRead(reader)).lookups[reader])
  {
    var a := At(s, steps, i);
    AtAt(s, steps, i, j);
    OthersRunOn(s, steps[..i], reader, s.lookups[reader]);
    var l := Apply(a, SecondRead(reader)).lookups[reader];
    OthersRunOn(a, steps[i..j], reader, l);
    assert Apply(a, SecondRead(reader)) == WithLookup(a, reader, l);
  }

  lemma AtAt(s: State, steps: seq<Step>, i: nat, j: nat)
    requires Run(s, steps) && i <= j <= |steps|
    ensures Run(s, steps[..i]) && Run(At(s, steps, i), steps[i..j]) && After(At(s, steps, i), steps[i..j]) == At(s, steps, j)
  {
    RunSplit(s, steps, j);
    RunSplit(s, steps[..j], i);
    assert steps[..j][..i] == steps[..i] && steps[..j][i..] == steps[i..j] && steps[..i] + steps[i..j] == steps[..j];
    RunConcat(s, steps[..i], steps[i..j]);
  }

  lemma ReadThen(s: State, before: seq<Step>, read: Step, after: seq<Step>)
    requires Run(s, before) && Enabled(After(s, before), read) && Run(Apply(After(s, before), read), after)
    ensures Run(s, before + ([read] + after))
    ensures After(s, before + ([read] + after)) == After(Apply(After(s, before), read), after)
  {
    RunCons(After(s, before), read, after);
    RunConcat(s, before, [read] + after);
  }

  /** The lookup returns the store. */
  ghost predicate Finds(s: State, run: seq<Step>, reader: nat) {
    Run(s, run) && reader in After(s, run).lookups && After(s, run).lookups[reader].Returned? && After(s, run).lookups[reader].result.Some?
  }

  lemma {:induction false} AvailableAt(s: State, steps: seq<Step>, slot: Slot, id: FileId)
    requires Run(s, steps)
    ensures AlwaysAvailable(s, steps, slot, id) <==> forall t :: 0 <= t <= |steps| ==> Available(At(s, steps, t), slot, id)
    decreases |steps|
  {
    assert steps[..0] == [] && At(s, steps, 0) == s;
    if steps != [] {
      var next := Apply(s, steps[0]);
      AvailableAt(next, steps[1..], slot, id);
      forall t: nat | t < |steps| ensures At(next, steps[1..], t) == At(s, steps, t + 1) {
        assert steps[..t + 1][1..] == steps[1..][..t];
        RunSplit(s, steps, t + 1);
      }
      assert forall t :: 0 < t <= |steps| ==> At(s, steps, t) == At(next, steps[1..], t - 1);
    }
  }

  /** A settled store stays in `map` while it is available. */
  lemma {:induction false} SettledAlong(s: State, steps: seq<Step>, slot: Slot, id: FileId)
    requires Inv(s) && Run(s, steps) && Settled(s, slot, id) && AlwaysAvailable(s, steps, slot, id)
    ensures InMap(After(s, steps), slot, id)
    decreases |steps|
  {
    if steps != [] {
      StepKeeps(s, steps[0]);
      SettledStays(s, steps[0], slot, id);
      SettledAlong(Apply(s, steps[0]), steps[1..], slot, id);
    }
  }

  lemma {:induction false} RunKeeps(s: State, steps: seq<Step>)
    requires Inv(s) && Run(s, steps)
    ensures Inv(After(s, steps))
    decreases |steps|
  {
    if steps != [] {
      StepKeeps(s, steps[0]);
      RunKeeps(Apply(s, steps[0]), steps[1..]);
    }
  }

  lemma TakeOfPart(steps: seq<Step>, i: nat, j: nat, t: nat)
    requires i + t <= j <= |steps|
    ensures steps[i..j][..t] == steps[i..i + t]
  {
  }

  lemma AvailablePart(s: State, steps: seq<Step>, slot: Slot, id: FileId, i: nat, j: nat)
    requires Run(s, steps) && AlwaysAvailable(s, steps, slot, id) && i <= j <= |steps|
    ensures Run(At(s, steps, i), steps[i..j]) && AlwaysAvailable(At(s, steps, i), steps[i..j], slot, id)
  {
    var a, part := At(s, steps, i), steps[i..j];
    AtAt(s, steps, i, j);
    AvailableAt(s, steps, slot, id);
    forall t: nat | t <= |part| ensures Available(At(a, part, t), slot, id) {
      AtAt(s, steps, i, i + t);
      TakeOfPart(steps, i, j, t);
    }
    AvailableAt(a, part, slot, id);
  }

  /** If the store is available throughout, two reads in this order cannot both miss it. */
  lemma ReadsFind(s: State, steps: seq<Step>, slot: Slot, id: FileId, i: nat, j: nat)
    requires Inv(s) && Run(s, steps) && AlwaysAvailable(s, steps, slot, id) && i <= j <= |steps|
    ensures InProgress(At(s, steps, i), slot, id) || InMap(At(s, steps, j), slot, id)
  {
    AtAt(s, steps, i, j);
    RunKeeps(s, steps[..i]);
    AvailablePart(s, steps, slot, id, i, j);
    if !InProgress(At(s, steps, i), slot, id) { SettledAlong(At(s, steps, i), steps[i..j], slot, id); }
  }

  /**
    Exactly when a lookup that missed at first is safe: it finds the store wherever its other reads
    fall among the others' steps, if and only if the store is available throughout those steps.
   */
  lemma FoundExactly(s: State, steps: seq<Step>, reader: nat, slot: Slot, id: FileId)
    requires Inv(s) && Missed(s, steps, reader, slot, id)
    ensures (forall i, j :: 0 <= i <= j <= |steps| ==> Finds(s, Interleaved(s, steps, reader, slot, id, i, j), reader))
       <==> AlwaysAvailable(s, steps, slot, id)
  {
    forall i: nat, j: nat | i <= j <= |steps|
      ensures Finds(s, Interleaved(s, steps, reader, slot, id, i, j), reader)
         <==> InProgress(At(s, steps, i), slot, id) || InMap(At(s, steps, j), slot, id)
    {
      InterleavedReturns(s, steps, reader, slot, id, i, j);
    }
    AvailableAt(s, steps, slot, id);
    if AlwaysAvailable(s, steps, slot, id) {
      forall i: nat, j: nat | i <= j <= |steps|
        ensures InProgress(At(s, steps, i), slot, id) || InMap(At(s, steps, j), slot, id)
      {
        ReadsFind(s, steps, slot, id, i, j);
      }
    } else {
      var t: nat :| t <= |steps| && !Available(At(s, steps, t), slot, id);
      assert !Finds(s, Interleaved(s, steps, reader, slot, id, t, t), reader);
    }
  }

  // ---------------------------------------------------------------- a store that was published and is missed

  /** Slot 0 is shrunk from store 1 to 2, which is published, and reader 0 has missed 2 in the map. */
  function Shrinking(): State {
    State(map[0 := Reference(Store(1, 0), 1)], map[0 := Store(2, 0)],
          map[0 := Shrink(Store(1, 0), Store(2, 0), Published)], map[0 := MissedInMap(0, 2)], {1, 2})
  }

  /** The shrink ends, and a second one publishes store 3. */
  function ShrunkTo3(): State {
    State(map[0 := Reference(Store(2, 0), 2)], map[0 := Store(3, 0)],
          map[0 := Shrink(Store(2, 0), Store(3, 0), Published)], map[0 := MissedInMap(0, 2)], {1, 2, 3})
  }

  function SecondShrink(): seq<Step> { [Swap(0), Unpublish(0), Start(0, Store(3, 0)), Publish(0)] }

  /** Up to its publication the second shrink does no harm. */
  lemma SecondShrinkIsHarmless()
    ensures Inv(Shrinking()) && Run(Shrinking(), SecondShrink()) && After(Shrinking(), SecondShrink()) == ShrunkTo3()
    ensures AlwaysAvailable(Shrinking(), SecondShrink(), 0, 2)
  {
    var s, steps := Shrinking(), SecondShrink();
    var a := Apply(s, steps[0]);
    var b := Apply(a, steps[1]);
    var c := Apply(b, steps[2]);
    var d := Apply(c, steps[3]);
    assert d == ShrunkTo3();
    assert steps[1..] == [steps[1], steps[2], steps[3]] && steps[1..][1..] == [steps[2], steps[3]];
    assert steps[1..][1..][1..] == [steps[3]] && [steps[3]][1..] == [];
    assert Run(d, []) && Run(c, [steps[3]]) && Run(b, steps[1..][1..]) && Run(a, steps[1..]);
  }

  function SwappedAgain(): seq<Step> { SecondShrink() + [Swap(0)] }

  lemma {:induction false} AvailableAtEnd(s: State, steps: seq<Step>, slot: Slot, id: FileId)
    requires Run(s, steps) && AlwaysAvailable(s, steps, slot, id)
    ensures Available(After(s, steps), slot, id)
    decreases |steps|
  {
    if steps != [] { AvailableAtEnd(Apply(s, steps[0]), steps[1..], slot, id); }
  }

  lemma SwappedAgainRuns()
    ensures Run(Shrinking(), SwappedAgain()) && After(Shrinking(), SwappedAgain()) == Apply(ShrunkTo3(), Swap(0))
  {
    SecondShrinkIsHarmless();
    RunCons(ShrunkTo3(), Swap(0), []);
    assert [Swap(0)] + [] == [Swap(0)];
    RunConcat(Shrinking(), SecondShrink(), [Swap(0)]);
  }

  lemma SwappedAgainIsGone()
    ensures Missed(Shrinking(), SwappedAgain(), 0, 0, 2) && !AlwaysAvailable(Shrinking(), SwappedAgain(), 0, 2)
  {
    SwappedAgainRuns();
    assert !Available(Apply(ShrunkTo3(), Swap(0)), 0, 2);
    if AlwaysAvailable(Shrinking(), SwappedAgain(), 0, 2) { AvailableAtEnd(Shrinking(), SwappedAgain(), 0, 2); }
  }

  /** When it swaps, the published store is gone, and some interleaving of the lookup misses it: the caller has to start over. */
  lemma ShrunkAgainIsMissed() returns (i: nat, j: nat)
    ensures Missed(Shrinking(), SwappedAgain(), 0, 0, 2) && InProgress(Shrinking(), 0, 2) && i <= j <= |SwappedAgain()|
    ensures !Finds(Shrinking(), Interleaved(Shrinking(), SwappedAgain(), 0, 0, 2, i, j), 0)
  {
    SwappedAgainIsGone();
    SecondShrinkIsHarmless();
    i, j := MissedSomewhere(Shrinking(), SwappedAgain(), 0, 0, 2);
  }

  lemma MissedSomewhere(s: State, steps: seq<Step>, reader: nat, slot: Slot, id: FileId) returns (i: nat, j: nat)
    requires Inv(s) && Missed(s, steps, reader, slot, id) && !AlwaysAvailable(s, steps, slot, id)
    ensures i <= j <= |steps| && !Finds(s, Interleaved(s, steps, reader, slot, id, i, j), reader)
  {
    FoundExactly(s, steps, reader, slot, id);
    i, j :| 0 <= i <= j <= |steps| && !Finds(s, Interleaved(s, steps, reader, slot, id, i, j), reader);
  }
}
