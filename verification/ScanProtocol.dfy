/**
  Scans against concurrent writers, root advances, cleans and shrinks, as a state machine over the
  steps that take the index's locks. Scans register the greatest root in `ongoing_scan_roots`; cleans
  compute their bound once, from the least registered root, and purge pubkeys one at a time later.
  So do flushes of the write cache that skip accounts a later root has written. Pubkeys whose last
  rooted version has no lamports are found by cleans and shrinks first and purged whole later.
 */
module ScanProtocol {
  import opened Wrappers
  import opened Pubkeys
  import opened SlotLists
  import opened SlotEdits

  type Key = Pubkey

  type BankId = nat

  datatype Scan = Scan(bank: BankId, root: Slot, ancestors: set<Slot>)

  /** A pubkey without lamports, found by a clean or a shrink: its newest version there, and the slots to purge. */
  datatype Dead = Dead(key: Key, newest: Slot, slots: set<Slot>)

  datatype State = State(
    roots: set<Slot>,                 // alive roots
    rooted: set<Slot>,                // every slot ever added as a root
    maxExclusive: nat,                // one above the greatest root ever added, 0 if none
    index: map<Key, SlotList>,
    ongoing: map<Slot, nat>,          // ongoing_scan_roots
    scans: map<nat, Scan>,            // scans that have begun and not ended
    cleans: map<nat, Option<Slot>>,   // clean and flush passes under way, with their bound
    dead: map<nat, Dead>,             // pubkeys found dead and not yet purged
    removed: set<BankId>)             // removed_bank_ids

  function MaxRoot(s: State): Slot { if s.maxExclusive == 0 then 0 else s.maxExclusive - 1 }

  function ListOf(s: State, key: Key): SlotList { if key in s.index then s.index[key] else [] }

  // ---------------------------------------------------------------- ongoing_scan_roots

  function Count(ongoing: map<Slot, nat>, root: Slot): nat { if root in ongoing then ongoing[root] else 0 }

  function Registered(ongoing: map<Slot, nat>, root: Slot): map<Slot, nat> {
    ongoing[root := Count(ongoing, root) + 1]
  }

  function Unregistered(ongoing: map<Slot, nat>, root: Slot): map<Slot, nat>
    requires Count(ongoing, root) > 0
  {
    if ongoing[root] == 1 then ongoing - {root} else ongoing[root := ongoing[root] - 1]
  }

  ghost predicate IsMinRoot(ongoing: map<Slot, nat>, r: Option<Slot>) {
    match r
    case None => ongoing == map[]
    case Some(m) => m in ongoing && forall k :: k in ongoing ==> m <= k
  }

  lemma {:induction false} LeastExists(s: set<Slot>, x: Slot)
    requires x in s
    ensures exists m :: m in s && forall k :: k in s ==> m <= k
    decreases x
  {
    if y :| y in s && y < x { LeastExists(s, y); }
  }

  /** `min_ongoing_scan_root`: the first key of the ordered map. */
  ghost function MinRoot(ongoing: map<Slot, nat>): (r: Option<Slot>)
    ensures IsMinRoot(ongoing, r)
  {
    if ongoing == map[] then None
    else
      assert exists m :: m in ongoing.Keys && forall k :: k in ongoing.Keys ==> m <= k by {
        var x :| x in ongoing.Keys;
        LeastExists(ongoing.Keys, x);
      }
      var m :| m in ongoing.Keys && forall k :: k in ongoing.Keys ==> m <= k;
      Some(m)
  }

  /** `AccountsDb::max_clean_root`. */
  function MaxCleanRoot(minScanRoot: Option<Slot>, proposed: Option<Slot>): Option<Slot> {
    match (minScanRoot, proposed)
    case (None, _) => proposed
    case (Some(_), None) => minScanRoot
    case (Some(a), Some(b)) => Some(if a <= b then a else b)
  }

  // ---------------------------------------------------------------- slot lists

  /** One pubkey's list is changed; with an empty slot list it is removed from the index. */
  function WithList(s: State, key: Key, list: SlotList): State {
    s.(index := if list == [] then s.index - {key} else s.index[key := list])
  }

  /** `get_rooted_entries`: the slots of the versions at alive roots up to the bound. */
  function RootedSlots(roots: set<Slot>, list: SlotList, bound: Option<Slot>): set<Slot> {
    set e | e in list && e.slot in roots && (bound.None? || e.slot <= bound.value) :: e.slot
  }

  /** The version a clean tests for lamports: the newest at an alive root up to its bound. */
  function NewestRooted(roots: set<Slot>, list: SlotList, bound: Option<Slot>): Option<Entry> {
    Latest(View({}, bound), roots, list)
  }

  // ---------------------------------------------------------------- steps

  datatype Step =
    | BeginScan(scan: nat, bank: BankId, ancestors: set<Slot>)
    | EndScan(scan: nat)
    | AddRoot(slot: Slot)
    | WriteAccount(key: Key, slot: Slot, info: Info)
    | BeginClean(clean: nat, proposed: Option<Slot>)
    | CleanKey(clean: nat, key: Key)
    | EndClean(clean: nat)
    | FlushKey(key: Key, slot: Slot)
    | FlushSkips(clean: nat, key: Key, slot: Slot)
    | FindDead(found: nat, clean: nat, key: Key)
    | FindSingle(found: nat, key: Key, slot: Slot)
    | PurgeDead(found: nat)
    | SpareDead(found: nat)
    | Repack(key: Key, from: Slot, to: Slot)
    | CleanDeadSlot(slot: Slot)
    | MarkRemoved(banks: set<BankId>)
    | PurgeSlot(key: Key, slot: Slot)
    | DropBank(bank: BankId)

  /** What the code itself checks before the step takes effect. */
  ghost predicate Enabled(s: State, step: Step) {
    match step
    case BeginScan(id, _, _) => id !in s.scans
    case EndScan(id) => id in s.scans && Count(s.ongoing, s.scans[id].root) > 0
    case AddRoot(slot) => MaxRoot(s) <= slot
    case BeginClean(id, _) => id !in s.cleans
    case CleanKey(id, _) => id in s.cleans
    case EndClean(id) => id in s.cleans
    case FlushSkips(id, _, _) => id in s.cleans
    // a clean finds a pubkey dead if its newest rooted version has no lamports
    case FindDead(i, id, key) =>
      && i !in s.dead && id in s.cleans
      && var newest := NewestRooted(s.roots, ListOf(s, key), s.cleans[id]); newest.Some? && newest.value.info.zero
    // a shrink, if its only stored version has none
    case FindSingle(i, key, slot) =>
      && i !in s.dead && HasSlot(ListOf(s, key), slot)
      && forall e :: e in ListOf(s, key) ==> if e.slot == slot then e.info.zero else e.info.cached
    case PurgeDead(i) => i in s.dead
    case SpareDead(i) => i in s.dead
    case Repack(key, from, _) => HasSlot(ListOf(s, key), from)
    case _ => true
  }

  /** The scan's ancestors are ignored when the greatest root is not among them. */
  function ScanOf(s: State, bank: BankId, ancestors: set<Slot>): Scan {
    Scan(bank, MaxRoot(s), if MaxRoot(s) in ancestors then ancestors else {})
  }

  ghost function Apply(s: State, step: Step): State
    requires Enabled(s, step)
  {
    match step
    case BeginScan(id, bank, ancestors) =>
      s.(ongoing := Registered(s.ongoing, MaxRoot(s)), scans := s.scans[id := ScanOf(s, bank, ancestors)])
    case EndScan(id) =>
      s.(ongoing := Unregistered(s.ongoing, s.scans[id].root), scans := s.scans - {id})
    case AddRoot(slot) =>
      s.(roots := s.roots + {slot}, rooted := s.rooted + {slot}, maxExclusive := slot + 1)
    case WriteAccount(key, slot, info) =>
      WithList(s, key, Written(ListOf(s, key), Entry(slot, info)))
    case BeginClean(id, proposed) =>
      s.(cleans := s.cleans[id := MaxCleanRoot(MinRoot(s.ongoing), proposed)])
    case CleanKey(id, key) =>
      WithList(s, key, Cleaned(s.roots, MaxRoot(s), ListOf(s, key), s.cleans[id]))
    case EndClean(id) =>
      s.(cleans := s.cleans - {id})
    case FlushKey(key, slot) =>
      WithList(s, key, Stored(ListOf(s, key), slot))
    case FlushSkips(_, key, slot) =>
      WithList(s, key, Without(ListOf(s, key), {slot}))
    case FindDead(i, id, key) =>
      s.(dead := s.dead[i := FoundDead(s, key, s.cleans[id])])
    case FindSingle(i, key, slot) =>
      s.(dead := s.dead[i := Dead(key, slot, {slot})])
    case PurgeDead(i) =>
      WithList(s.(dead := s.dead - {i}), s.dead[i].key, Without(ListOf(s, s.dead[i].key), s.dead[i].slots))
    case SpareDead(i) =>
      s.(dead := s.dead - {i})
    case Repack(key, from, to) =>
      WithList(s, key, Moved(ListOf(s, key), from, to))
    case CleanDeadSlot(slot) =>
      s.(roots := s.roots - {slot})
    case MarkRemoved(banks) =>
      s.(removed := s.removed + banks)
    case DropBank(bank) =>
      s.(removed := s.removed - {bank})
    case PurgeSlot(key, slot) =>
      WithList(s, key, Without(ListOf(s, key), {slot}))
  }

  /** The pubkey whose list the step edits, if any. */
  function EditedKey(s: State, step: Step): Option<Key> {
    match step
    case WriteAccount(key, _, _) => Some(key)
    case CleanKey(_, key) => Some(key)
    case FlushKey(key, _) => Some(key)
    case FlushSkips(_, key, _) => Some(key)
    case PurgeDead(i) => if i in s.dead then Some(s.dead[i].key) else None
    case Repack(key, _, _) => Some(key)
    case PurgeSlot(key, _) => Some(key)
    case _ => None
  }

  lemma OtherListsStay(s: State, step: Step, key: Key)
    requires Enabled(s, step) && EditedKey(s, step) != Some(key)
    ensures ListOf(Apply(s, step), key) == ListOf(s, key)
  {
  }

  /** What each step leaves of the list it edits. */
  ghost predicate Left(s: State, step: Step, list: SlotList, e: Entry)
    requires Enabled(s, step)
  {
    match step
    case WriteAccount(_, slot, info) => e == Entry(slot, info) || (e in list && e.slot != slot)
    // all but the stored versions below the bound that are not at the newest root
    case CleanKey(id, _) =>
      && e in list
      && var bound := if s.cleans[id].Some? then s.cleans[id].value else MaxRoot(s);
         e.info.cached || bound <= e.slot || IsNewest(s.roots, list, s.cleans[id], e.slot)
    // versions at the slot are out of the cache
    case FlushKey(_, slot) =>
      if e.slot == slot then !e.info.cached && (e in list || e.(info := e.info.(cached := true)) in list) else e in list
    case FlushSkips(_, _, slot) => e in list && e.slot != slot
    case PurgeDead(i) => e in list && e.slot !in s.dead[i].slots
    case Repack(_, from, to) => (e in list && (e.slot != from || from == to)) || (e.slot == to && Entry(from, e.info) in list)
    case PurgeSlot(_, slot) => e in list && e.slot != slot
    case _ => e in list
  }

  lemma EditsExactly(s: State, step: Step, e: Entry)
    requires Enabled(s, step) && EditedKey(s, step).Some?
    ensures var key := EditedKey(s, step).value;
            e in ListOf(Apply(s, step), key) <==> Left(s, step, ListOf(s, key), e)
  {
    var list := ListOf(s, EditedKey(s, step).value);
    match step
    case WriteAccount(_, slot, info) => WrittenMembers(list, Entry(slot, info), e);
    case CleanKey(id, _) =>
      PurgePartitions(list, CleanBound(s.cleans[id], MaxRoot(s)), NewestRoot(s.roots, list, s.cleans[id]));
      if e in list { ReclaimedExactly(s.roots, MaxRoot(s), list, s.cleans[id], e); }
    case FlushKey(_, slot) => StoredExactly(list, slot, e);
    case FlushSkips(_, _, slot) => WithoutMembers(list, {slot}, e);
    case PurgeDead(i) => WithoutMembers(list, s.dead[i].slots, e);
    case Repack(_, from, to) => if from == to { MovedNowhere(list, from); } else { MovedExactly(list, from, to, e); }
    case PurgeSlot(_, slot) => WithoutMembers(list, {slot}, e);
  }

  /** Which roots, scans, passes, findings and marks are there after a step. */
  lemma TracksExactly(s: State, step: Step, x: nat)
    requires Enabled(s, step)
    ensures var s' := Apply(s, step);
            && (x in s'.roots <==> (x in s.roots || step == AddRoot(x)) && step != CleanDeadSlot(x))
            && (x in s'.scans <==> (x in s.scans || (step.BeginScan? && step.scan == x)) && step != EndScan(x))
            && (x in s'.cleans <==> (x in s.cleans || (step.BeginClean? && step.clean == x)) && step != EndClean(x))
            && (x in s'.dead <==> (x in s.dead || ((step.FindDead? || step.FindSingle?) && step.found == x))
                                  && step != PurgeDead(x) && step != SpareDead(x))
            && (x in s'.removed <==> (x in s.removed || (step.MarkRemoved? && x in step.banks)) && step != DropBank(x))
  {
  }

  /** What a clean records of a pubkey whose newest rooted version has no lamports. */
  function FoundDead(s: State, key: Key, bound: Option<Slot>): Dead
    requires NewestRooted(s.roots, ListOf(s, key), bound).Some?
  {
    Dead(key, NewestRooted(s.roots, ListOf(s, key), bound).value.slot, RootedSlots(s.roots, ListOf(s, key), bound))
  }

  /** No pubkey has an entry at `slot`. */
  ghost predicate Unreferenced(s: State, slot: Slot) {
    forall key, e :: key in s.index && e in s.index[key] ==> e.slot != slot
  }

  /** The slot is of the fork of a scan whose bank has not been removed. */
  ghost predicate InScannedFork(s: State, slot: Slot) {
    exists id :: id in s.scans && slot in s.scans[id].ancestors && s.scans[id].bank !in s.removed
  }

  /** Unrooted, and not of the fork of a scan whose bank has not been removed. */
  ghost predicate OutOfSight(s: State, slot: Slot) { slot !in s.rooted && !InScannedFork(s, slot) }

  /** An alive root that every scan sees. */
  ghost predicate Settled(s: State, slot: Slot) {
    slot in s.roots && forall id :: id in s.scans ==> slot <= s.scans[id].root
  }

  /** A version of the pubkey at a later alive root, not past the bound. */
  ghost predicate WrittenLater(s: State, bound: Option<Slot>, key: Key, slot: Slot) {
    exists e :: e in ListOf(s, key) && slot < e.slot && e.slot in s.roots && (bound.None? || e.slot <= bound.value)
  }

  /** Which guarantee is dropped, if any; `All` is what the results rely on. */
  datatype Guarantees = All | CleansWithoutBound

  /** What the rest of the system guarantees of the steps it takes. */
  ghost predicate Disciplined(g: Guarantees, s: State, step: Step) {
    match step
    // if there is a root, the fork's slots up to the greatest are rooted (see ForkedScans)
    case BeginScan(_, _, ancestors) =>
      s.maxExclusive > 0 && MaxRoot(s) in ancestors ==> forall a :: a in ancestors && a <= MaxRoot(s) ==> a in s.rooted
    // accounts are written to unrooted slots that are not frozen under a scan
    case WriteAccount(_, slot, _) => OutOfSight(s, slot)
    // a clean or flush is given a root to go up to
    case BeginClean(_, proposed) => if proposed.Some? then proposed.value <= MaxRoot(s) else g.CleansWithoutBound?
    // a flush skips a pubkey that it has written from a later root
    case FlushSkips(id, key, slot) => id in s.cleans && WrittenLater(s, s.cleans[id], key, slot)
    // a shrunk slot is a root, and older versions than the stored one are on abandoned forks
    case FindSingle(_, key, slot) =>
      slot in s.roots && forall e :: e in ListOf(s, key) && e.slot < slot ==> OutOfSight(s, e.slot)
    // packed slots are older than any scan; a version moves past no other, and not while it is to be purged
    case Repack(key, from, to) =>
      && Settled(s, from) && Settled(s, to) && Apart(ListOf(s, key), from, to)
      && forall i :: i in s.dead ==> s.dead[i].key != key
    // a root dies when nothing refers to it any more
    case CleanDeadSlot(slot) => Unreferenced(s, slot)
    // a fork is purged when its banks were dropped, or after they were marked as removed
    case PurgeSlot(_, slot) => OutOfSight(s, slot)
    // a scan holds on to its bank
    case DropBank(bank) => forall id :: id in s.scans ==> s.scans[id].bank != bank
    case _ => true
  }

  // ---------------------------------------------------------------- what every step keeps

  ghost function ScansAt(scans: map<nat, Scan>, root: Slot): set<nat> { set id | id in scans && scans[id].root == root }

  /** Alive roots were added, and the greatest root added is the greatest. */
  ghost predicate RootsOk(roots: set<Slot>, rooted: set<Slot>, maxExclusive: nat) {
    && roots <= rooted
    && (forall r :: r in rooted ==> r < maxExclusive)
    && (maxExclusive > 0 ==> maxExclusive - 1 in rooted)
  }

  /** No slot list has a slot twice, and a slot that was rooted and is referred to is an alive root. */
  ghost predicate IndexOk(index: map<Key, SlotList>, roots: set<Slot>, rooted: set<Slot>) {
    && (forall key :: key in index ==> Unique(index[key]))
    && (forall key, e :: key in index && e in index[key] && e.slot in rooted ==> e.slot in roots)
  }

  /** The registered counts are those of the scans. */
  ghost predicate Counted(ongoing: map<Slot, nat>, scans: map<nat, Scan>) {
    && (forall r :: r in ongoing ==> ongoing[r] > 0)
    && (forall r :: Count(ongoing, r) == |ScansAt(scans, r)|)
  }

  /** A scan's fork is rooted up to the scan's root; before there is a root it is empty or contains slot 0. */
  ghost predicate ScansOk(scans: map<nat, Scan>, rooted: set<Slot>, maxExclusive: nat) {
    forall id :: id in scans ==>
      && (if maxExclusive == 0 then scans[id].root == 0 && (scans[id].ancestors == {} || 0 in scans[id].ancestors)
          else scans[id].root < maxExclusive)
      && (scans[id].root > 0 ==> forall a :: a in scans[id].ancestors && a <= scans[id].root ==> a in rooted)
  }

  /** No clean under way reaches past the greatest root or past the root of a scan. */
  ghost predicate CleansOk(cleans: map<nat, Option<Slot>>, scans: map<nat, Scan>, maxRoot: Slot) {
    forall c :: c in cleans ==>
      && cleans[c].Some? && cleans[c].value <= maxRoot
      && forall id :: id in scans ==> cleans[c].value <= scans[id].root
  }

  ghost predicate Base(s: State) {
    && RootsOk(s.roots, s.rooted, s.maxExclusive)
    && IndexOk(s.index, s.roots, s.rooted)
    && Counted(s.ongoing, s.scans)
    && ScansOk(s.scans, s.rooted, s.maxExclusive)
    && CleansOk(s.cleans, s.scans, MaxRoot(s))
  }

  ghost function ViewOf(scan: Scan): View { View(scan.ancestors, Some(scan.root)) }

  /** The version scan `id` sees of `key`. */
  ghost function SeenBy(s: State, id: nat, key: Key): Option<Version>
    requires id in s.scans
  {
    VersionOf(Latest(ViewOf(s.scans[id]), s.roots, ListOf(s, key)))
  }

  // ---------------------------------------------------------------- preservation

  lemma OneMoreScan(scans: map<nat, Scan>, id: nat, scan: Scan, r: Slot)
    requires id !in scans
    ensures |ScansAt(scans[id := scan], r)| == |ScansAt(scans, r)| + if r == scan.root then 1 else 0
  {
    var at, at' := ScansAt(scans, r), ScansAt(scans[id := scan], r);
    if r == scan.root { assert at' == at + {id}; } else { assert at' == at; }
  }

  lemma OneScanLess(scans: map<nat, Scan>, id: nat, r: Slot)
    requires id in scans
    ensures |ScansAt(scans, r)| == |ScansAt(scans - {id}, r)| + if r == scans[id].root then 1 else 0
  {
    assert (scans - {id})[id := scans[id]] == scans;
    OneMoreScan(scans - {id}, id, scans[id], r);
  }

  lemma RegisteredCounts(ongoing: map<Slot, nat>, scans: map<nat, Scan>, id: nat, scan: Scan)
    requires Counted(ongoing, scans) && id !in scans
    ensures Counted(Registered(ongoing, scan.root), scans[id := scan])
  {
    forall r ensures Count(Registered(ongoing, scan.root), r) == |ScansAt(scans[id := scan], r)| {
      OneMoreScan(scans, id, scan, r);
    }
  }

  lemma UnregisteredCounts(ongoing: map<Slot, nat>, scans: map<nat, Scan>, id: nat)
    requires Counted(ongoing, scans) && id in scans && Count(ongoing, scans[id].root) > 0
    ensures Counted(Unregistered(ongoing, scans[id].root), scans - {id})
  {
    forall r ensures Count(Unregistered(ongoing, scans[id].root), r) == |ScansAt(scans - {id}, r)| {
      OneScanLess(scans, id, r);
    }
  }

  lemma BeginScanKeeps(s: State, id: nat, bank: BankId, ancestors: set<Slot>)
    requires Base(s) && Enabled(s, BeginScan(id, bank, ancestors)) && Disciplined(All, s, BeginScan(id, bank, ancestors))
    ensures Base(Apply(s, BeginScan(id, bank, ancestors)))
  {
    RegisteredCounts(s.ongoing, s.scans, id, ScanOf(s, bank, ancestors));
  }

  lemma EndScanKeeps(s: State, id: nat)
    requires Base(s) && Enabled(s, EndScan(id))
    ensures Base(Apply(s, EndScan(id)))
  {
    UnregisteredCounts(s.ongoing, s.scans, id);
  }

  /** A clean goes as far as proposed, unless a registered root is below; then as far as the least of them. */
  lemma CleanBoundIsLeast(ongoing: map<Slot, nat>, proposed: Option<Slot>)
    ensures match MaxCleanRoot(MinRoot(ongoing), proposed)
            case None => proposed.None? && ongoing == map[]
            case Some(m) =>
              && (proposed == Some(m) || m in ongoing)
              && (proposed.Some? ==> m <= proposed.value) && forall r :: r in ongoing ==> m <= r
  {
  }

  /** The bound of a clean that starts now is at most the root of every scan. */
  lemma CleanBoundIsSafe(s: State, proposed: Slot, id: nat)
    requires Base(s) && id in s.scans
    ensures var bound := MaxCleanRoot(MinRoot(s.ongoing), Some(proposed)); bound.Some? && bound.value <= s.scans[id].root
  {
    var root := s.scans[id].root;
    assert id in ScansAt(s.scans, root);
    assert Count(s.ongoing, root) > 0;
  }

  /**
    A clean given a root, from its start to a pubkey: it goes up to the proposed root or the least registered
    one, and leaves what is cached, at or above that, or at the newest root up to it.
   */
  lemma CleanLeaves(s: State, id: nat, proposed: Slot, key: Key) returns (bound: Slot)
    requires id !in s.cleans
    ensures (bound == proposed || bound in s.ongoing) && bound <= proposed && forall r :: r in s.ongoing ==> bound <= r
    ensures var s' := Apply(Apply(s, BeginClean(id, Some(proposed))), CleanKey(id, key));
            forall e :: e in ListOf(s', key) <==>
              e in ListOf(s, key) && (e.info.cached || bound <= e.slot || IsNewest(s.roots, ListOf(s, key), Some(bound), e.slot))
  {
    var s1 := Apply(s, BeginClean(id, Some(proposed)));
    CleanBoundIsLeast(s.ongoing, Some(proposed));
    bound := s1.cleans[id].value;
    forall e ensures e in ListOf(Apply(s1, CleanKey(id, key)), key) <==> Left(s1, CleanKey(id, key), ListOf(s, key), e) {
      EditsExactly(s1, CleanKey(id, key), e);
    }
  }

  lemma AddRootKeeps(s: State, slot: Slot)
    requires Base(s) && Enabled(s, AddRoot(slot))
    ensures Base(Apply(s, AddRoot(slot)))
  {
  }

  lemma BeginCleanKeeps(s: State, id: nat, proposed: Slot)
    requires Base(s) && id !in s.cleans && proposed <= MaxRoot(s)
    ensures Base(Apply(s, BeginClean(id, Some(proposed))))
  {
    var s' := Apply(s, BeginClean(id, Some(proposed)));
    assert s'.cleans[id].Some? && s'.cleans[id].value <= MaxRoot(s);
    forall scan | scan in s.scans ensures s'.cleans[id].value <= s.scans[scan].root {
      CleanBoundIsSafe(s, proposed, scan);
    }
  }

  lemma CleanDeadSlotKeeps(s: State, slot: Slot)
    requires Base(s) && Unreferenced(s, slot)
    ensures Base(Apply(s, CleanDeadSlot(slot)))
  {
  }

  /** The slot is one of the list's, or unrooted, or alive. */
  ghost predicate SlotOk(s: State, list: SlotList, slot: Slot) {
    (exists x :: x in list && x.slot == slot) || slot !in s.rooted || slot in s.roots
  }

  /** A step that changes one list keeps the invariant if what it adds is unrooted or at an alive root. */
  lemma ListKeeps(s: State, key: Key, list: SlotList)
    requires Base(s) && Unique(list) && forall e :: e in list ==> SlotOk(s, ListOf(s, key), e.slot)
    ensures Base(WithList(s, key, list))
  {
  }

  lemma WriteKeeps(s: State, key: Key, slot: Slot, info: Info)
    requires Base(s) && slot !in s.rooted
    ensures Base(Apply(s, WriteAccount(key, slot, info)))
  {
    var list, e := ListOf(s, key), Entry(slot, info);
    WrittenUnique(list, e);
    forall x | x in Written(list, e) ensures SlotOk(s, list, x.slot) { WrittenMembers(list, e, x); }
    ListKeeps(s, key, Written(list, e));
  }

  lemma CleanKeyKeeps(s: State, id: nat, key: Key)
    requires Base(s) && id in s.cleans
    ensures Base(Apply(s, CleanKey(id, key)))
  {
    var list, bound := ListOf(s, key), CleanBound(s.cleans[id], MaxRoot(s));
    KeptUnique(list, bound, NewestRoot(s.roots, list, s.cleans[id]));
    PurgePartitions(list, bound, NewestRoot(s.roots, list, s.cleans[id]));
    ListKeeps(s, key, Cleaned(s.roots, MaxRoot(s), list, s.cleans[id]));
  }

  lemma FlushKeyKeeps(s: State, key: Key, slot: Slot)
    requires Base(s)
    ensures Base(Apply(s, FlushKey(key, slot)))
  {
    var list := ListOf(s, key);
    StoredUnique(list, slot);
    forall e | e in Stored(list, slot) ensures SlotOk(s, list, e.slot) { StoredMembers(list, slot, e); }
    ListKeeps(s, key, Stored(list, slot));
  }

  lemma WithoutKeeps(s: State, key: Key, slots: set<Slot>)
    requires Base(s)
    ensures Base(WithList(s, key, Without(ListOf(s, key), slots)))
  {
    var list := ListOf(s, key);
    WithoutUnique(list, slots);
    forall e | e in Without(list, slots) ensures SlotOk(s, list, e.slot) { WithoutMembers(list, slots, e); }
    ListKeeps(s, key, Without(list, slots));
  }

  lemma RepackKeeps(s: State, key: Key, from: Slot, to: Slot)
    requires Base(s) && to in s.roots && Apart(ListOf(s, key), from, to)
    ensures Base(WithList(s, key, Moved(ListOf(s, key), from, to)))
  {
    var list := ListOf(s, key);
    MovedUnique(list, from, to);
    forall e | e in Moved(list, from, to) ensures SlotOk(s, list, e.slot) { var x := MovedFrom(list, from, to, e); }
    ListKeeps(s, key, Moved(list, from, to));
  }

  lemma EditKeeps(s: State, step: Step)
    requires Base(s) && Enabled(s, step) && Disciplined(All, s, step) && EditedKey(s, step).Some?
    ensures Base(Apply(s, step))
  {
    match step
    case WriteAccount(key, slot, info) => WriteKeeps(s, key, slot, info);
    case CleanKey(id, key) => CleanKeyKeeps(s, id, key);
    case FlushKey(key, slot) => FlushKeyKeeps(s, key, slot);
    case FlushSkips(_, key, slot) => WithoutKeeps(s, key, {slot});
    case PurgeDead(i) => WithoutKeeps(s.(dead := s.dead - {i}), s.dead[i].key, s.dead[i].slots);
    case Repack(key, from, to) => RepackKeeps(s, key, from, to);
    case PurgeSlot(key, slot) => WithoutKeeps(s, key, {slot});
  }

  lemma BaseKeeps(s: State, step: Step)
    requires Base(s) && Enabled(s, step) && Disciplined(All, s, step)
    ensures Base(Apply(s, step))
  {
    if EditedKey(s, step).Some? {
      EditKeeps(s, step);
    } else if step.BeginScan? {
      BeginScanKeeps(s, step.scan, step.bank, step.ancestors);
    } else if step.EndScan? {
      EndScanKeeps(s, step.scan);
    } else if step.AddRoot? {
      AddRootKeeps(s, step.slot);
    } else if step.BeginClean? {
      BeginCleanKeeps(s, step.clean, step.proposed.value);
    } else if step.CleanDeadSlot? {
      CleanDeadSlotKeeps(s, step.slot);
    } else {
      var t := Apply(s, step);
      assert t == s.(cleans := t.cleans, dead := t.dead, removed := t.removed);
    }
  }

  // ---------------------------------------------------------------- whole runs

  /** Every step of the run is enabled and disciplined when it is taken. */
  ghost predicate Run(g: Guarantees, s: State, steps: seq<Step>)
    decreases |steps|
  {
    steps == [] || (Enabled(s, steps[0]) && Disciplined(g, s, steps[0]) && Run(g, Apply(s, steps[0]), steps[1..]))
  }

  ghost function After(g: Guarantees, s: State, steps: seq<Step>): State
    requires Run(g, s, steps)
    decreases |steps|
  {
    if steps == [] then s else After(g, Apply(s, steps[0]), steps[1..])
  }

  ghost function Initial(): State { State({}, {}, 0, map[], map[], map[], map[], map[], {}) }

  lemma RunCons(g: Guarantees, s: State, step: Step, rest: seq<Step>)
    requires Enabled(s, step) && Disciplined(g, s, step) && Run(g, Apply(s, step), rest)
    ensures Run(g, s, [step] + rest) && After(g, s, [step] + rest) == After(g, Apply(s, step), rest)
  {
    assert ([step] + rest)[1..] == rest;
  }
}
