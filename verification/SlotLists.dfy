/**
  The slot list of one pubkey in the accounts index: which version a reader sees
  (`latest_slot`), and what cleaning does to it (`purge_older_root_entries`).
 */
module SlotLists {
  import opened Wrappers

  type Slot = nat

  /** An `AccountInfo`: whether it points into the write cache, whether the account has no lamports, and which write it is. */
  datatype Info = Info(cached: bool, zero: bool, id: nat)

  datatype Entry = Entry(slot: Slot, info: Info)

  type SlotList = seq<Entry>

  /** What a reader may see: slots of its fork, and alive roots up to `maxRoot`. */
  datatype View = View(ancestors: set<Slot>, maxRoot: Option<Slot>)

  predicate Visible(view: View, roots: set<Slot>, slot: Slot) {
    slot in view.ancestors || (slot in roots && (view.maxRoot.None? || slot <= view.maxRoot.value))
  }

  /** The visible entry with the greatest slot; of entries with that slot, the last. */
  function Latest(view: View, roots: set<Slot>, list: SlotList): (r: Option<Entry>)
    ensures r.Some? ==> r.value in list && Visible(view, roots, r.value.slot)
    ensures forall e :: e in list && Visible(view, roots, e.slot) ==> r.Some? && e.slot <= r.value.slot
  {
    if |list| == 0 then None
    else
      var e, before := list[|list| - 1], Latest(view, roots, list[..|list| - 1]);
      if Visible(view, roots, e.slot) && (before.None? || before.value.slot <= e.slot) then Some(e) else before
  }

  // ---------------------------------------------------------------- latest_slot

  /** Entry `j` has been considered: as an ancestor if at or after `a`, as a root if at or after `b`. */
  predicate Seen(view: View, roots: set<Slot>, list: SlotList, a: nat, b: nat, j: nat)
    requires j < |list|
  {
    (a <= j && list[j].slot in view.ancestors) || (b <= j && Visible(view, roots, list[j].slot))
  }

  /** `rv`, counted from the end, is the best of the entries considered; its slot is `currentMax`. */
  ghost predicate Best(view: View, roots: set<Slot>, list: SlotList, a: nat, b: nat, rv: Option<nat>, currentMax: Slot) {
    match rv
    case None => forall j :: 0 <= j < |list| ==> !Seen(view, roots, list, a, b, j)
    case Some(k) =>
      && k < |list|
      && var q := |list| - 1 - k;
         && list[q].slot == currentMax && Seen(view, roots, list, a, b, q)
         && forall j :: 0 <= j < |list| && Seen(view, roots, list, a, b, j) ==>
              list[j].slot < currentMax || (list[j].slot == currentMax && j <= q)
  }

  lemma {:induction false} LatestAt(view: View, roots: set<Slot>, list: SlotList, k: nat)
    requires k < |list| && Visible(view, roots, list[k].slot)
    requires forall i :: 0 <= i < |list| && Visible(view, roots, list[i].slot) ==> list[i].slot <= list[k].slot
    requires forall i :: k < i < |list| && Visible(view, roots, list[i].slot) ==> list[i].slot < list[k].slot
    ensures Latest(view, roots, list) == Some(list[k])
  {
    var front := list[..|list| - 1];
    if k < |list| - 1 {
      LatestAt(view, roots, front, k);
    } else {
      var before := Latest(view, roots, front);
      if before.Some? { assert before.value in list; }
    }
  }

  /** One more entry, at `p`, is considered: it is the best if it beats the best so far. */
  lemma Consider(view: View, roots: set<Slot>, list: SlotList, a: nat, b: nat, a': nat, b': nat, rv: Option<nat>, currentMax: Slot)
    requires Best(view, roots, list, a, b, rv, currentMax)
    requires (a' + 1 == a <= |list| && b' == b == |list|) || (a' == a == 0 && b' + 1 == b <= |list|)
    ensures var p := if a' < a then a' else b';
            if Seen(view, roots, list, a', b', p) && (rv.None? || list[p].slot > currentMax)
            then Best(view, roots, list, a', b', Some(|list| - 1 - p), list[p].slot)
            else Best(view, roots, list, a', b', rv, currentMax)
  {
    var p := if a' < a then a' else b';
    forall j | 0 <= j < |list| ensures Seen(view, roots, list, a', b', j) ==> j == p || Seen(view, roots, list, a, b, j) {}
    forall j | 0 <= j < |list| ensures Seen(view, roots, list, a, b, j) ==> Seen(view, roots, list, a', b', j) {}
  }

  /** Both loops run over the list backwards: first for ancestors, then for roots above what was found. */
  method LatestSlot(ancestors: Option<set<Slot>>, roots: set<Slot>, list: SlotList, maxRoot: Option<Slot>)
    returns (r: Option<nat>)
    ensures var view := View(if ancestors.Some? then ancestors.value else {}, maxRoot);
            match r
            case None => Latest(view, roots, list).None?
            case Some(k) => k < |list| && Latest(view, roots, list) == Some(list[k])
  {
    ghost var view := View(if ancestors.Some? then ancestors.value else {}, maxRoot);
    var currentMax: Slot, rv: Option<nat> := 0, None;
    ghost var n := |list|;
    if ancestors.Some? && ancestors.value != {} {
      for i := 0 to |list|
        invariant Best(view, roots, list, n - i, n, rv, currentMax)
      {
        var slot := list[|list| - 1 - i].slot;
        Consider(view, roots, list, n - i, n, n - i - 1, n, rv, currentMax);
        if (rv.None? || slot > currentMax) && slot in ancestors.value {
          rv, currentMax := Some(i), slot;
        }
      }
    }
    for i := 0 to |list|
      invariant Best(view, roots, list, 0, n - i, rv, currentMax)
    {
      var slot := list[|list| - 1 - i].slot;
      Consider(view, roots, list, 0, n - i, 0, n - i - 1, rv, currentMax);
      assert slot in view.ancestors ==> Seen(view, roots, list, 0, n - i, n - i - 1);
      if (rv.None? || slot > currentMax) && (maxRoot.None? || slot <= maxRoot.value) {
        if slot in roots { rv, currentMax := Some(i), slot; }
      }
    }
    if rv.Some? {
      ghost var q := |list| - 1 - rv.value;
      forall j | 0 <= j < |list| && Visible(view, roots, list[j].slot)
        ensures list[j].slot < currentMax || (list[j].slot == currentMax && j <= q)
      {
        assert Seen(view, roots, list, 0, 0, j);
      }
      LatestAt(view, roots, list, q);
      r := Some(|list| - 1 - rv.value);
    } else {
      forall j | 0 <= j < |list| ensures !Visible(view, roots, list[j].slot) { assert !Seen(view, roots, list, 0, 0, j); }
      r := None;
    }
  }

  // ---------------------------------------------------------------- purge_older_root_entries

  /** `get_newest_root_in_slot_list`: 0 stands for "no root". */
  function NewestRoot(roots: set<Slot>, list: SlotList, maxAllowed: Option<Slot>): (r: Slot)
    ensures r == 0 || (r in roots && (maxAllowed.None? || r <= maxAllowed.value) && exists e :: e in list && e.slot == r)
    ensures forall e :: e in list && e.slot in roots && (maxAllowed.None? || e.slot <= maxAllowed.value) ==> e.slot <= r
  {
    if |list| == 0 then 0
    else
      var e, before := list[|list| - 1], NewestRoot(roots, list[..|list| - 1], maxAllowed);
      if (maxAllowed.None? || e.slot <= maxAllowed.value) && e.slot > before && e.slot in roots then e.slot else before
  }

  predicate CanPurgeOlderEntries(maxCleanRootExclusive: Slot, newestRoot: Slot, slot: Slot) {
    slot < maxCleanRootExclusive && slot != newestRoot
  }

  predicate Purged(bound: Slot, newestRoot: Slot, e: Entry) {
    CanPurgeOlderEntries(bound, newestRoot, e.slot) && !e.info.cached
  }

  function Kept(list: SlotList, bound: Slot, newest: Slot): SlotList {
    if |list| == 0 then []
    else
      var front, e := Kept(list[..|list| - 1], bound, newest), list[|list| - 1];
      if Purged(bound, newest, e) then front else front + [e]
  }

  function Reclaimed(list: SlotList, bound: Slot, newest: Slot): SlotList {
    if |list| == 0 then []
    else
      var front, e := Reclaimed(list[..|list| - 1], bound, newest), list[|list| - 1];
      if Purged(bound, newest, e) then front + [e] else front
  }

  /** The slot below which cleaning may purge: the bound, or the greatest root ever added. */
  function CleanBound(maxCleanRoot: Option<Slot>, maxRootInclusive: Slot): Slot {
    if maxCleanRoot.Some? then maxCleanRoot.value else maxRootInclusive
  }

  /** What `purge_older_root_entries` leaves in the list. */
  function Cleaned(roots: set<Slot>, maxRootInclusive: Slot, list: SlotList, maxCleanRoot: Option<Slot>): SlotList {
    Kept(list, CleanBound(maxCleanRoot, maxRootInclusive), NewestRoot(roots, list, maxCleanRoot))
  }

  method GetNewestRootInSlotList(roots: set<Slot>, list: SlotList, maxAllowed: Option<Slot>) returns (newest: Slot)
    ensures newest == NewestRoot(roots, list, maxAllowed)
  {
    newest := 0;
    for i := 0 to |list|
      invariant newest == NewestRoot(roots, list[..i], maxAllowed)
    {
      assert list[..i + 1][..i] == list[..i];
      var slot := list[i].slot;
      if maxAllowed.Some? && slot > maxAllowed.value { continue; }
      if slot > newest && slot in roots { newest := slot; }
    }
    assert list[..|list|] == list;
  }

  /** The greatest alive root of the list up to the clean root; slot 0 also stands for there being none. */
  ghost predicate IsNewest(roots: set<Slot>, list: SlotList, maxAllowed: Option<Slot>, slot: Slot) {
    && (slot == 0 || (slot in roots && (maxAllowed.None? || slot <= maxAllowed.value)))
    && forall e :: e in list && e.slot in roots && (maxAllowed.None? || e.slot <= maxAllowed.value) ==> e.slot <= slot
  }

  /**
    Exactly the entries that are stored, lie below the bound, and are not at the newest root are reclaimed,
    and the others are kept.
   */
  lemma ReclaimedExactly(roots: set<Slot>, maxRootInclusive: Slot, list: SlotList, maxCleanRoot: Option<Slot>, e: Entry)
    requires e in list
    ensures var bound := if maxCleanRoot.Some? then maxCleanRoot.value else maxRootInclusive;
            var reclaimed := !e.info.cached && e.slot < bound && !IsNewest(roots, list, maxCleanRoot, e.slot);
            && (e in Reclaimed(list, CleanBound(maxCleanRoot, maxRootInclusive), NewestRoot(roots, list, maxCleanRoot)) <==> reclaimed)
            && (e in Cleaned(roots, maxRootInclusive, list, maxCleanRoot) <==> !reclaimed)
  {
    var newest := NewestRoot(roots, list, maxCleanRoot);
    PurgePartitions(list, CleanBound(maxCleanRoot, maxRootInclusive), newest);
    assert IsNewest(roots, list, maxCleanRoot, e.slot) <==> e.slot == newest;
  }

  method PurgeOlderRootEntries(roots: set<Slot>, maxRootInclusive: Slot, list: SlotList, reclaims: SlotList, maxCleanRoot: Option<Slot>)
    returns (kept: SlotList, reclaims': SlotList)
    ensures kept == Cleaned(roots, maxRootInclusive, list, maxCleanRoot)
    ensures reclaims' == reclaims + Reclaimed(list, CleanBound(maxCleanRoot, maxRootInclusive), NewestRoot(roots, list, maxCleanRoot))
    ensures var bound := if maxCleanRoot.Some? then maxCleanRoot.value else maxRootInclusive;
            forall e :: e in reclaims'[|reclaims|..] <==>
              e in list && !e.info.cached && e.slot < bound && !IsNewest(roots, list, maxCleanRoot, e.slot)
  {
    var newest := GetNewestRootInSlotList(roots, list, maxCleanRoot);
    var bound := CleanBound(maxCleanRoot, maxRootInclusive);
    kept, reclaims' := [], reclaims;
    for i := 0 to |list|
      invariant kept == Kept(list[..i], bound, newest)
      invariant reclaims' == reclaims + Reclaimed(list[..i], bound, newest)
    {
      assert list[..i + 1][..i] == list[..i];
      var shouldPurge := CanPurgeOlderEntries(bound, newest, list[i].slot) && !list[i].info.cached;
      if shouldPurge { reclaims' := reclaims' + [list[i]]; } else { kept := kept + [list[i]]; }
    }
    assert list[..|list|] == list;
    forall e ensures e in reclaims'[|reclaims|..] <==>
        e in list && !e.info.cached && e.slot < bound && !IsNewest(roots, list, maxCleanRoot, e.slot)
    {
      PurgePartitions(list, bound, newest);
      if e in list { ReclaimedExactly(roots, maxRootInclusive, list, maxCleanRoot, e); }
    }
  }

  /** Nothing is lost or invented, and nothing that points into the write cache is reclaimed. */
  lemma {:induction false} PurgePartitions(list: SlotList, bound: Slot, newest: Slot)
    ensures multiset(Kept(list, bound, newest)) + multiset(Reclaimed(list, bound, newest)) == multiset(list)
    ensures forall e :: e in Reclaimed(list, bound, newest) <==> e in list && !e.info.cached && e.slot < bound && e.slot != newest
    ensures forall e :: e in Kept(list, bound, newest) <==> e in list && (e.info.cached || e.slot >= bound || e.slot == newest)
  {
    if |list| > 0 {
      var front, e := list[..|list| - 1], list[|list| - 1];
      PurgePartitions(front, bound, newest);
      assert list == front + [e];
    }
  }

  /** Purging changes what a reader sees exactly when the entry it saw is purged. */
  lemma {:induction false} PurgeSeen(view: View, roots: set<Slot>, list: SlotList, bound: Slot, newest: Slot)
    ensures var before := Latest(view, roots, list);
            before.None? || !Purged(bound, newest, before.value) ==> Latest(view, roots, Kept(list, bound, newest)) == before
  {
    if |list| > 0 {
      var front, e := list[..|list| - 1], list[|list| - 1];
      PurgeSeen(view, roots, front, bound, newest);
      var before, kept := Latest(view, roots, front), Kept(front, bound, newest);
      assert (kept + [e])[..|kept|] == kept;
      if before.Some? && Purged(bound, newest, before.value) && !Purged(bound, newest, e) {
        KeptSeesLess(view, roots, front, bound, newest);
      }
    }
  }

  lemma KeptSeesLess(view: View, roots: set<Slot>, list: SlotList, bound: Slot, newest: Slot)
    ensures var before, after := Latest(view, roots, list), Latest(view, roots, Kept(list, bound, newest));
            after.Some? ==> before.Some? && after.value.slot <= before.value.slot && after.value in list && !Purged(bound, newest, after.value)
  {
    PurgePartitions(list, bound, newest);
  }

  /**
    Cleaning up to `m` is invisible to a reader of the roots up to at least `m`, unless what it saw
    was an unrooted slot of its own fork below `m`; then it is always noticed.
   */
  lemma CleanIsInvisible(view: View, roots: set<Slot>, maxRootInclusive: Slot, list: SlotList, maxCleanRoot: Option<Slot>)
    requires forall s :: s in roots ==> s <= maxRootInclusive
    requires var m := CleanBound(maxCleanRoot, maxRootInclusive); view.maxRoot.None? || m <= view.maxRoot.value
    ensures var m := CleanBound(maxCleanRoot, maxRootInclusive);
            var before := Latest(view, roots, list);
            Latest(view, roots, Cleaned(roots, maxRootInclusive, list, maxCleanRoot)) == before
            <==> !(before.Some? && 0 < before.value.slot < m && before.value.slot !in roots && !before.value.info.cached)
  {
    var m, newest := CleanBound(maxCleanRoot, maxRootInclusive), NewestRoot(roots, list, maxCleanRoot);
    var before := Latest(view, roots, list);
    PurgeSeen(view, roots, list, m, newest);
    if before.Some? {
      var e := before.value;
      if newest != 0 { assert Visible(view, roots, newest); }
      assert newest <= e.slot;
      assert Purged(m, newest, e) <==> 0 < e.slot < m && e.slot !in roots && !e.info.cached;
      if Purged(m, newest, e) { KeptSeesLess(view, roots, list, m, newest); }
    }
  }
}
