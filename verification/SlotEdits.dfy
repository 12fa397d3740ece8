/**
  How slot lists are edited: `update_slot_list` writes a version, `purge_exact` takes the versions of
  some slots, a flush or a shrink stores a version elsewhere, and packing old slots moves it to another slot.
 */
module SlotEdits {
  import opened Wrappers
  import opened SlotLists

  predicate HasSlot(list: SlotList, slot: Slot) { exists i :: 0 <= i < |list| && list[i].slot == slot }

  /** No slot is in the list twice. */
  ghost predicate Unique(list: SlotList) {
    |list| > 0 ==> Unique(list[..|list| - 1]) && !HasSlot(list[..|list| - 1], list[|list| - 1].slot)
  }

  function Replaced(list: SlotList, e: Entry): SlotList {
    if |list| == 0 then []
    else Replaced(list[..|list| - 1], e) + [if list[|list| - 1].slot == e.slot then e else list[|list| - 1]]
  }

  /** `update_slot_list`: the entry at the slot is replaced, or a new one is appended. */
  function Written(list: SlotList, e: Entry): SlotList {
    if HasSlot(list, e.slot) then Replaced(list, e) else list + [e]
  }

  /** `purge_exact`: the entries of some slots are dropped. */
  function Without(list: SlotList, slots: set<Slot>): SlotList {
    if |list| == 0 then []
    else
      var front := Without(list[..|list| - 1], slots);
      if list[|list| - 1].slot in slots then front else front + [list[|list| - 1]]
  }

  /** A flush: the version at the slot is the same, and no longer in the write cache. */
  function Stored(list: SlotList, slot: Slot): SlotList {
    if |list| == 0 then []
    else
      var front, e := Stored(list[..|list| - 1], slot), list[|list| - 1];
      front + [if e.slot == slot then e.(info := e.info.(cached := false)) else e]
  }

  function MovedEntry(e: Entry, from: Slot, to: Slot): Entry { if e.slot == from then e.(slot := to) else e }

  /** `update_slot_list` with another slot: the entry at `from` becomes one at `to`. */
  function Moved(list: SlotList, from: Slot, to: Slot): SlotList {
    if |list| == 0 then [] else Moved(list[..|list| - 1], from, to) + [MovedEntry(list[|list| - 1], from, to)]
  }

  /** Every other version lies below both slots or above both. */
  ghost predicate Apart(list: SlotList, from: Slot, to: Slot) {
    forall e :: e in list ==> e.slot == from || (e.slot < from && e.slot < to) || (from < e.slot && to < e.slot)
  }

  /** A version of a pubkey, wherever it is kept. */
  datatype Version = Version(id: nat, zero: bool)

  function VersionOf(e: Option<Entry>): Option<Version> {
    if e.Some? then Some(Version(e.value.info.id, e.value.info.zero)) else None
  }

  /** The version, if it has lamports: `is_loadable`. */
  function Loadable(v: Option<Version>): Option<Version> { if v.Some? && v.value.zero then None else v }

  // ---------------------------------------------------------------- members

  /** The list has an entry at the slot of `e`, which agrees with it on lamports. */
  ghost predicate From(list: SlotList, e: Entry) { exists x :: x in list && x.slot == e.slot && x.info.zero == e.info.zero }

  lemma {:induction false} UniqueMember(list: SlotList, x: Entry, y: Entry)
    requires Unique(list) && x in list && y in list && x.slot == y.slot
    ensures x == y
  {
    var front, e := list[..|list| - 1], list[|list| - 1];
    assert list == front + [e];
    NoSlot(front, e.slot);
    if x in front && y in front { UniqueMember(front, x, y); }
  }

  lemma NoSlot(list: SlotList, slot: Slot)
    ensures HasSlot(list, slot) <==> exists e :: e in list && e.slot == slot
  {
    if e :| e in list && e.slot == slot { var i :| 0 <= i < |list| && list[i] == e; }
  }

  lemma {:induction false} ReplacedMembers(list: SlotList, e: Entry, x: Entry)
    ensures x in Replaced(list, e) <==> (x == e && HasSlot(list, e.slot)) || (x in list && x.slot != e.slot)
  {
    if |list| > 0 {
      var front, last := list[..|list| - 1], list[|list| - 1];
      assert list == front + [last];
      ReplacedMembers(front, e, x);
      NoSlot(list, e.slot);
      NoSlot(front, e.slot);
    }
  }

  lemma WrittenMembers(list: SlotList, e: Entry, x: Entry)
    ensures x in Written(list, e) <==> x == e || (x in list && x.slot != e.slot)
  {
    ReplacedMembers(list, e, x);
    NoSlot(list, e.slot);
  }

  lemma {:induction false} WithoutMembers(list: SlotList, slots: set<Slot>, x: Entry)
    ensures x in Without(list, slots) <==> x in list && x.slot !in slots
  {
    if |list| > 0 {
      assert list == list[..|list| - 1] + [list[|list| - 1]];
      WithoutMembers(list[..|list| - 1], slots, x);
    }
  }

  lemma {:induction false} StoredMembers(list: SlotList, slot: Slot, x: Entry)
    ensures x in Stored(list, slot) ==> From(list, x)
    ensures x in list ==> From(Stored(list, slot), x)
  {
    if |list| > 0 {
      var front, e := list[..|list| - 1], list[|list| - 1];
      assert list == front + [e];
      StoredMembers(front, slot, x);
      assert Stored(list, slot)[|Stored(front, slot)|] in Stored(list, slot);
    }
  }

  /** Exactly the versions at the slot leave the write cache. */
  lemma {:induction false} StoredExactly(list: SlotList, slot: Slot, x: Entry)
    ensures x in Stored(list, slot) <==>
              if x.slot == slot then !x.info.cached && (x in list || x.(info := x.info.(cached := true)) in list) else x in list
  {
    if |list| > 0 {
      assert list == list[..|list| - 1] + [list[|list| - 1]];
      StoredExactly(list[..|list| - 1], slot, x);
    }
  }

  lemma {:induction false} MovedFrom(list: SlotList, from: Slot, to: Slot, x: Entry) returns (e: Entry)
    requires x in Moved(list, from, to)
    ensures e in list && x == MovedEntry(e, from, to)
  {
    var front, last := list[..|list| - 1], list[|list| - 1];
    if x == MovedEntry(last, from, to) { e := last; } else { e := MovedFrom(front, from, to, x); }
  }

  lemma {:induction false} MovedExactly(list: SlotList, from: Slot, to: Slot, x: Entry)
    requires from != to
    ensures x in Moved(list, from, to) <==> (x in list && x.slot != from) || (x.slot == to && Entry(from, x.info) in list)
  {
    if |list| > 0 {
      assert list == list[..|list| - 1] + [list[|list| - 1]];
      MovedExactly(list[..|list| - 1], from, to, x);
    }
  }

  lemma {:induction false} MovedNowhere(list: SlotList, slot: Slot)
    ensures Moved(list, slot, slot) == list
  {
    if |list| > 0 { MovedNowhere(list[..|list| - 1], slot); }
  }

  // ---------------------------------------------------------------- edits keep slots unique

  lemma {:induction false} ReplacedUnique(list: SlotList, e: Entry)
    requires Unique(list)
    ensures Unique(Replaced(list, e)) && forall s :: HasSlot(Replaced(list, e), s) <==> HasSlot(list, s)
  {
    if |list| > 0 {
      var front, last := list[..|list| - 1], list[|list| - 1];
      ReplacedUnique(front, e);
      var rest := Replaced(front, e);
      assert Replaced(list, e)[..|rest|] == rest;
      forall s ensures HasSlot(Replaced(list, e), s) <==> HasSlot(list, s) {
        HasSlotSplit(Replaced(list, e), s);
        HasSlotSplit(list, s);
      }
    }
  }

  lemma UniqueAppended(list: SlotList, e: Entry)
    requires Unique(list) && !HasSlot(list, e.slot)
    ensures Unique(list + [e])
  {
    assert (list + [e])[..|list|] == list;
  }

  lemma HasSlotSplit(list: SlotList, slot: Slot)
    requires |list| > 0
    ensures HasSlot(list, slot) <==> HasSlot(list[..|list| - 1], slot) || list[|list| - 1].slot == slot
  {
    var front := list[..|list| - 1];
    if i :| 0 <= i < |front| && front[i].slot == slot { assert list[i].slot == slot; }
    if i :| 0 <= i < |list| - 1 && list[i].slot == slot { assert front[i].slot == slot; }
  }

  lemma WrittenUnique(list: SlotList, e: Entry)
    requires Unique(list)
    ensures Unique(Written(list, e))
  {
    ReplacedUnique(list, e);
    assert (list + [e])[..|list|] == list;
  }

  lemma {:induction false} WithoutUnique(list: SlotList, slots: set<Slot>)
    requires Unique(list)
    ensures Unique(Without(list, slots))
  {
    if |list| > 0 {
      var front, e := list[..|list| - 1], list[|list| - 1];
      WithoutUnique(front, slots);
      var rest := Without(front, slots);
      assert (rest + [e])[..|rest|] == rest;
      if i :| 0 <= i < |rest| && rest[i].slot == e.slot {
        WithoutMembers(front, slots, rest[i]);
        NoSlot(front, e.slot);
      }
    }
  }

  lemma {:induction false} KeptUnique(list: SlotList, bound: Slot, newest: Slot)
    requires Unique(list)
    ensures Unique(Kept(list, bound, newest))
  {
    if |list| > 0 {
      var front, e := list[..|list| - 1], list[|list| - 1];
      KeptUnique(front, bound, newest);
      var rest := Kept(front, bound, newest);
      assert (rest + [e])[..|rest|] == rest;
      if i :| 0 <= i < |rest| && rest[i].slot == e.slot {
        PurgePartitions(front, bound, newest);
        NoSlot(front, e.slot);
      }
    }
  }

  lemma {:induction false} StoredUnique(list: SlotList, slot: Slot)
    requires Unique(list)
    ensures Unique(Stored(list, slot))
  {
    if |list| > 0 {
      var front, e := list[..|list| - 1], list[|list| - 1];
      StoredUnique(front, slot);
      var rest := Stored(front, slot);
      assert Stored(list, slot)[..|rest|] == rest;
      if i :| 0 <= i < |rest| && rest[i].slot == e.slot {
        StoredMembers(front, slot, rest[i]);
        NoSlot(front, e.slot);
      }
    }
  }

  lemma MovedElsewhere(list: SlotList, e: Entry, from: Slot, to: Slot)
    requires Apart(list, from, to) && Apart([e], from, to) && !HasSlot(list, e.slot)
    ensures !HasSlot(Moved(list, from, to), MovedEntry(e, from, to).slot)
  {
    var moved := Moved(list, from, to);
    if i :| 0 <= i < |moved| && moved[i].slot == MovedEntry(e, from, to).slot {
      var x := MovedFrom(list, from, to, moved[i]);
      NoSlot(list, e.slot);
      assert e in [e];
    }
  }

  lemma ApartSplit(list: SlotList, from: Slot, to: Slot)
    requires |list| > 0 && Apart(list, from, to)
    ensures Apart(list[..|list| - 1], from, to) && Apart([list[|list| - 1]], from, to)
  {
    assert list[|list| - 1] in list;
  }

  lemma {:induction false} MovedUnique(list: SlotList, from: Slot, to: Slot)
    requires Unique(list) && Apart(list, from, to)
    ensures Unique(Moved(list, from, to))
  {
    if |list| > 0 {
      var front, e := list[..|list| - 1], list[|list| - 1];
      ApartSplit(list, from, to);
      MovedUnique(front, from, to);
      MovedElsewhere(front, e, from, to);
      UniqueAppended(Moved(front, from, to), MovedEntry(e, from, to));
    }
  }

  // ---------------------------------------------------------------- what a reader sees after an edit

  /** The entries of the list a view sees. */
  function Seeing(view: View, roots: set<Slot>, list: SlotList): SlotList {
    if |list| == 0 then []
    else
      var front, e := Seeing(view, roots, list[..|list| - 1]), list[|list| - 1];
      if Visible(view, roots, e.slot) then front + [e] else front
  }

  lemma {:induction false} LatestSeesVisible(view: View, roots: set<Slot>, list: SlotList)
    ensures Latest(view, roots, list) == Latest(view, roots, Seeing(view, roots, list))
  {
    if |list| > 0 {
      var front, e := list[..|list| - 1], list[|list| - 1];
      LatestSeesVisible(view, roots, front);
      var seen := Seeing(view, roots, front);
      assert (seen + [e])[..|seen|] == seen;
    }
  }

  /** A list changed only in what the view does not see. */
  lemma UnseenChange(view: View, roots: set<Slot>, list: SlotList, list': SlotList)
    requires Seeing(view, roots, list) == Seeing(view, roots, list')
    ensures Latest(view, roots, list) == Latest(view, roots, list')
  {
    LatestSeesVisible(view, roots, list);
    LatestSeesVisible(view, roots, list');
  }

  lemma {:induction false} WrittenUnseen(view: View, roots: set<Slot>, list: SlotList, e: Entry)
    requires !Visible(view, roots, e.slot)
    ensures Seeing(view, roots, Written(list, e)) == Seeing(view, roots, list)
    ensures Seeing(view, roots, Replaced(list, e)) == Seeing(view, roots, list)
  {
    assert (list + [e])[..|list|] == list;
    if |list| > 0 {
      var front := list[..|list| - 1];
      WrittenUnseen(view, roots, front, e);
      assert Replaced(list, e)[..|Replaced(front, e)|] == Replaced(front, e);
    }
  }

  /** Storing changes where the version is, not which it is. */
  lemma {:induction false} StoredKeeps(view: View, roots: set<Slot>, list: SlotList, slot: Slot)
    ensures VersionOf(Latest(view, roots, Stored(list, slot))) == VersionOf(Latest(view, roots, list))
    ensures Latest(view, roots, list).Some? ==>
              Latest(view, roots, Stored(list, slot)).value.slot == Latest(view, roots, list).value.slot
  {
    if |list| > 0 {
      var front, stored := list[..|list| - 1], Stored(list, slot);
      StoredKeeps(view, roots, front, slot);
      assert |stored| == |Stored(front, slot)| + 1 && stored[..|stored| - 1] == Stored(front, slot);
    }
  }

  /** Moving a version past no other changes its slot only. */
  lemma {:induction false} MovedKeeps(view: View, roots: set<Slot>, list: SlotList, from: Slot, to: Slot)
    requires Apart(list, from, to) && Visible(view, roots, from) && Visible(view, roots, to)
    ensures var seen, after := Latest(view, roots, list), Latest(view, roots, Moved(list, from, to));
            if seen.Some? then after == Some(MovedEntry(seen.value, from, to)) else after == None
  {
    if |list| > 0 {
      var front, e := list[..|list| - 1], list[|list| - 1];
      assert e in list && forall x :: x in front ==> x in list;
      MovedKeeps(view, roots, front, from, to);
      var moved := Moved(list, from, to);
      assert |moved| == |Moved(front, from, to)| + 1 && moved[..|moved| - 1] == Moved(front, from, to);
    }
  }

  /** Dropping entries other than the one seen goes unseen. */
  lemma {:induction false} WithoutOthers(view: View, roots: set<Slot>, list: SlotList, slots: set<Slot>)
    requires var seen := Latest(view, roots, list); seen.Some? ==> seen.value.slot !in slots
    ensures Latest(view, roots, Without(list, slots)) == Latest(view, roots, list)
  {
    if |list| > 0 {
      var front, e := list[..|list| - 1], list[|list| - 1];
      var rest := Without(front, slots);
      assert (rest + [e])[..|rest|] == rest;
      if Latest(view, roots, front).Some? && Latest(view, roots, front).value.slot in slots {
        WithoutSeesLess(view, roots, front, slots);
      } else {
        WithoutOthers(view, roots, front, slots);
      }
    }
  }

  lemma WithoutSeesLess(view: View, roots: set<Slot>, list: SlotList, slots: set<Slot>)
    requires Latest(view, roots, list).Some?
    ensures var after := Latest(view, roots, Without(list, slots));
            after.Some? ==> after.value.slot <= Latest(view, roots, list).value.slot
  {
    var after := Latest(view, roots, Without(list, slots));
    if after.Some? { WithoutMembers(list, slots, after.value); }
  }

  lemma {:induction false} SameVisibility(view: View, roots: set<Slot>, roots': set<Slot>, list: SlotList)
    requires forall e :: e in list ==> Visible(view, roots, e.slot) == Visible(view, roots', e.slot)
    ensures Latest(view, roots, list) == Latest(view, roots', list)
  {
    if |list| > 0 { SameVisibility(view, roots, roots', list[..|list| - 1]); }
  }
}
