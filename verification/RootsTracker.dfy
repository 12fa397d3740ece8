/**
  The index's mutable state that scans and cleans synchronise on: the alive roots, kept in a
  rolling bit field, and the roots of the scans under way. Each method is the transition of the
  same name in `ScanProtocol`.
 */
module RootsTrackers {
  import opened Wrappers
  import opened SlotLists
  import opened RollingBitFields
  import P = ScanProtocol

  class RootsTracker {
    const aliveRoots: RollingBitField
    var ongoingScanRoots: map<Slot, nat>

    ghost predicate Valid()
      reads this, aliveRoots, aliveRoots.bits
    {
      aliveRoots.Valid()
    }

    constructor ()
      ensures Valid() && aliveRoots.Members() == {} && aliveRoots.maxExclusive == 0 && ongoingScanRoots == map[]
      ensures fresh(aliveRoots) && fresh(aliveRoots.bits)
    {
      aliveRoots := new RollingBitField(4194304);
      ongoingScanRoots := map[];
    }

    /** `add_root`; `ok` is whether the assertion that roots come in order holds. */
    method AddRoot(slot: Slot) returns (ok: bool)
      requires Valid()
      modifies aliveRoots, aliveRoots.bits
      ensures Valid() && ok == (old(aliveRoots.maxExclusive) <= slot + 1)
      ensures ok ==> aliveRoots.Members() == old(aliveRoots.Members()) + {slot} && aliveRoots.maxExclusive == slot + 1
      ensures !ok ==> aliveRoots.Members() == old(aliveRoots.Members()) && aliveRoots.maxExclusive == old(aliveRoots.maxExclusive)
    {
      ok := slot >= aliveRoots.MaxInclusive();
      if ok {
        aliveRoots.InOrderIsAccepted(slot);
        aliveRoots.Insert(slot);
      }
    }

    /** `clean_dead_slot`: the greatest root stays what it was, even when it is the one removed. */
    method CleanDeadSlot(slot: Slot) returns (wasRoot: bool)
      requires Valid()
      modifies aliveRoots, aliveRoots.bits
      ensures Valid() && wasRoot == (slot in old(aliveRoots.Members()))
      ensures aliveRoots.Members() == old(aliveRoots.Members()) - {slot}
      ensures aliveRoots.maxExclusive == old(aliveRoots.maxExclusive)
    {
      wasRoot := aliveRoots.Remove(slot);
    }

    /** The registration at the start of a checked scan; the scan runs at the root returned. */
    method BeginScan() returns (root: Slot)
      modifies this`ongoingScanRoots
      ensures root == if aliveRoots.maxExclusive == 0 then 0 else aliveRoots.maxExclusive - 1
      ensures ongoingScanRoots == P.Registered(old(ongoingScanRoots), root)
    {
      root := aliveRoots.MaxInclusive();
      var count := if root in ongoingScanRoots then ongoingScanRoots[root] else 0;
      ongoingScanRoots := ongoingScanRoots[root := count + 1];
    }

    method EndScan(root: Slot)
      requires P.Count(ongoingScanRoots, root) > 0
      modifies this`ongoingScanRoots
      ensures ongoingScanRoots == P.Unregistered(old(ongoingScanRoots), root)
    {
      var count := ongoingScanRoots[root] - 1;
      ongoingScanRoots := if count == 0 then ongoingScanRoots - {root} else ongoingScanRoots[root := count];
    }

    /** The first key of the ordered map. */
    method MinOngoingScanRoot() returns (r: Option<Slot>)
      ensures P.IsMinRoot(ongoingScanRoots, r)
    {
      if |ongoingScanRoots| == 0 { return None; }
      assert ongoingScanRoots.Keys != {};
      var least :| least in ongoingScanRoots.Keys;
      var rest := ongoingScanRoots.Keys - {least};
      while rest != {}
        invariant rest <= ongoingScanRoots.Keys && least in ongoingScanRoots
        invariant forall k :: k in ongoingScanRoots && k !in rest ==> least <= k
        decreases |rest|
      {
        var k :| k in rest;
        if k < least { least := k; }
        rest := rest - {k};
      }
      r := Some(least);
    }
  }
}
