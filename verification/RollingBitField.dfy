/**
  `RollingBitField`: a set of slots kept as a ring of bits over a sliding window, with the slots
  that fell below the window in `excess`. Proved to be a set, and shown exactly when it is not.
 */
module RollingBitFields {
  import opened Wrappers

  /** `get_address`: the key modulo the width of the ring. */
  function Address(key: nat, width: nat): (r: nat)
    requires width > 0
    ensures r < width
  {
    if key < width then key else Address(key - width, width)
  }

  /** Two keys less than `width` apart share an address only if they are equal. */
  lemma {:induction false} SameAddress(a: nat, b: nat, width: nat)
    requires width > 0 && a <= b < a + width && Address(a, width) == Address(b, width)
    ensures a == b
    decreases a
  {
    if a >= width { SameAddress(a - width, b - width, width); }
  }

  /** Every window as wide as the ring has a key at each address. */
  lemma {:induction false} AddressInWindow(key: nat, lo: nat, width: nat) returns (k: nat)
    requires width > 0
    ensures lo <= k < lo + width && Address(k, width) == Address(key, width)
    decreases if key < lo then lo - key else key - lo
  {
    if key < lo {
      assert Address(key + width, width) == Address(key, width);
      if lo <= key + width { k := key + width; } else { k := AddressInWindow(key + width, lo, width); }
    } else if key >= lo + width {
      k := AddressInWindow(key - width, lo, width);
    } else {
      k := key;
    }
  }

  /** The window fits the ring and starts at its least key. */
  ghost predicate Window(min: nat, maxExclusive: nat, width: nat, keys: set<nat>) {
    && min <= maxExclusive <= min + width
    && (forall k :: k in keys ==> min <= k < maxExclusive)
    && (if keys == {} then min == maxExclusive else min in keys)
  }

  /** The excess lies below the window, and both are counted. */
  ghost predicate Below(min: nat, excess: set<nat>, keys: set<nat>, count: nat) {
    (forall e :: e in excess ==> e < min) && count == |excess| + |keys|
  }

  lemma WindowTakes(min: nat, maxExclusive: nat, width: nat, keys: set<nat>, key: nat)
    requires Window(min, maxExclusive, width, keys) && keys != {} && min <= key < min + width
    ensures Window(min, if maxExclusive < key + 1 then key + 1 else maxExclusive, width, keys + {key})
  {
  }

  lemma EvictedBelow(min: nat, next: nat, excess: set<nat>, keys: set<nat>, count: nat)
    requires Below(min, excess, keys, count) && min in keys && min < next
    ensures Below(next, excess + {min}, keys - {min}, count) && (keys - {min}) + (excess + {min}) == keys + excess
  {
  }

  lemma RemovedBelow(min: nat, next: nat, excess: set<nat>, keys: set<nat>, count: nat, key: nat)
    requires Below(min, excess, keys, count) && key in keys && min <= next && min <= key
    ensures |keys| > 0 && Below(next, excess, keys - {key}, count - 1) && (keys - {key}) + excess == (keys + excess) - {key}
  {
  }

  lemma InsertedBelow(min: nat, excess: set<nat>, keys: set<nat>, count: nat, key: nat)
    requires Below(min, excess, keys, count) && key !in keys
    ensures Below(min, excess, keys + {key}, count + 1) && (keys + {key}) + excess == (keys + excess) + {key}
  {
  }

  lemma ExcessInserted(min: nat, excess: set<nat>, keys: set<nat>, count: nat, key: nat)
    requires Below(min, excess, keys, count) && key < min && key !in excess
    ensures Below(min, excess + {key}, keys, count + 1) && keys + (excess + {key}) == (keys + excess) + {key}
  {
  }

  lemma ExcessRemoved(min: nat, excess: set<nat>, keys: set<nat>, count: nat, key: nat)
    requires Below(min, excess, keys, count) && key in excess && key !in keys
    ensures |excess| > 0 && Below(min, excess - {key}, keys, count - 1) && keys + (excess - {key}) == (keys + excess) - {key}
  {
  }

  lemma InAlready(a: set<nat>, b: set<nat>, key: nat)
    requires key in a || key in b
    ensures (a + b) + {key} == a + b
  {
  }

  /** The greatest element of `s` below `bound`, if there is one. */
  ghost predicate IsPrior(s: set<nat>, bound: nat, r: Option<nat>) {
    match r
    case None => forall k :: k in s ==> bound <= k
    case Some(m) => m in s && m < bound && forall k :: k in s && k < bound ==> k <= m
  }

  /** Slot 0 is in the set and is the prior of `bound`, or would be if the bound were not 0. */
  ghost predicate OnlyZeroMatters(s: set<nat>, bound: nat) {
    0 in s && bound != 1 && forall k :: k in s && k < bound ==> k == 0
  }

  class RollingBitField {
    const maxWidth: nat
    const bits: array<bool>
    var min: nat
    var maxExclusive: nat
    var count: nat
    var excess: set<nat>
    /** The keys of the window: those whose bit is set. */
    ghost var keys: set<nat>

    /** `contains_assume_in_range`: the bit at the address of `key`. */
    predicate Bit(key: nat)
      requires bits.Length == maxWidth > 0
      reads bits
    {
      bits[Address(key, maxWidth)]
    }

    /** The set represented. */
    ghost function Members(): set<nat>
      reads this`keys, this`excess
    {
      keys + excess
    }

    /** The ring holds exactly the bits of `keys`, seen from any window start that fits. */
    ghost predicate Ring(lo: nat, keys: set<nat>)
      reads bits
    {
      bits.Length == maxWidth > 0 && forall k: nat {:trigger Bit(k)} :: lo <= k < lo + maxWidth ==> (Bit(k) <==> k in keys)
    }

    ghost predicate Shape()
      reads this, bits
    {
      Ring(min, keys) && Window(min, maxExclusive, maxWidth, keys) && Below(min, excess, keys, count)
    }

    ghost predicate Valid()
      reads this, bits
    {
      Shape() && forall e :: e in excess ==> e + 1 < maxExclusive
    }

    constructor (maxWidth: nat)
      requires maxWidth > 0
      ensures Valid() && Members() == {} && fresh(bits) && this.maxWidth == maxWidth && maxExclusive == 0
    {
      this.maxWidth := maxWidth;
      bits := new bool[maxWidth](_ => false);
      min, maxExclusive, count, excess, keys := 0, 0, 0, {}, {};
    }

    predicate AllItemsInExcess()
      reads this
    {
      |excess| == count
    }

    lemma SizeOfMembers()
      requires Shape()
      ensures |Members()| == count
    {
      assert keys !! excess;
    }

    predicate Contains(key: nat)
      requires bits.Length == maxWidth > 0
      reads this, bits
    {
      if key < maxExclusive then
        if key >= min then Bit(key) else key in excess
      else false
    }

    /** The keys a caller finds. */
    ghost function Observed(): set<nat>
      requires bits.Length == maxWidth > 0
      reads this, bits
    {
      set k: nat | 0 <= k < maxExclusive && Contains(k)
    }

    lemma ObservedIsMembers()
      requires Shape()
      ensures Observed() == Members() && forall k: nat :: Contains(k) <==> k in Members()
    {
    }

    /** `max_inclusive`: the greatest key ever stored, while keys are added in order. */
    function MaxInclusive(): nat
      reads this
    {
      if maxExclusive == 0 then 0 else maxExclusive - 1
    }

    /** Set or clear one bit: in a window as wide as the ring no other key shares its address. */
    method SetBit(key: nat, value: bool, ghost lo: nat, ghost was: set<nat>)
      requires Ring(lo, was) && lo <= key < lo + maxWidth
      modifies bits
      ensures Ring(lo, if value then was + {key} else was - {key})
    {
      bits[Address(key, maxWidth)] := value;
      forall k: nat | lo <= k < lo + maxWidth && k != key
        ensures Bit(k) <==> k in was
      {
        assert old(Bit(k)) <==> k in was;
        if Address(k, maxWidth) == Address(key, maxWidth) {
          if k <= key { SameAddress(k, key, maxWidth); } else { SameAddress(key, k, maxWidth); }
        }
      }
    }

    /** The window may slide up past keys that are not there. */
    lemma Slide(lo: nat, hi: nat, keys: set<nat>)
      requires Ring(lo, keys) && lo <= hi <= lo + maxWidth
      requires forall k :: k in keys ==> hi <= k < lo + maxWidth
      ensures Ring(hi, keys)
    {
      forall k: nat | hi <= k < hi + maxWidth
        ensures Bit(k) <==> k in keys
      {
        if k >= lo + maxWidth {
          assert Address(k, maxWidth) == Address(k - maxWidth, maxWidth);
          assert Bit(k - maxWidth) <==> k - maxWidth in keys;
        }
      }
    }

    /** With no key in the window every bit is clear. */
    lemma EmptyRing(lo: nat, hi: nat)
      requires Ring(lo, {})
      ensures Ring(hi, {})
    {
      forall k: nat | hi <= k < hi + maxWidth
        ensures !Bit(k)
      {
        var k' := AddressInWindow(k, lo, maxWidth);
        assert !Bit(k');
      }
    }

    /** After `key` was removed from the window: make `min` the least key that is left. */
    method Purge(key: nat)
      requires Ring(min, keys) && min <= key < maxExclusive <= min + maxWidth && key !in keys
      requires forall k :: k in keys ==> min <= k < maxExclusive
      requires (key != min ==> min in keys) && count == |excess| + |keys|
      modifies this`min
      ensures Ring(min, keys) && old(min) <= min <= maxExclusive && (key == old(min) ==> old(min) < min)
      ensures forall k :: k in keys ==> min <= k < maxExclusive
      ensures if keys == {} then min == maxExclusive else min in keys
    {
      ghost var from := min;
      var to := min;
      if count > 0 && !AllItemsInExcess() {
        if key == min {
          to := min + 1;
          while to < maxExclusive && !Bit(to)
            invariant from < to <= maxExclusive
            invariant forall k :: k in keys ==> to <= k
          {
            to := to + 1;
          }
          assert exists k :: k in keys;
        }
      } else {
        to := maxExclusive;
      }
      Slide(from, to, keys);
      min := to;
    }

    /** Clear the bit of a key of the window and make `min` the least key that is left. */
    method TakeFromWindow(key: nat)
      requires Ring(min, keys) && Window(min, maxExclusive, maxWidth, keys) && key in keys && count == |excess| + |keys| - 1
      modifies this`min, this`keys, bits
      ensures Ring(min, keys) && Window(min, maxExclusive, maxWidth, keys) && keys == old(keys) - {key}
      ensures old(min) <= min && (key == old(min) ==> old(min) < min)
    {
      SetBit(key, false, min, keys);
      keys := keys - {key};
      Purge(key);
    }

    /** Move the least key of the window to `excess`. */
    method EvictMin()
      requires Shape() && keys != {}
      modifies this`min, this`excess, this`keys, bits
      ensures Shape() && Members() == old(Members()) && old(min) < min && excess == old(excess) + {old(min)}
    {
      var key := min;
      ghost var was, out := keys, excess;
      EvictedBelow(key, key + 1, out, was, count);
      excess := excess + {key};
      TakeFromWindow(key);
      EvictedBelow(key, min, out, was, count);
    }

    /** Make room for `newMax`: evict from below until it fits the width or no bit is left. */
    method MakeRoom(newMax: nat) returns (bitsEmpty: bool)
      requires Shape() && keys != {}
      modifies this`min, this`excess, this`keys, bits
      ensures Shape() && Members() == old(Members()) && old(min) <= min
      ensures bitsEmpty <==> keys == {}
      ensures !bitsEmpty ==> newMax <= min + maxWidth
      ensures forall k :: k in excess && k !in old(excess) ==> k + maxWidth < newMax
    {
      bitsEmpty := false;
      while newMax > min + maxWidth
        invariant forall k :: k in excess && k !in old(excess) ==> k + maxWidth < newMax
        invariant Shape() && Members() == old(Members()) && old(min) <= min && keys != {} && !bitsEmpty
        decreases maxExclusive - min
      {
        EvictMin();
        if AllItemsInExcess() {
          bitsEmpty := true;
          break;
        }
      }
    }

    /** `insert` behaves as on a set exactly when this holds. */
    ghost predicate Accepts(key: nat)
      reads this
    {
      keys != {} || forall e :: e in excess ==> e < key
    }

    method Insert(key: nat)
      requires Valid()
      modifies this`min, this`maxExclusive, this`count, this`excess, this`keys, bits
      ensures Members() == old(Members()) + {key} && (old(Accepts(key)) ==> Valid())
      // only keys that no longer fit the width leave the bits
      ensures forall k :: k in excess && k !in old(excess) && k != key ==> k + maxWidth <= key
      ensures maxExclusive == if old(keys) == {} || key + 1 > old(maxExclusive) then key + 1 else old(maxExclusive)
      ensures (Observed() == old(Members()) + {key} && count == |Observed()|) <==> old(Accepts(key))
    {
      ghost var accepts, members := Accepts(key), Members();
      var bitsEmpty := count == 0 || AllItemsInExcess();
      assert bitsEmpty <==> keys == {};
      if bitsEmpty {
        StartAnew(key);
      } else if key < min {
        InsertExcess(key);
      } else {
        InsertAtOrAbove(key);
      }
      if accepts { Accepted(key, members); } else { Rejected(key); }
    }

    lemma Accepted(key: nat, members: set<nat>)
      requires Shape() && Members() == members + {key}
      ensures Observed() == members + {key} && count == |Observed()|
    {
      ObservedIsMembers();
      SizeOfMembers();
    }

    /** Bits are not empty and the key is in the window or above it. */
    method InsertAtOrAbove(key: nat)
      requires Valid() && keys != {} && min <= key
      modifies this`min, this`maxExclusive, this`count, this`excess, this`keys, bits
      ensures Valid() && Members() == old(Members()) + {key}
      ensures forall k :: k in excess && k !in old(excess) ==> k + maxWidth <= key
      ensures maxExclusive == if key + 1 > old(maxExclusive) then key + 1 else old(maxExclusive)
    {
      var bitsEmpty := false;
      if key >= maxExclusive { bitsEmpty := MakeRoom(key + 1); }
      if bitsEmpty { StartAnew(key); } else { InsertInWindow(key); }
    }

    /** Bits are not empty and the key is below the window. */
    method InsertExcess(key: nat)
      requires Valid() && keys != {} && key < min
      modifies this`count, this`excess
      ensures Valid() && Members() == old(Members()) + {key} && excess == old(excess) + {key}
    {
      if key !in excess {
        ExcessInserted(min, excess, keys, count, key);
        excess := excess + {key};
        count := count + 1;
      } else {
        InAlready(keys, excess, key);
      }
    }

    /** Bits are not empty and the key fits the window. */
    method InsertInWindow(key: nat)
      requires Shape() && keys != {} && min <= key < min + maxWidth
      modifies this`maxExclusive, this`count, this`keys, bits
      ensures Valid() && Members() == old(Members()) + {key}
      ensures maxExclusive == if key + 1 > old(maxExclusive) then key + 1 else old(maxExclusive)
    {
      if !Bit(key) { SetNewBit(key); } else { InAlready(keys, excess, key); }
    }

    method SetNewBit(key: nat)
      requires Shape() && keys != {} && min <= key < min + maxWidth && key !in keys
      modifies this`maxExclusive, this`count, this`keys, bits
      ensures Valid() && Members() == old(Members()) + {key}
      ensures maxExclusive == if key + 1 > old(maxExclusive) then key + 1 else old(maxExclusive)
    {
      InsertedBelow(min, excess, keys, count, key);
      WindowTakes(min, maxExclusive, maxWidth, keys, key);
      SetBit(key, true, min, keys);
      keys := keys + {key};
      maxExclusive := if maxExclusive < key + 1 then key + 1 else maxExclusive;
      count := count + 1;
    }

    /** No bit is set: the window starts anew at the key, whatever `excess` holds. */
    method StartAnew(key: nat)
      requires Shape() && keys == {}
      modifies this`min, this`maxExclusive, this`count, this`keys, bits
      ensures min == key && maxExclusive == key + 1 && count == old(count) + 1 && keys == {key} && Ring(min, keys)
      ensures Members() == old(Members()) + {key}
      ensures (forall e :: e in excess ==> e < key) ==> Valid()
    {
      InsertedBelow(min, excess, keys, count, key);
      EmptyRing(min, key);
      SetBit(key, true, key, {});
      keys := {key};
      assert {} + {key} == keys;
      min, maxExclusive, count := key, key + 1, count + 1;
    }

    /** What starting anew at or below a key of `excess` leaves is not the set with the key added. */
    lemma Rejected(key: nat)
      requires bits.Length == maxWidth > 0 && min == key && maxExclusive == key + 1
      requires count == |excess| + 1 && exists e :: e in excess && key <= e
      ensures !(Observed() == excess + {key} && count == |Observed()|)
    {
      if key in excess {
        assert excess + {key} == excess;
      } else {
        var e :| e in excess && key <= e;
        assert e in excess + {key} && e !in Observed();
      }
    }

    /** Keys added in order, as `add_root` asserts, are always accepted. */
    lemma InOrderIsAccepted(key: nat)
      requires Valid() && MaxInclusive() <= key
      ensures Accepts(key)
    {
    }

    method Remove(key: nat) returns (removed: bool)
      requires Valid()
      modifies this`min, this`count, this`excess, this`keys, bits
      ensures Valid() && removed == (key in old(Members())) && Members() == old(Members()) - {key}
    {
      if key >= min {
        removed := key < maxExclusive && Bit(key);
        if removed { RemoveFromWindow(key); }
      } else {
        removed := key in excess;
        if removed { RemoveExcess(key); }
      }
      if !removed { assert Members() - {key} == Members(); }
    }

    method RemoveFromWindow(key: nat)
      requires Valid() && key in keys
      modifies this`min, this`count, this`keys, bits
      ensures Valid() && Members() == old(Members()) - {key}
    {
      ghost var was, lo := keys, min;
      RemovedBelow(lo, lo, excess, was, count, key);
      count := count - 1;
      TakeFromWindow(key);
      RemovedBelow(lo, min, excess, was, count + 1, key);
    }

    method RemoveExcess(key: nat)
      requires Valid() && key in excess
      modifies this`count, this`excess
      ensures Valid() && Members() == old(Members()) - {key}
    {
      ExcessRemoved(min, excess, keys, count, key);
      excess, count := excess - {key}, count - 1;
    }

    /** `get_all`: the excess in any order, then the window in key order. */
    method GetAll() returns (all: seq<nat>)
      requires Valid()
      ensures forall k :: k in all <==> k in Members()
      ensures forall i, j :: 0 <= i < j < |all| ==> all[i] != all[j]
    {
      all := [];
      var rest := excess;
      while rest != {}
        invariant rest <= excess
        invariant forall k :: k in all <==> k in excess && k !in rest
        invariant forall i, j :: 0 <= i < j < |all| ==> all[i] != all[j]
        decreases |rest|
      {
        var k :| k in rest;
        all, rest := all + [k], rest - {k};
      }
      for key := min to maxExclusive
        invariant forall k :: k in all <==> k in excess || (k < key && k in keys)
        invariant forall i, j :: 0 <= i < j < |all| ==> all[i] != all[j]
      {
        assert key !in all;
        if Bit(key) { all := all + [key]; }
      }
    }

    /** `min`: the least member. */
    method Min() returns (r: Option<nat>)
      requires Valid()
      ensures r.None? <==> Members() == {}
      ensures r.Some? ==> r.value in Members() && forall k :: k in Members() ==> r.value <= k
    {
      if count == 0 { return None; }
      if excess == {} { return Some(min); }
      var least :| least in excess;
      var rest := excess - {least};
      while rest != {}
        invariant rest <= excess && least in excess
        invariant forall k :: k in excess && k !in rest ==> least <= k
        decreases |rest|
      {
        var k :| k in rest;
        if k < least { least := k; }
        rest := rest - {k};
      }
      r := if AllItemsInExcess() then Some(least) else Some(if min < least then min else least);
    }

    /**
      `get_prior`: the greatest member below `bound`. The downward walk starts at 0 for a bound of
      0, and stops before it tests slot 0 for a bound above 1; slot 0 is the only wrong answer.
     */
    method GetPrior(bound: nat) returns (r: Option<nat>)
      requires Valid()
      ensures IsPrior(Members(), bound, r) <==> !OnlyZeroMatters(Members(), bound)
    {
      var slot: nat := if bound == 0 then 0 else bound - 1;
      var least := Min();
      if least.None? { return None; }
      while true
        invariant slot < bound || slot == bound == 0
        invariant slot == 0 ==> bound <= 1
        invariant forall k :: k in Members() && k < bound ==> k <= slot
        decreases slot
      {
        assert Contains(slot) <==> slot in Members();
        if Contains(slot) { return Some(slot); }
        if slot == 0 { return None; }
        slot := slot - 1;
        if slot == 0 || slot < least.value { return None; }
      }
    }
  }

  /**
    A member that `insert` loses. Slot 1 falls out of the window when 10 comes, the window is emptied
    again, and 0 starts it anew below slot 1.
   */
  method LosesMember() returns (b: RollingBitField)
    ensures fresh(b) && fresh(b.bits) && b.bits.Length == b.maxWidth > 0
    ensures 1 in b.Members() && 1 !in b.Observed()
  {
    b := new RollingBitField(4);
    b.Insert(1);
    b.Insert(10);
    assert b.min == 10 && b.keys == {10} && b.excess == {1};
    var removed := b.Remove(10);
    assert b.keys == {} && b.excess == {1} && !b.Accepts(0);
    b.Insert(0);
  }

  /** The only member is 0, and the prior of 5 is not found. */
  method MissesPrior() returns (b: RollingBitField, r: Option<nat>)
    ensures fresh(b) && fresh(b.bits) && b.Valid() && b.Members() == {0} && !IsPrior({0}, 5, r)
  {
    b := new RollingBitField(4);
    b.Insert(0);
    assert {} + {0} == {0};
    r := b.GetPrior(5);
  }
}
