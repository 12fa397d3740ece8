/**
  Rent-collection partitions: which pubkeys a partition covers, which partition a pubkey is in, and
  which partitions a new slot collects. Prefixes are 64-bit; `U64`-typed values show that nothing
  overflows.
 */
module RentPartition {
  import opened Pubkeys
  import opened Arithmetic

  /** 2^64, and the number of pubkeys that share a prefix. */
  const PREFIXES: nat := 0x1_0000_0000_0000_0000
  const PER_PREFIX: nat := 0x1_0000000000000000_0000000000000000_0000000000000000

  type Count = n: nat | 1 <= n <= U64_MAX witness 1

  /** (start index, end index, partitions per cycle) */
  datatype Partition = Partition(start: nat, end: nat, count: Count)

  predicate ValidPartition(p: Partition) { p.start <= p.end < p.count }

  datatype KeyRange = KeyRange(first: Pubkey, last: Pubkey)

  predicate Covers(r: KeyRange, k: Pubkey) { r.first <= k <= r.last }

  // ---------------------------------------------------------------- ranges

  /** `2^64 / n`; the source avoids `2^64`, which for `n == 1` would not fit. */
  function PartitionWidth(n: Count): (w: U64)
    requires n >= 2
    ensures w >= 1
    ensures w * n <= PREFIXES < w * n + n
  {
    WidthFits(n);
    Div(U64_MAX - n + 1, n) + 1
  }

  lemma WidthFits(n: Count)
    requires n >= 2
    ensures var w := Div(U64_MAX - n + 1, n) + 1; w <= U64_MAX && w * n <= PREFIXES < w * n + n
  {
    var q := Div(U64_MAX - n + 1, n);
    QuotientBounds(U64_MAX - n + 1, n);
    GroupsStep(q + 1, n);
    MulMonotone(2, n, q);
  }

  /** The prefix at which partition index `i` starts; one multiplication of 64-bit numbers. */
  function Boundary(n: Count, i: nat): (b: U64)
    requires 0 <= i < n && n >= 2
    ensures b == i * PartitionWidth(n)
  {
    var w := PartitionWidth(n);
    MulMonotone(i + 1, n, w);
    assert (i + 1) * w == i * w + w;
    i * w
  }

  function StartPrefix(p: Partition): U64
    requires ValidPartition(p) && p.count >= 2
  {
    if p.start == 0 && p.end == 0 then 0
    else if p.start + 1 == p.count then U64_MAX
    else Boundary(p.count, p.start + 1)
  }

  function EndPrefix(p: Partition): U64
    requires ValidPartition(p) && p.count >= 2
  {
    if p.end + 1 == p.count then U64_MAX
    else assert Boundary(p.count, p.end + 1) >= 1 by { MulMonotone(1, p.end + 1, PartitionWidth(p.count)); } Boundary(p.count, p.end + 1) - 1
  }

  function Key(prefix: U64, low: nat): Pubkey
    requires low < PER_PREFIX
  {
    prefix * PER_PREFIX + low
  }

  function PrefixFromPubkey(k: Pubkey): U64 { k / PER_PREFIX }

  const FIRST: nat := 0
  const LAST: nat := PER_PREFIX - 1

  function PubkeyRangeFromPartition(p: Partition): KeyRange
    requires ValidPartition(p)
  {
    if p.count == 1 then KeyRange(Key(0, FIRST), Key(U64_MAX, LAST))
    else
      var start, end := StartPrefix(p), EndPrefix(p);
      if p.start != 0 && p.start == p.end then
        if end == U64_MAX then KeyRange(Key(end, LAST), Key(end, LAST)) else KeyRange(Key(start, FIRST), Key(start, FIRST))
      else KeyRange(Key(start, FIRST), Key(end, LAST))
  }

  // ---------------------------------------------------------------- tiling

  /** The partition that ends at index `i` and covers no other. */
  function Unit(i: nat, n: Count): (p: Partition)
    requires i < n
    ensures ValidPartition(p)
  {
    Partition(if i == 0 then 0 else i - 1, i, n)
  }

  /** The prefixes of unit `i`: `width` of them, and the rest in the last. */
  lemma UnitPrefixes(i: nat, n: Count)
    requires i < n && n >= 2
    ensures var r := PubkeyRangeFromPartition(Unit(i, n));
            && r.first == Key(Boundary(n, i), FIRST)
            && r.last == Key(if i + 1 == n then U64_MAX else Boundary(n, i + 1) - 1, LAST)
            && Boundary(n, i) <= (if i + 1 == n then U64_MAX else Boundary(n, i + 1) - 1)
  {
    GroupsStep(i + 1, PartitionWidth(n));
  }

  /** Units follow one another without a gap, from the first pubkey to the last. */
  lemma UnitsTile(i: nat, n: Count)
    requires i < n
    ensures var r := PubkeyRangeFromPartition(Unit(i, n));
            && r.first <= r.last
            && (i == 0 ==> r.first == 0)
            && (i + 1 == n ==> r.last == SPACE - 1)
            && (i + 1 < n ==> r.last + 1 == PubkeyRangeFromPartition(Unit(i + 1, n)).first)
  {
    if n >= 2 {
      UnitPrefixes(i, n);
      if i + 1 < n { UnitPrefixes(i + 1, n); }
    }
  }

  lemma PrefixOrder(k: Pubkey, a: U64)
    ensures Key(a, FIRST) <= k <==> a <= PrefixFromPubkey(k)
    ensures k <= Key(a, LAST) <==> PrefixFromPubkey(k) <= a
  {
  }

  /** The unit of a pubkey: its prefix over the width, except that the last unit has the rest. */
  function UnitOf(k: Pubkey, n: Count): (i: nat)
    ensures i < n
  {
    if n == 1 then 0
    else
      var q := Div(PrefixFromPubkey(k), PartitionWidth(n));
      if q >= n - 1 then n - 1 else q
  }

  lemma UnitOfPrefix(p: U64, n: Count, i: nat)
    requires n >= 2 && i < n
    ensures var w := PartitionWidth(n);
            var unit := if Div(p, w) >= n - 1 then n - 1 else Div(p, w);
            unit == i <==> i * w <= p && (i + 1 < n ==> p < (i + 1) * w)
  {
    var w := PartitionWidth(n);
    var q := Div(p, w);
    QuotientBounds(p, w);
    GroupsStep(q + 1, w);
    if q < i { MulMonotone(q + 1, i, w); }
    if i <= q { MulMonotone(i, q, w); }
    if i < q { MulMonotone(i + 1, q, w); }
  }

  /** Every pubkey is in exactly one unit. */
  lemma OneUnit(k: Pubkey, n: Count, i: nat)
    requires i < n
    ensures Covers(PubkeyRangeFromPartition(Unit(i, n)), k) <==> UnitOf(k, n) == i
  {
    if n >= 2 {
      UnitPrefixes(i, n);
      PrefixOrder(k, Boundary(n, i));
      PrefixOrder(k, if i + 1 == n then U64_MAX else Boundary(n, i + 1) - 1);
      UnitOfPrefix(PrefixFromPubkey(k), n, i);
    }
  }

  /** `get_partition_end_indexes` */
  function EndIndexes(p: Partition): seq<nat>
    requires p.start <= p.end
  {
    if p.start == p.end && p.start == 0 then [0]
    else seq(p.end - p.start, i requires 0 <= i < p.end - p.start => p.start + 1 + i)
  }

  lemma EndIndexMembers(p: Partition, i: nat)
    requires p.start <= p.end
    ensures i in EndIndexes(p) <==> (p.start < i <= p.end) || (i == 0 && p.end == 0)
  {
    if p.start < i <= p.end { assert EndIndexes(p)[i - p.start - 1] == i; }
  }

  /**
    A partition covers exactly the pubkeys of the units its end indexes name, unless it starts where
    it ends and that is not 0: then it has no end index and still covers one pubkey.
   */
  lemma PartitionCoversItsUnits(p: Partition)
    requires ValidPartition(p)
    ensures (forall k: Pubkey :: Covers(PubkeyRangeFromPartition(p), k) <==> UnitOf(k, p.count) in EndIndexes(p))
            <==> !(p.start == p.end != 0)
  {
    if p.start == p.end != 0 {
      var r := PubkeyRangeFromPartition(p);
      assert Covers(r, r.first) && EndIndexes(p) == [];
    } else {
      forall k: Pubkey ensures Covers(PubkeyRangeFromPartition(p), k) <==> UnitOf(k, p.count) in EndIndexes(p) {
        CoveredUnits(p, k);
      }
    }
  }

  lemma CoveredUnits(p: Partition, k: Pubkey)
    requires ValidPartition(p) && !(p.start == p.end != 0)
    ensures Covers(PubkeyRangeFromPartition(p), k) <==> UnitOf(k, p.count) in EndIndexes(p)
  {
    var n := p.count;
    EndIndexMembers(p, UnitOf(k, n));
    if p.end == 0 {
      OneUnit(k, n, 0);
    } else {
      WideEdges(p);
      PrefixOrder(k, Boundary(n, p.start + 1));
      PrefixOrder(k, if p.end + 1 == n then U64_MAX else Boundary(n, p.end + 1) - 1);
      UnitBetween(PrefixFromPubkey(k), n, p.start + 1, p.end);
    }
  }

  lemma WideEdges(p: Partition)
    requires ValidPartition(p) && p.start < p.end
    ensures var r := PubkeyRangeFromPartition(p);
            && r.first == Key(Boundary(p.count, p.start + 1), FIRST)
            && r.last == Key(if p.end + 1 == p.count then U64_MAX else Boundary(p.count, p.end + 1) - 1, LAST)
  {
  }

  lemma UnitBetween(p: U64, n: Count, lo: nat, hi: nat)
    requires n >= 2 && lo <= hi < n
    ensures var w := PartitionWidth(n);
            var unit := if Div(p, w) >= n - 1 then n - 1 else Div(p, w);
            lo <= unit <= hi <==> lo * w <= p && (hi + 1 < n ==> p < (hi + 1) * w)
  {
    var w := PartitionWidth(n);
    var q := Div(p, w);
    QuotientBounds(p, w);
    GroupsStep(q + 1, w);
    if q < lo { MulMonotone(q + 1, lo, w); } else { MulMonotone(lo, q, w); }
    if hi < q { MulMonotone(hi + 1, q, w); } else { MulMonotone(q + 1, hi + 1, w); }
  }

  // ---------------------------------------------------------------- from pubkey to partition

  function PartitionFromPubkey(k: Pubkey, n: Count): nat {
    if n == 1 then 0
    else
      var w, prefix := PartitionWidth(n), PrefixFromPubkey(k);
      if prefix == 0 then 0
      else if prefix == U64_MAX then n - 1
      else
        var result := Div(prefix + 1, w);
        if (prefix + 1) % w == 0 && result > 0 then result - 1 else result
  }

  /** Below the greatest prefix the adjusted division is the plain one. */
  lemma AdjustedDivision(k: Pubkey, n: Count)
    requires n >= 2 && PrefixFromPubkey(k) < U64_MAX
    ensures PartitionFromPubkey(k, n) == Div(PrefixFromPubkey(k), PartitionWidth(n))
  {
    var w, p := PartitionWidth(n), PrefixFromPubkey(k);
    NextQuotient(p, w);
    if p == 0 { QuotientIs(0, w, 0, 0); }
  }

  /**
    It is the inverse of the ranges exactly below `n * width` and at the greatest prefix; the pubkeys
    in between belong to the last unit and are told a partition at or past the count.
   */
  lemma InverseExactly(k: Pubkey, n: Count)
    requires n >= 2
    ensures PartitionFromPubkey(k, n) == UnitOf(k, n)
            <==> PrefixFromPubkey(k) < n * PartitionWidth(n) || PrefixFromPubkey(k) == U64_MAX
  {
    var w, p := PartitionWidth(n), PrefixFromPubkey(k);
    if p < U64_MAX {
      AdjustedDivision(k, n);
      if p < n * w {
        DivBelow(p, w, n);
      } else {
        DivAtLeast(p, w, n);
      }
    } else {
      GroupsStep(n, w);
      DivAtLeast(p, w, n - 1);
    }
  }

  lemma DivAtLeast(x: nat, d: nat, n: nat)
    requires d >= 1 && n * d <= x
    ensures n <= Div(x, d)
  {
    QuotientBounds(x, d);
    GroupsStep(Div(x, d) + 1, d);
    if Div(x, d) < n { MulMonotone(Div(x, d) + 1, n, d); }
  }

  /** `accounts` has one list more than there are partitions: is that always enough? */
  predicate ListsSuffice(n: Count) { n == 1 || Div(U64_MAX - 1, PartitionWidth(n)) <= n }

  lemma ListsSufficeExactly(n: Count)
    ensures (forall k: Pubkey :: PartitionFromPubkey(k, n) <= n) <==> ListsSuffice(n)
  {
    if n >= 2 {
      var w := PartitionWidth(n);
      if Div(U64_MAX - 1, w) <= n {
        forall k: Pubkey ensures PartitionFromPubkey(k, n) <= n {
          if PrefixFromPubkey(k) < U64_MAX {
            AdjustedDivision(k, n);
            DivMonotone(PrefixFromPubkey(k), U64_MAX - 1, w);
          }
        }
      } else {
        var k := Key(U64_MAX - 1, FIRST);
        PrefixOrder(k, U64_MAX - 1);
        AdjustedDivision(k, n);
        assert PartitionFromPubkey(k, n) > n;
      }
    }
  }

  /** Up to 2^32 partitions, and an epoch has far fewer, the lists suffice. */
  lemma EpochListsSuffice(n: Count)
    requires n <= 0x1_0000_0000
    ensures ListsSuffice(n)
  {
    if n >= 2 {
      var w, h := PartitionWidth(n), 0x1_0000_0000;
      GroupsStep(w + 1, n);
      MulMonotone(n, h, n);
      MulMonotone(n, h, h);
      if w < n { MulMonotone(w + 1, n, n); }
      GroupsStep(n + 1, w);
      DivBelow(U64_MAX - 1, w, n + 1);
    }
  }

  /** With 2^63 + 1 partitions they do not. */
  lemma HugeCountsNeedMore()
    ensures !ListsSuffice(0x8000_0000_0000_0001)
  {
    var n: Count := 0x8000_0000_0000_0001;
    var w := PartitionWidth(n);
    assert w == 1;
    DivAtLeast(U64_MAX - 1, 1, U64_MAX - 1);
  }

  class RentPayingAccountsByPartition {
    var accounts: seq<set<Pubkey>>
    const partitionCount: Count

    ghost predicate Valid()
      reads this
    {
      |accounts| == partitionCount + 1
    }

    constructor (slotsPerEpoch: Count)
      ensures Valid() && partitionCount == slotsPerEpoch && forall s :: s in accounts ==> s == {}
    {
      partitionCount := slotsPerEpoch;
      accounts := seq(slotsPerEpoch + 1, _ => {});
    }

    /** `ok` is whether the index is in range. */
    method AddAccount(k: Pubkey) returns (ok: bool)
      requires Valid()
      modifies this
      ensures Valid() && (ListsSuffice(partitionCount) ==> ok)
      ensures ok <==> PartitionFromPubkey(k, partitionCount) <= partitionCount
      ensures ok ==> var i := PartitionFromPubkey(k, partitionCount); accounts == old(accounts)[i := old(accounts)[i] + {k}]
      ensures !ok ==> accounts == old(accounts)
    {
      ListsSufficeExactly(partitionCount);
      var i := PartitionFromPubkey(k, partitionCount);
      ok := i < |accounts|;
      if ok { accounts := accounts[i := accounts[i] + {k}]; }
    }
  }

  // ---------------------------------------------------------------- which partitions a slot collects

  /**
    The partitions collected when `slot` follows `parent`. Their end indexes are exactly those due,
    in order and once each, if and only if the slot is smooth.
   */
  method GetPartitions(slot: nat, parent: nat, n: Count) returns (partitions: seq<Partition>)
    ensures partitions == Partitions(slot, parent, n)
    ensures parent < slot ==> Proper(partitions, n)
    ensures parent < slot ==> (Collected(partitions, n) == Due(slot, parent, n) <==> Smooth(slot, parent, n))
  {
    if parent < slot { CollectsWhatIsDue(slot, parent, n); }
    var parentCycle, currentCycle := parent / n, slot / n;
    var parentIndex, currentIndex := parent % n, slot % n;
    partitions := [];
    if parentCycle < currentCycle {
      if currentIndex > 0 {
        partitions := partitions + [Partition(parentIndex, n - 1, n)];
        partitions := partitions + [Partition(0, 0, n)];
      }
      parentIndex := 0;
    }
    partitions := partitions + [Partition(parentIndex, currentIndex, n)];
  }

  function Partitions(slot: nat, parent: nat, n: Count): seq<Partition> {
    if parent / n < slot / n then
      if slot % n > 0 then [Partition(parent % n, n - 1, n), Partition(0, 0, n), Partition(0, slot % n, n)]
      else [Partition(0, 0, n)]
    else [Partition(parent % n, slot % n, n)]
  }

  ghost predicate Proper(ps: seq<Partition>, n: Count) { forall p :: p in ps ==> ValidPartition(p) && p.count == n }

  /** The end indexes of the partitions, in the order they are collected. */
  ghost function Collected(ps: seq<Partition>, n: Count): seq<nat>
    requires Proper(ps, n)
  {
    if |ps| == 0 then [] else Collected(ps[..|ps| - 1], n) + EndIndexes(ps[|ps| - 1])
  }

  /** What should be collected: the cycle index of every slot after `parent` up to `slot`. */
  function Due(slot: nat, parent: nat, n: Count): seq<nat>
    requires parent <= slot
  {
    seq(slot - parent, i requires 0 <= i < slot - parent => (parent + 1 + i) % n)
  }

  /** The slot is in the parent's cycle, or in the next and does not skip the end of the parent's. */
  predicate Smooth(slot: nat, parent: nat, n: Count) {
    || slot / n == parent / n
    || (slot / n == parent / n + 1 && (slot % n > 0 || parent % n == n - 1))
  }

  lemma PartitionsOrdered(slot: nat, parent: nat, n: Count)
    requires parent < slot
    ensures Proper(Partitions(slot, parent, n), n)
  {
    if parent / n >= slot / n {
      DivMonotone(parent, slot, n);
      SameCycle(slot, parent, n);
    }
  }

  lemma SameCycle(slot: nat, parent: nat, n: Count)
    requires parent < slot && slot / n == parent / n
    ensures slot % n - parent % n == slot - parent
  {
    DivMod(slot, n);
    DivMod(parent, n);
  }

  /** The slot `j` after the one after `parent` has the next cycle index, or starts a cycle, or is in the one started. */
  lemma DueAt(parent: nat, n: Count, j: nat)
    requires parent % n + 1 + j < 2 * n
    ensures (parent + 1 + j) % n == if parent % n + 1 + j < n then parent % n + 1 + j else parent % n + 1 + j - n
  {
    DivMod(parent, n);
    RemainderAfter(parent / n, n, parent % n, 1 + j);
  }

  lemma DueInCycle(slot: nat, parent: nat, n: Count)
    requires parent < slot && slot / n == parent / n
    ensures EndIndexes(Partition(parent % n, slot % n, n)) == Due(slot, parent, n)
  {
    SameCycle(slot, parent, n);
    var due := Due(slot, parent, n);
    forall j | 0 <= j < |due| ensures due[j] == parent % n + 1 + j { DueAt(parent, n, j); }
  }

  lemma DueAcross(slot: nat, parent: nat, n: Count)
    requires slot / n == parent / n + 1 && slot % n > 0
    ensures parent < slot
    ensures EndIndexes(Partition(parent % n, n - 1, n)) + [0] + EndIndexes(Partition(0, slot % n, n)) == Due(slot, parent, n)
  {
    NextCycle(slot, parent, n);
    var due, i := Due(slot, parent, n), parent % n;
    forall j | 0 <= j < |due|
      ensures due[j] == if i + 1 + j < n then i + 1 + j else i + 1 + j - n
    {
      DueAt(parent, n, j);
    }
    AcrossIs(due, i, slot % n, n);
  }

  lemma NextCycle(slot: nat, parent: nat, n: Count)
    requires slot / n == parent / n + 1
    ensures slot - parent == n - parent % n + slot % n
  {
    DivMod(slot, n);
    DivMod(parent, n);
    GroupsStep(slot / n, n);
  }

  /** The rest of one cycle, index 0, and the next up to `c`. */
  lemma AcrossIs(due: seq<nat>, i: nat, c: nat, n: Count)
    requires i < n && 0 < c < n && |due| == n - i + c
    requires forall j :: 0 <= j < |due| ==> due[j] == if i + 1 + j < n then i + 1 + j else i + 1 + j - n
    ensures EndIndexes(Partition(i, n - 1, n)) + [0] + EndIndexes(Partition(0, c, n)) == due
  {
    var rest, next := EndIndexes(Partition(i, n - 1, n)), EndIndexes(Partition(0, c, n));
    var m := n - 1 - i;
    assert |rest| == m && |next| == c && |rest + [0] + next| == |due|;
    forall j | 0 <= j < |due| ensures (rest + [0] + next)[j] == due[j] {
      if j < m { assert (rest + [0] + next)[j] == rest[j]; } else if j > m { assert (rest + [0] + next)[j] == next[j - m - 1]; }
    }
  }

  lemma SkippedCycle(slot: nat, parent: nat, n: Count)
    requires slot / n >= parent / n + 2
    ensures slot - parent > n - parent % n + slot % n
  {
    DivMod(slot, n);
    DivMod(parent, n);
    MulMonotone(parent / n + 2, slot / n, n);
    GroupsStep(parent / n + 2, n);
    GroupsStep(parent / n + 1, n);
  }

  lemma CollectedOfOne(p: Partition)
    requires ValidPartition(p)
    ensures Collected([p], p.count) == EndIndexes(p)
  {
    assert [p][..0] == [];
  }

  lemma CollectedOfThree(p: Partition, q: Partition, r: Partition)
    requires Proper([p, q, r], p.count)
    ensures Collected([p, q, r], p.count) == EndIndexes(p) + EndIndexes(q) + EndIndexes(r)
  {
    assert [p, q, r][..2] == [p, q] && [p, q][..1] == [p];
    CollectedOfOne(p);
  }

  /** Exactly the indexes due are collected, in order and once each, if and only if the slot is smooth. */
  lemma CollectsWhatIsDue(slot: nat, parent: nat, n: Count)
    requires parent < slot
    ensures Proper(Partitions(slot, parent, n), n)
    ensures Collected(Partitions(slot, parent, n), n) == Due(slot, parent, n) <==> Smooth(slot, parent, n)
  {
    PartitionsOrdered(slot, parent, n);
    DivMonotone(parent, slot, n);
    if slot / n == parent / n {
      CollectedOfOne(Partition(parent % n, slot % n, n));
      DueInCycle(slot, parent, n);
    } else if slot % n > 0 {
      CollectedOfThree(Partition(parent % n, n - 1, n), Partition(0, 0, n), Partition(0, slot % n, n));
      if slot / n == parent / n + 1 {
        DueAcross(slot, parent, n);
      } else {
        SkippedCycle(slot, parent, n);
      }
    } else {
      CollectedOfOne(Partition(0, 0, n));
      CycleStart(slot, parent, n);
    }
  }

  /** A slot that starts a cycle collects index 0 only. */
  lemma CycleStart(slot: nat, parent: nat, n: Count)
    requires parent < slot && slot / n > parent / n && slot % n == 0
    ensures [0] == Due(slot, parent, n) <==> Smooth(slot, parent, n)
  {
    if slot / n == parent / n + 1 {
      NextCycle(slot, parent, n);
      if parent % n == n - 1 { DueAt(parent, n, 0); }
    } else {
      SkippedCycle(slot, parent, n);
    }
  }

  // ---------------------------------------------------------------- whole chains

  /** Slots from genesis on, each after the one before it. */
  predicate Chain(slots: seq<nat>) {
    |slots| > 0 && slots[0] == 0 && forall i :: 0 <= i < |slots| - 1 ==> slots[i] < slots[i + 1]
  }

  predicate SmoothChain(slots: seq<nat>, n: Count) {
    Chain(slots) && forall i :: 0 <= i < |slots| - 1 ==> Smooth(slots[i + 1], slots[i], n)
  }

  /** Everything collected along the chain, starting with the genesis partition. */
  ghost function CollectedAlong(slots: seq<nat>, n: Count): seq<nat>
    requires Chain(slots)
    decreases |slots|
  {
    if |slots| == 1 then EndIndexes(Partition(0, 0, n))
    else
      var last := |slots| - 1;
      PartitionsOrdered(slots[last], slots[last - 1], n);
      CollectedAlong(slots[..last], n) + Collected(Partitions(slots[last], slots[last - 1], n), n)
  }

  /** The cycle indexes of the slots 0, 1, 2, ..., `slot`. */
  ghost predicate CountsTo(collected: seq<nat>, slot: nat, n: Count) {
    |collected| == slot + 1 && forall x :: 0 <= x <= slot ==> collected[x] == x % n
  }

  lemma CountsOn(collected: seq<nat>, slot: nat, parent: nat, n: Count)
    requires CountsTo(collected, parent, n) && parent < slot
    ensures CountsTo(collected + Due(slot, parent, n), slot, n)
  {
    var due := Due(slot, parent, n);
    forall x | 0 <= x <= slot ensures (collected + due)[x] == x % n {
      if x > parent { assert (collected + due)[x] == due[x - parent - 1]; }
    }
  }

  /** Along a smooth chain every cycle's indexes 0, 1, 2, ... are collected, each once and in order. */
  lemma {:induction false} ChainCollectsInOrder(slots: seq<nat>, n: Count)
    requires SmoothChain(slots, n)
    ensures CountsTo(CollectedAlong(slots, n), slots[|slots| - 1], n)
    decreases |slots|
  {
    if |slots| > 1 {
      var last := |slots| - 1;
      ChainCollectsInOrder(slots[..last], n);
      CollectsWhatIsDue(slots[last], slots[last - 1], n);
      CountsOn(CollectedAlong(slots[..last], n), slots[last], slots[last - 1], n);
    }
  }

  // ---------------------------------------------------------------- how often a pubkey is collected

  function CountOf(s: seq<nat>, x: nat): nat {
    if |s| == 0 then 0 else CountOf(s[..|s| - 1], x) + if s[|s| - 1] == x then 1 else 0
  }

  lemma {:induction false} CountConcat(a: seq<nat>, b: seq<nat>, x: nat)
    ensures CountOf(a + b, x) == CountOf(a, x) + CountOf(b, x)
  {
    if b == [] {
      assert a + b == a;
    } else {
      CountConcat(a, b[..|b| - 1], x);
      assert (a + b)[..|a + b| - 1] == a + b[..|b| - 1];
    }
  }

  lemma {:induction false} CountDistinct(s: seq<nat>, x: nat)
    requires forall i, j :: 0 <= i < j < |s| ==> s[i] != s[j]
    ensures CountOf(s, x) == if x in s then 1 else 0
  {
    if |s| > 0 {
      CountDistinct(s[..|s| - 1], x);
      assert s == s[..|s| - 1] + [s[|s| - 1]];
    }
  }

  /** The number of partitions whose range covers the pubkey. */
  ghost function Times(ps: seq<Partition>, n: Count, k: Pubkey): nat
    requires Proper(ps, n)
  {
    if |ps| == 0 then 0
    else Times(ps[..|ps| - 1], n, k) + if Covers(PubkeyRangeFromPartition(ps[|ps| - 1]), k) then 1 else 0
  }

  /** The partition has no end index and its range is this one pubkey. */
  predicate Stray(p: Partition, k: Pubkey)
    requires ValidPartition(p)
  {
    p.start == p.end != 0 && Covers(PubkeyRangeFromPartition(p), k)
  }

  ghost function Strays(ps: seq<Partition>, n: Count, k: Pubkey): nat
    requires Proper(ps, n)
  {
    if |ps| == 0 then 0 else Strays(ps[..|ps| - 1], n, k) + if Stray(ps[|ps| - 1], k) then 1 else 0
  }

  lemma CoveredOnce(p: Partition, k: Pubkey)
    requires ValidPartition(p)
    ensures (if Covers(PubkeyRangeFromPartition(p), k) then 1 else 0)
            == CountOf(EndIndexes(p), UnitOf(k, p.count)) + if Stray(p, k) then 1 else 0
  {
    CountDistinct(EndIndexes(p), UnitOf(k, p.count));
    if p.start == p.end != 0 { assert EndIndexes(p) == []; } else { CoveredUnits(p, k); }
  }

  /** A pubkey is covered once for every end index that is its unit, and by the strays. */
  lemma {:induction false} TimesIsCount(ps: seq<Partition>, k: Pubkey, n: Count)
    requires Proper(ps, n)
    ensures Times(ps, n, k) == CountOf(Collected(ps, n), UnitOf(k, n)) + Strays(ps, n, k)
  {
    if |ps| > 0 {
      TimesIsCount(ps[..|ps| - 1], k, n);
      CoveredOnce(ps[|ps| - 1], k);
      CountConcat(Collected(ps[..|ps| - 1], n), EndIndexes(ps[|ps| - 1]), UnitOf(k, n));
    }
  }

  /** The slot follows the last slot of a cycle and skips the first of the next. */
  predicate Hop(slot: nat, parent: nat, n: Count) {
    slot / n > parent / n && slot % n > 0 && parent % n == n - 1
  }

  /** The last pubkey of all is covered once more by each hop, and no other ever is. */
  lemma StraysAre(slot: nat, parent: nat, n: Count, k: Pubkey)
    requires parent < slot
    ensures Proper(Partitions(slot, parent, n), n)
    ensures Strays(Partitions(slot, parent, n), n, k) == if Hop(slot, parent, n) && k == SPACE - 1 then 1 else 0
  {
    PartitionsOrdered(slot, parent, n);
    DivMonotone(parent, slot, n);
    if slot / n == parent / n {
      SameCycle(slot, parent, n);
      StraysOfOne(Partition(parent % n, slot % n, n), k);
    } else if slot % n > 0 {
      var p, q, r := Partition(parent % n, n - 1, n), Partition(0, 0, n), Partition(0, slot % n, n);
      StraysOfThree(p, q, r, k);
      if parent % n == n - 1 { LastStray(n, k); }
    } else {
      StraysOfOne(Partition(0, 0, n), k);
    }
  }

  lemma LastStray(n: Count, k: Pubkey)
    requires n >= 2
    ensures Stray(Partition(n - 1, n - 1, n), k) <==> k == SPACE - 1
  {
  }

  lemma StraysOfOne(p: Partition, k: Pubkey)
    requires ValidPartition(p)
    ensures Strays([p], p.count, k) == if Stray(p, k) then 1 else 0
  {
    assert [p][..0] == [];
  }

  lemma StraysOfThree(p: Partition, q: Partition, r: Partition, k: Pubkey)
    requires Proper([p, q, r], p.count)
    ensures Strays([p, q, r], p.count, k)
            == (if Stray(p, k) then 1 else 0) + (if Stray(q, k) then 1 else 0) + (if Stray(r, k) then 1 else 0)
  {
    assert [p, q, r][..2] == [p, q] && [p, q][..1] == [p];
    StraysOfOne(p, k);
  }

  /** How often the chain's partitions cover the pubkey. */
  ghost function TimesAlong(slots: seq<nat>, n: Count, k: Pubkey): nat
    requires Chain(slots)
    decreases |slots|
  {
    if |slots| == 1 then Times([Partition(0, 0, n)], n, k)
    else
      var last := |slots| - 1;
      PartitionsOrdered(slots[last], slots[last - 1], n);
      TimesAlong(slots[..last], n, k) + Times(Partitions(slots[last], slots[last - 1], n), n, k)
  }

  function Hops(slots: seq<nat>, n: Count): nat
    requires Chain(slots)
    decreases |slots|
  {
    if |slots| == 1 then 0
    else
      var last := |slots| - 1;
      Hops(slots[..last], n) + if Hop(slots[last], slots[last - 1], n) then 1 else 0
  }

  lemma {:induction false} TimesAlongIsCount(slots: seq<nat>, n: Count, k: Pubkey)
    requires Chain(slots)
    ensures TimesAlong(slots, n, k) == CountOf(CollectedAlong(slots, n), UnitOf(k, n)) + if k == SPACE - 1 then Hops(slots, n) else 0
    decreases |slots|
  {
    if |slots| == 1 {
      TimesIsCount([Partition(0, 0, n)], k, n);
      CollectedOfOne(Partition(0, 0, n));
      StraysOfOne(Partition(0, 0, n), k);
    } else {
      var last := |slots| - 1;
      var ps := Partitions(slots[last], slots[last - 1], n);
      TimesAlongIsCount(slots[..last], n, k);
      PartitionsOrdered(slots[last], slots[last - 1], n);
      TimesIsCount(ps, k, n);
      StraysAre(slots[last], slots[last - 1], n, k);
      CountConcat(CollectedAlong(slots[..last], n), Collected(ps, n), UnitOf(k, n));
    }
  }

  /** Of the slots 0, 1, ..., `slot`, one in every cycle has a given index, and one in the last if it got so far. */
  lemma {:induction false} OncePerCycle(collected: seq<nat>, slot: nat, n: Count, u: nat)
    requires CountsTo(collected, slot, n) && u < n
    ensures CountOf(collected, u) == slot / n + if u <= slot % n then 1 else 0
  {
    if slot == 0 {
      assert collected[..0] == [];
      QuotientIs(0, n, 0, 0);
    } else {
      OncePerCycle(collected[..slot], slot - 1, n, u);
      DivMod(slot - 1, n);
      RemainderAfter((slot - 1) / n, n, (slot - 1) % n, 1);
      NextQuotient(slot - 1, n);
    }
  }

  /**
    How often a smooth chain that has come to `slot` has collected a pubkey: once in every whole
    cycle, and once in the present one if it has come to the pubkey's partition. Only the last pubkey
    of all is collected once more whenever the chain hops over the first slot of a cycle.
   */
  lemma ChainCoversPubkey(slots: seq<nat>, n: Count, k: Pubkey)
    requires SmoothChain(slots, n)
    ensures var slot := slots[|slots| - 1];
            TimesAlong(slots, n, k) == slot / n + (if UnitOf(k, n) <= slot % n then 1 else 0) + if k == SPACE - 1 then Hops(slots, n) else 0
  {
    TimesAlongIsCount(slots, n, k);
    ChainCollectsInOrder(slots, n);
    OncePerCycle(CollectedAlong(slots, n), slots[|slots| - 1], n, UnitOf(k, n));
  }
}
