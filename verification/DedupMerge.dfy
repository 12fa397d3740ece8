/**
  The k-way merge of `AccountsHasher`: one bin's latest item per pubkey, in pubkey order, from slot
  groups each sorted by pubkey.
 */
module DedupMerge {
  import opened Wrappers
  import opened Pubkeys
  import opened Arithmetic
  import opened OrderedWrites
  import opened Sequences
  import opened SlotGroups

  // ---------------------------------------------------------------- finding a bin in a group

  /** `r` is the first index of `items` in bin `b`, if there is one. */
  ghost predicate FirstInBin(items: seq<Item>, bin: Pubkey -> nat, b: nat, r: Option<nat>) {
    match r
    case None => forall i :: 0 <= i < |items| ==> bin(items[i].key) != b
    case Some(n) => n < |items| && bin(items[n].key) == b && forall i :: 0 <= i < n ==> bin(items[i].key) < b
  }

  /** `slice::binary_search_by` with a comparison that never finds an equal element. */
  method FirstNotBelow(items: seq<Item>, bin: Pubkey -> nat, bins: nat, b: nat) returns (n: nat)
    requires Sorted(items) && Monotone(bin, bins) && b > 0
    ensures n <= |items|
    ensures forall i :: 0 <= i < n ==> bin(items[i].key) < b
    ensures forall i :: n <= i < |items| ==> b <= bin(items[i].key)
  {
    var justPriorToDesiredBin := b * 2;
    n := 0;
    var hi := |items|;
    while n < hi
      invariant 0 <= n <= hi <= |items|
      invariant forall i :: 0 <= i < n ==> bin(items[i].key) < b
      invariant forall i :: hi <= i < |items| ==> b <= bin(items[i].key)
    {
      var mid := n + (hi - n) / 2;
      if 1 + 2 * bin(items[mid].key) < justPriorToDesiredBin { n := mid + 1; } else { hi := mid; }
    }
  }

  method BinarySearchForFirstPubkeyInBin(items: seq<Item>, b: nat, bins: nat, bin: Pubkey -> nat) returns (r: Option<nat>)
    requires Sorted(items) && Monotone(bin, bins)
    ensures FirstInBin(items, bin, b, r)
  {
    var potential := 0;
    if b != 0 { potential := FirstNotBelow(items, bin, bins, b); }
    if potential < |items| && bin(items[potential].key) == b {
      r := Some(potential);
    } else {
      r := None;
      if potential < |items| {
        forall i | potential <= i < |items| ensures b < bin(items[i].key) { assert items[potential].key <= items[i].key; }
      }
    }
  }

  method FindFirstPubkeyInBin(items: seq<Item>, b: nat, bins: nat, bin: Pubkey -> nat) returns (r: Option<nat>)
    requires Sorted(items) && Monotone(bin, bins) && b < bins
    ensures FirstInBin(items, bin, b, r)
  {
    if |items| == 0 { return None; }
    var i := Interpolated(|items|, b, bins);
    var start, end := 0, i + 1;
    if bin(items[i].key) < b { start, end := i + 1, |items|; }
    var found := BinarySearchForFirstPubkeyInBin(items[start..end], b, bins, bin);
    r := if found.Some? then Some(start + found.value) else None;
    FirstInPart(items, bin, bins, b, i, start, end, found);
  }

  /** The first guess at the index: as far into the items as the bin is into the bins. */
  function Interpolated(len: nat, b: nat, bins: nat): (i: nat)
    requires 0 < len && b < bins
    ensures i < len
  {
    assert len * b < len * bins;
    DivBelow(len * b, bins, len);
    len * b / bins
  }

  /** What is found in the part on the right side of the guess is found in the whole. */
  lemma FirstInPart(items: seq<Item>, bin: Pubkey -> nat, bins: nat, b: nat, i: nat, start: nat, end: nat, found: Option<nat>)
    requires Sorted(items) && Monotone(bin, bins) && i < |items|
    requires if bin(items[i].key) < b then start == i + 1 && end == |items| else start == 0 && end == i + 1
    requires FirstInBin(items[start..end], bin, b, found)
    ensures FirstInBin(items, bin, b, if found.Some? then Some(start + found.value) else None)
  {
    forall j | 0 <= j < start ensures bin(items[j].key) < b { assert items[j].key <= items[i].key; }
    forall j | end <= j < |items| && found.None? ensures b < bin(items[j].key) {
      assert items[start..end][i - start] == items[i];
      assert items[i].key <= items[j].key;
    }
    forall j | start <= j < end ensures items[j] == items[start..end][j - start] {}
    if found.Some? {
      forall j | start <= j < start + found.value ensures bin(items[j].key) < b { assert items[j] == items[start..end][j - start]; }
    }
  }

  // ---------------------------------------------------------------- stepping through a group

  method GetItem(groups: Groups, b: nat, bins: nat, bin: Pubkey -> nat, p: Pointer) returns (item: Item, next: Option<Pointer>)
    requires AllSorted(groups) && Monotone(bin, bins) && InBin(groups, bin, b, p)
    ensures item.key == KeyAt(groups, p) && LastWrite(groups[p.group], item.key) == Some(item)
    ensures NextOf(groups, bin, b, p, next)
  {
    var items := groups[p.group];
    var key := KeyAt(groups, p);
    var index := p.offset + 1;
    next := None;
    while index < |items|
      invariant p.offset < index <= |items| && next.None?
      invariant forall i :: p.offset <= i < index ==> items[i].key == key
    {
      var nextKey := items[index].key;
      if nextKey == key {
        index := index + 1;
        continue;
      }
      assert key < nextKey;
      if bin(nextKey) > b { break; }
      next := Some(Pointer(p.group, index));
      break;
    }
    item := items[index - 1];
    forall i | index <= i < |items| ensures key < items[i].key && bin(items[index].key) <= bin(items[i].key) {
      assert items[index].key <= items[i].key;
    }
    LastWriteAt(items, index - 1);
  }

  // ---------------------------------------------------------------- the working set

  /** `working_set.binary_search_by`: where `key` is, or where it belongs, in descending order. */
  method Search(groups: Groups, ghost bin: Pubkey -> nat, ghost b: nat, ws: seq<Pointer>, key: Pubkey)
    returns (found: bool, index: nat)
    requires Working(groups, bin, b, ws)
    ensures found ==> index < |ws| && KeyAt(groups, ws[index]) == key
    ensures !found ==> index <= |ws|
    ensures !found ==> forall i :: 0 <= i < index ==> key < KeyAt(groups, ws[i])
    ensures !found ==> forall i :: index <= i < |ws| ==> KeyAt(groups, ws[i]) < key
  {
    index := 0;
    var hi := |ws|;
    while index < hi
      invariant 0 <= index <= hi <= |ws|
      invariant forall i :: 0 <= i < index ==> key < KeyAt(groups, ws[i])
      invariant forall i :: hi <= i < |ws| ==> KeyAt(groups, ws[i]) < key
    {
      var mid := index + (hi - index) / 2;
      var probe := KeyAt(groups, ws[mid]);
      if key == probe { return true, mid; }
      if key < probe { index := mid + 1; } else { hi := mid; }
    }
    found := false;
  }

  ghost predicate FromGroup(ws: seq<Pointer>, from: nat) {
    forall i :: 0 <= i < |ws| ==> from <= ws[i].group
  }

  ghost predicate NotIn(ws: seq<Pointer>, group: nat) {
    forall i :: 0 <= i < |ws| ==> ws[i].group != group
  }

  function Inserted(ws: seq<Pointer>, index: nat, p: Pointer): seq<Pointer>
    requires index <= |ws|
  {
    ws[..index] + [p] + ws[index..]
  }

  lemma InsertedAt(ws: seq<Pointer>, index: nat, p: Pointer, i: nat)
    requires index <= |ws| && i <= |ws|
    ensures Inserted(ws, index, p)[i] == if i < index then ws[i] else if i == index then p else ws[i - 1]
  {
  }

  lemma Insert(groups: Groups, bin: Pubkey -> nat, b: nat, ws: seq<Pointer>, index: nat, p: Pointer)
    requires Working(groups, bin, b, ws) && InBin(groups, bin, b, p) && NotIn(ws, p.group) && index <= |ws|
    requires forall i :: 0 <= i < index ==> KeyAt(groups, p) < KeyAt(groups, ws[i])
    requires forall i :: index <= i < |ws| ==> KeyAt(groups, ws[i]) < KeyAt(groups, p)
    ensures Working(groups, bin, b, Inserted(ws, index, p))
    ensures Elements(Inserted(ws, index, p)) == Elements(ws) + {p}
  {
    var ins := Inserted(ws, index, p);
    forall i | 0 <= i < |ins| ensures InBin(groups, bin, b, ins[i]) { InsertedAt(ws, index, p, i); }
    forall i, j | 0 <= i < j < |ins|
      ensures KeyAt(groups, ins[j]) < KeyAt(groups, ins[i]) && ins[i].group != ins[j].group
    {
      InsertedAt(ws, index, p, i);
      InsertedAt(ws, index, p, j);
    }
    assert ws == ws[..index] + ws[index..];
  }

  lemma Replace(groups: Groups, bin: Pubkey -> nat, b: nat, ws: seq<Pointer>, index: nat, p: Pointer)
    requires Working(groups, bin, b, ws) && InBin(groups, bin, b, p) && NotIn(ws, p.group) && index < |ws|
    requires KeyAt(groups, ws[index]) == KeyAt(groups, p)
    ensures Working(groups, bin, b, ws[index := p]) && NotIn(ws[index := p], ws[index].group)
    ensures Elements(ws[index := p]) == Elements(ws) - {ws[index]} + {p}
  {
    var ws' := ws[index := p];
    forall i | 0 <= i < |ws| && i != index ensures ws[i] != ws[index] && ws'[i] == ws[i] {}
    forall q | q in Elements(ws) - {ws[index]} + {p} ensures q in Elements(ws') {
      if q == p { assert ws'[index] == p; } else { var i :| 0 <= i < |ws| && ws[i] == q; assert ws'[i] == q; }
    }
  }

  /** What `add_next_item` is given and gives back: everything is covered by `ws` and `next`. */
  ghost predicate Merging(groups: Groups, bin: Pubkey -> nat, b: nat, ws: seq<Pointer>, next: Option<Pointer>, floor: nat, from: nat) {
    && Working(groups, bin, b, ws) && AtOrAbove(groups, floor, ws) && FromGroup(ws, from)
    && Coverage(groups, bin, b, Elements(ws) + Pending(next), floor, from)
    && (next.Some? ==>
          && InBin(groups, bin, b, next.value) && floor <= KeyAt(groups, next.value)
          && from <= next.value.group && NotIn(ws, next.value.group))
  }

  /** The pending key is new: its pointer joins the working set. */
  lemma MergeInsert(groups: Groups, bin: Pubkey -> nat, b: nat, ws: seq<Pointer>, p: Pointer, index: nat, floor: nat, from: nat)
    requires Merging(groups, bin, b, ws, Some(p), floor, from) && index <= |ws|
    requires forall i :: 0 <= i < index ==> KeyAt(groups, p) < KeyAt(groups, ws[i])
    requires forall i :: index <= i < |ws| ==> KeyAt(groups, ws[i]) < KeyAt(groups, p)
    ensures Merging(groups, bin, b, Inserted(ws, index, p), None, floor, from)
  {
    Insert(groups, bin, b, ws, index, p);
    assert Elements(ws) + Pending(Some(p)) == Elements(Inserted(ws, index, p)) + Pending(None);
  }

  /** A later group already has the pending key: the pending group moves on. */
  lemma MergeSkip(groups: Groups, bin: Pubkey -> nat, b: nat, ws: seq<Pointer>, p: Pointer, index: nat, after: Option<Pointer>,
                  floor: nat, from: nat)
    requires Merging(groups, bin, b, ws, Some(p), floor, from) && index < |ws|
    requires KeyAt(groups, ws[index]) == KeyAt(groups, p) && ws[index].group > p.group && NextOf(groups, bin, b, p, after)
    ensures Merging(groups, bin, b, ws, after, floor, from)
  {
    var pool := Elements(ws) + {p};
    assert ws[index] in pool - {p};
    Advance(groups, bin, b, pool, p, after, floor, floor, from);
    assert pool - {p} == Elements(ws);
  }

  /** An earlier group has the pending key: it is replaced, and it is the one to move on. */
  lemma MergeReplace(groups: Groups, bin: Pubkey -> nat, b: nat, ws: seq<Pointer>, p: Pointer, index: nat, after: Option<Pointer>,
                     floor: nat, from: nat)
    requires Merging(groups, bin, b, ws, Some(p), floor, from) && index < |ws|
    requires KeyAt(groups, ws[index]) == KeyAt(groups, p) && ws[index].group < p.group && NextOf(groups, bin, b, ws[index], after)
    ensures Merging(groups, bin, b, ws[index := p], after, floor, from)
  {
    var pool := Elements(ws) + {p};
    assert p in pool - {ws[index]};
    Advance(groups, bin, b, pool, ws[index], after, floor, floor, from);
    Replace(groups, bin, b, ws, index, p);
    assert pool - {ws[index]} == Elements(ws[index := p]);
  }

  method AddNextItem(groups: Groups, b: nat, bins: nat, bin: Pubkey -> nat, ws0: seq<Pointer>, next0: Option<Pointer>,
                     ghost floor: nat, ghost from: nat)
    returns (ws: seq<Pointer>)
    requires AllSorted(groups) && Monotone(bin, bins) && Merging(groups, bin, b, ws0, next0, floor, from)
    ensures Merging(groups, bin, b, ws, None, floor, from)
  {
    ws := ws0;
    var next := next0;
    while next.Some?
      invariant Merging(groups, bin, b, ws, next, floor, from)
      decreases if next.Some? then SPACE - KeyAt(groups, next.value) else 0
    {
      var p := next.value;
      var key := KeyAt(groups, p);
      if ws != [] && key < KeyAt(groups, ws[|ws| - 1]) {
        MergeInsert(groups, bin, b, ws, p, |ws|, floor, from);
        assert Inserted(ws, |ws|, p) == ws + [p];
        ws, next := ws + [p], None;
        break;
      }
      var found, index := Search(groups, bin, b, ws, key);
      if !found {
        MergeInsert(groups, bin, b, ws, p, index, floor, from);
        ws, next := ws[..index] + [p] + ws[index..], None;
        break;
      }
      if ws[index].group > p.group {
        var _, after := GetItem(groups, b, bins, bin, p);
        MergeSkip(groups, bin, b, ws, p, index, after, floor, from);
        next := after;
      } else {
        var _, after := GetItem(groups, b, bins, bin, ws[index]);
        MergeReplace(groups, bin, b, ws, p, index, after, floor, from);
        ws, next := ws[index := p], after;
      }
    }
  }

  // ---------------------------------------------------------------- one bin

  method InitializeDedupWorkingSet(groups: Groups, b: nat, bins: nat, bin: Pubkey -> nat)
    returns (ws: seq<Pointer>)
    requires AllSorted(groups) && Monotone(bin, bins) && b < bins
    ensures Merging(groups, bin, b, ws, None, 0, 0)
  {
    ws := [];
    var i := |groups|;
    while i > 0
      invariant 0 <= i <= |groups|
      invariant Merging(groups, bin, b, ws, None, 0, i)
    {
      i := i - 1;
      var first := FindFirstPubkeyInBin(groups[i], b, bins, bin);
      if first.Some? {
        var next := Some(Pointer(i, first.value));
        StartGroup(groups, bin, b, bins, ws, i, first);
        ws := AddNextItem(groups, b, bins, bin, ws, next, 0, i);
      } else {
        StartGroup(groups, bin, b, bins, ws, i, first);
      }
    }
  }

  /** Group `i` joins with the first of its items in the bin. */
  lemma StartGroup(groups: Groups, bin: Pubkey -> nat, b: nat, bins: nat, ws: seq<Pointer>, i: nat, first: Option<nat>)
    requires AllSorted(groups) && Monotone(bin, bins) && i < |groups|
    requires Merging(groups, bin, b, ws, None, 0, i + 1) && FirstInBin(groups[i], bin, b, first)
    ensures Merging(groups, bin, b, ws, if first.Some? then Some(Pointer(i, first.value)) else None, 0, i)
  {
    var next := if first.Some? then Some(Pointer(i, first.value)) else None;
    var pool := Elements(ws) + Pending(next);
    forall g: nat, n: nat | i <= g && Unvisited(groups, bin, b, 0, g, n)
      ensures exists p :: p in pool && Covers(groups, p, g, n)
    {
      if g == i {
        assert next.value in pool && Covers(groups, next.value, g, n);
      } else {
        var p :| p in Elements(ws) + Pending(None) && Covers(groups, p, g, n);
        assert p in pool;
      }
    }
  }

  datatype ZeroLamportAccounts = Excluded | Included

  /** How zero-lamport accounts are treated, and the hash of a pubkey they are given. */
  datatype Hashing = Hashing(zeroLamports: ZeroLamportAccounts, hashOfKey: Pubkey -> Hash)

  /** The hashes one visited item contributes: its own, or its pubkey's, or none. */
  function ItemHash(how: Hashing, item: Item): seq<Hash> {
    if item.value.lamports != 0 then [item.value.hash]
    else if how.zeroLamports == Included then [how.hashOfKey(item.key)]
    else []
  }

  function Hashes(how: Hashing, items: seq<Item>): seq<Hash> {
    if |items| == 0 then [] else Hashes(how, items[..|items| - 1]) + ItemHash(how, items[|items| - 1])
  }

  function Lamports(items: seq<Item>): nat {
    if |items| == 0 then 0 else Lamports(items[..|items| - 1]) + items[|items| - 1].value.lamports
  }

  /** `checked_add` then `expect`; a panic already raised stays raised. */
  function CheckedAdd(a: Outcome<U64>, b: U64): Outcome<U64> {
    if a.Panic? || a.value + b > U64_MAX then Panic else Done(a.value + b)
  }

  /** A sum of balances that panics exactly when it does not fit. */
  function Capitalization(sum: nat): Outcome<U64> {
    if sum > U64_MAX then Panic else Done(sum)
  }

  lemma SummaryAppend(how: Hashing, items: seq<Item>, item: Item)
    ensures Hashes(how, items + [item]) == Hashes(how, items) + ItemHash(how, item)
    ensures Lamports(items + [item]) == Lamports(items) + item.value.lamports
  {
    assert (items + [item])[..|items|] == items;
  }

  /** How many of the first `n` items have lamports. */
  function FundedBefore(items: seq<Item>, n: nat): nat
    requires n <= |items|
  {
    if n == 0 then 0 else FundedBefore(items, n - 1) + if items[n - 1].value.lamports > 0 then 1 else 0
  }

  /** Item `i`, if it has lamports, has its hash in its place among those that do. */
  ghost predicate InPlace(items: seq<Item>, hashes: seq<Hash>, i: nat)
    requires i < |items|
  {
    items[i].value.lamports > 0 ==>
      FundedBefore(items, i) < |hashes| && hashes[FundedBefore(items, i)] == items[i].value.hash
  }

  /** The hash of every item: its own, or if it has no lamports its pubkey's. */
  ghost predicate OneEach(hashOfKey: Pubkey -> Hash, items: seq<Item>, hashes: seq<Hash>) {
    && |hashes| == |items|
    && forall i :: 0 <= i < |items| ==> hashes[i] == if items[i].value.lamports > 0 then items[i].value.hash else hashOfKey(items[i].key)
  }

  /** The hashes of the items with lamports, in order, and no others. */
  ghost predicate FundedOnly(items: seq<Item>, hashes: seq<Hash>) {
    |hashes| == FundedBefore(items, |items|) && forall i :: 0 <= i < |items| ==> InPlace(items, hashes, i)
  }

  /**
    The hashes of the items: with zero-lamport accounts included, one for every item; with them excluded,
    those of exactly the items with lamports, in their order.
   */
  ghost predicate HashesOf(how: Hashing, items: seq<Item>, hashes: seq<Hash>) {
    match how.zeroLamports
    case Included => OneEach(how.hashOfKey, items, hashes)
    case Excluded => FundedOnly(items, hashes)
  }

  lemma {:induction false} HashesIncluded(how: Hashing, items: seq<Item>)
    requires how.zeroLamports == Included
    ensures OneEach(how.hashOfKey, items, Hashes(how, items))
  {
    if |items| > 0 { HashesIncluded(how, items[..|items| - 1]); }
  }

  lemma {:induction false} HashesUpTo(how: Hashing, items: seq<Item>, n: nat)
    requires how.zeroLamports == Excluded && n <= |items|
    ensures |Hashes(how, items[..n])| == FundedBefore(items, n)
  {
    if n > 0 {
      HashesUpTo(how, items, n - 1);
      assert items[..n][..n - 1] == items[..n - 1];
    }
  }

  lemma {:induction false} HashInPlace(how: Hashing, items: seq<Item>, i: nat, n: nat)
    requires how.zeroLamports == Excluded && i < n <= |items|
    ensures InPlace(items, Hashes(how, items[..n]), i)
    decreases n
  {
    HashesUpTo(how, items, n - 1);
    assert items[..n][..n - 1] == items[..n - 1];
    if i < n - 1 { HashInPlace(how, items, i, n - 1); }
  }

  lemma HashesExcluded(how: Hashing, items: seq<Item>)
    requires how.zeroLamports == Excluded
    ensures FundedOnly(items, Hashes(how, items))
  {
    assert items[..|items|] == items;
    HashesUpTo(how, items, |items|);
    forall i | 0 <= i < |items| ensures InPlace(items, Hashes(how, items), i) { HashInPlace(how, items, i, |items|); }
  }

  lemma HashesAreRight(how: Hashing, items: seq<Item>)
    ensures HashesOf(how, items, Hashes(how, items))
  {
    if how.zeroLamports == Included { HashesIncluded(how, items); } else { HashesExcluded(how, items); }
  }

  lemma TakeSmallest(groups: Groups, bin: Pubkey -> nat, b: nat, ws: seq<Pointer>, next: Option<Pointer>, floor: nat,
                     visited: seq<Item>, item: Item)
    requires AllSorted(groups) && ws != [] && Merging(groups, bin, b, ws, None, floor, 0) && Visited(groups, bin, b, floor, visited)
    requires var p := ws[|ws| - 1];
             NextOf(groups, bin, b, p, next) && item.key == KeyAt(groups, p) && LastWrite(groups[p.group], item.key) == Some(item)
    ensures floor <= item.key && Visited(groups, bin, b, item.key + 1, visited + [item])
    ensures Merging(groups, bin, b, ws[..|ws| - 1], next, item.key + 1, 0)
  {
    assert Elements(ws) + Pending(None) == Elements(ws);
    VisitSmallest(groups, bin, b, ws, floor, visited, item);
    PopSmallest(groups, bin, b, ws, next, floor);
  }

  /** Write the hash of the item visited, if it has one, and add its lamports. */
  method Tally(how: Hashing, hashes: seq<Hash>, sum: Outcome<U64>, item: Item, ghost visited: seq<Item>)
    returns (hashes': seq<Hash>, sum': Outcome<U64>)
    requires hashes == Hashes(how, visited) && sum == Capitalization(Lamports(visited))
    ensures hashes' == Hashes(how, visited + [item]) && sum' == Capitalization(Lamports(visited + [item]))
  {
    hashes', sum' := hashes, sum;
    SummaryAppend(how, visited, item);
    if item.value.lamports != 0 {
      sum' := CheckedAdd(sum, item.value.lamports);
      hashes' := hashes + [item.value.hash];
    } else if how.zeroLamports == Included {
      hashes' := hashes + [how.hashOfKey(item.key)];
    }
  }

  /** Pop the smallest key, take its item, and let its group's next key in. */
  method VisitNext(groups: Groups, b: nat, bins: nat, bin: Pubkey -> nat, ws0: seq<Pointer>, ghost floor: nat, ghost visited: seq<Item>)
    returns (item: Item, ws: seq<Pointer>)
    requires AllSorted(groups) && Monotone(bin, bins) && ws0 != []
    requires Merging(groups, bin, b, ws0, None, floor, 0) && Visited(groups, bin, b, floor, visited)
    ensures floor <= item.key && Visited(groups, bin, b, item.key + 1, visited + [item])
    ensures Merging(groups, bin, b, ws, None, item.key + 1, 0)
  {
    var p := ws0[|ws0| - 1];
    var next;
    item, next := GetItem(groups, b, bins, bin, p);
    TakeSmallest(groups, bin, b, ws0, next, floor, visited, item);
    ws := AddNextItem(groups, b, bins, bin, ws0[..|ws0| - 1], next, item.key + 1, 0);
  }

  /**
    One bin. The items visited are, in order, the last write of every key of the bin: that part of
    the table. Its hashes and balances are what is written and summed. A panic does not stop the loop here: it is
    remembered in `sum`, which decides the outcome.
   */
  method DeDupAccountsInParallel(how: Hashing, groups: Groups, b: nat, bins: nat, bin: Pubkey -> nat)
    returns (hashes: seq<Hash>, sum: Outcome<U64>)
    requires AllSorted(groups) && Monotone(bin, bins) && b < bins
    ensures var table := Restricted(Table(Flatten(groups)), bin, b, b + 1);
            hashes == Hashes(how, table) && sum == Capitalization(Lamports(table))
  {
    var ws := InitializeDedupWorkingSet(groups, b, bins, bin);
    hashes, sum := [], Done(0);
    ghost var floor, visited := 0, [];
    while ws != []
      invariant floor <= SPACE
      invariant Merging(groups, bin, b, ws, None, floor, 0)
      invariant Visited(groups, bin, b, floor, visited)
      invariant hashes == Hashes(how, visited) && sum == Capitalization(Lamports(visited))
      decreases SPACE - floor
    {
      var item;
      item, ws := VisitNext(groups, b, bins, bin, ws, floor, visited);
      hashes, sum := Tally(how, hashes, sum, item, visited);
      floor, visited := item.key + 1, visited + [item];
    }
    BinDone(groups, bin, b, floor, visited);
  }

  lemma BinDone(groups: Groups, bin: Pubkey -> nat, b: nat, floor: nat, visited: seq<Item>)
    requires AllSorted(groups) && Merging(groups, bin, b, [], None, floor, 0) && Visited(groups, bin, b, floor, visited)
    ensures visited == Restricted(Table(Flatten(groups)), bin, b, b + 1)
  {
    assert Elements([]) + Pending(None) == {};
    AllVisited(groups, bin, b, floor, visited);
    TableOfBins(Flatten(groups), bin, b, b + 1, visited);
  }

  lemma WithoutLast(groups: Groups, bin: Pubkey -> nat, b: nat, ws: seq<Pointer>)
    requires ws != [] && Working(groups, bin, b, ws)
    ensures var p, front := ws[|ws| - 1], ws[..|ws| - 1];
            && Working(groups, bin, b, front) && AtOrAbove(groups, KeyAt(groups, p) + 1, front)
            && NotIn(front, p.group) && Elements(front) == Elements(ws) - {p}
  {
    var p, front := ws[|ws| - 1], ws[..|ws| - 1];
    forall i | 0 <= i < |front| ensures front[i] == ws[i] && front[i] != p {}
    assert ws == front + [p];
  }

  lemma PopSmallest(groups: Groups, bin: Pubkey -> nat, b: nat, ws: seq<Pointer>, next: Option<Pointer>, floor: nat)
    requires ws != [] && Merging(groups, bin, b, ws, None, floor, 0)
    requires NextOf(groups, bin, b, ws[|ws| - 1], next)
    ensures Merging(groups, bin, b, ws[..|ws| - 1], next, KeyAt(groups, ws[|ws| - 1]) + 1, 0)
  {
    var p := ws[|ws| - 1];
    assert Elements(ws) + Pending(None) == Elements(ws);
    Advance(groups, bin, b, Elements(ws), p, next, floor, KeyAt(groups, p) + 1, 0);
    WithoutLast(groups, bin, b, ws);
  }
}
