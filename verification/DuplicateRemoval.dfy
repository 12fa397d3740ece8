/**
  Removing older duplicates from a batch of index updates (`remove_older_duplicate_pubkeys` in
  `accounts-db/src/accounts_index.rs`): a stable sort by key, then a backwards compaction in place.
 */
module DuplicateRemoval {
  import opened Wrappers
  import opened Pubkeys
  import opened OrderedWrites

  ghost predicate SortedByKey<V>(s: seq<Write<V>>) {
    forall i, j :: 0 <= i < j < |s| ==> s[i].key <= s[j].key
  }

  // ---------------------------------------------------------------- the stable sort

  /** Put `w` after every item whose key is not larger. */
  function InsertStable<V>(s: seq<Write<V>>, w: Write<V>): (r: seq<Write<V>>)
    ensures |r| == |s| + 1
  {
    if |s| == 0 || s[|s| - 1].key <= w.key then s + [w]
    else InsertStable(s[..|s| - 1], w) + [s[|s| - 1]]
  }

  function StableSort<V>(s: seq<Write<V>>): (r: seq<Write<V>>)
    ensures |r| == |s|
  {
    if |s| == 0 then [] else InsertStable(StableSort(s[..|s| - 1]), s[|s| - 1])
  }

  lemma {:induction false} InsertStableItems<V>(s: seq<Write<V>>, w: Write<V>)
    ensures multiset(InsertStable(s, w)) == multiset(s) + multiset{w}
  {
    if |s| > 0 && s[|s| - 1].key > w.key {
      InsertStableItems(s[..|s| - 1], w);
      ItemsSnoc(s);
    }
  }

  lemma {:induction false} InsertStableSorted<V>(s: seq<Write<V>>, w: Write<V>)
    requires SortedByKey(s)
    ensures SortedByKey(InsertStable(s, w))
    ensures InsertStable(s, w)[|s|].key == if s != [] && s[|s| - 1].key > w.key then s[|s| - 1].key else w.key
  {
    if |s| > 0 && s[|s| - 1].key > w.key {
      InsertStableSorted(s[..|s| - 1], w);
      var inserted := InsertStable(s[..|s| - 1], w);
      assert inserted[|inserted| - 1].key <= s[|s| - 1].key;
    }
  }

  lemma {:induction false} InsertStableLookup<V>(s: seq<Write<V>>, w: Write<V>, k: Pubkey)
    ensures LastWrite(InsertStable(s, w), k) == if k == w.key then Some(w) else LastWrite(s, k)
  {
    if |s| == 0 || s[|s| - 1].key <= w.key {
      assert (s + [w])[..|s|] == s;
    } else {
      InsertStableLookup(s[..|s| - 1], w, k);
      var inserted := InsertStable(s[..|s| - 1], w);
      assert (inserted + [s[|s| - 1]])[..|inserted|] == inserted;
    }
  }

  lemma {:induction false} StableSortSorts<V>(s: seq<Write<V>>)
    ensures SortedByKey(StableSort(s))
  {
    if |s| > 0 {
      StableSortSorts(s[..|s| - 1]);
      InsertStableSorted(StableSort(s[..|s| - 1]), s[|s| - 1]);
    }
  }

  lemma ItemsSnoc<V>(s: seq<Write<V>>)
    requires |s| > 0
    ensures multiset(s) == multiset(s[..|s| - 1]) + multiset{s[|s| - 1]}
  {
    assert s == s[..|s| - 1] + [s[|s| - 1]];
  }

  lemma {:induction false} StableSortItems<V>(s: seq<Write<V>>)
    ensures multiset(StableSort(s)) == multiset(s)
  {
    if |s| > 0 {
      var front, last := s[..|s| - 1], s[|s| - 1];
      StableSortItems(front);
      InsertStableItems(StableSort(front), last);
      ItemsSnoc(s);
    }
  }

  /** Because it is stable, the last write of each key stays the last. */
  lemma {:induction false} StableSortKeepsLast<V>(s: seq<Write<V>>, k: Pubkey)
    ensures LastWrite(StableSort(s), k) == LastWrite(s, k)
  {
    if |s| > 0 {
      StableSortKeepsLast(s[..|s| - 1], k);
      InsertStableLookup(StableSort(s[..|s| - 1]), s[|s| - 1], k);
    }
  }

  // ---------------------------------------------------------------- the compaction

  /** `kept` is what remains of the sorted items `s`, and `dups` is what was taken out. */
  ghost predicate Compacts<V>(s: seq<Write<V>>, kept: seq<Write<V>>, dups: seq<Write<V>>) {
    && Ascending(kept)
    && multiset(kept) + multiset(dups) == multiset(s)
    && (forall k: Pubkey :: LastWrite(kept, k) == LastWrite(s, k))
    && (s != [] ==> kept != [] && kept[0].key == s[0].key)
  }

  /** One more item at the front of the sorted items: dropped if its key is already kept. */
  lemma CompactOneMore<V>(w: Write<V>, s: seq<Write<V>>, kept: seq<Write<V>>, dups: seq<Write<V>>)
    requires s != [] && SortedByKey([w] + s) && Compacts(s, kept, dups)
    ensures kept[0].key == w.key ==> Compacts([w] + s, kept, dups + [w])
    ensures kept[0].key != w.key ==> Compacts([w] + s, [w] + kept, dups)
  {
    assert ([w] + s)[0] == w && ([w] + s)[1] == s[0];
    forall k: Pubkey
      ensures kept[0].key == w.key ==> LastWrite(kept, k) == LastWrite([w] + s, k)
      ensures kept[0].key != w.key ==> LastWrite([w] + kept, k) == LastWrite([w] + s, k)
    {
      LastWriteConcat([w], s, k);
      LastWriteConcat([w], kept, k);
      assert LastWrite([w], k) == if k == w.key then Some(w) else LastWrite([], k);
      LastWriteNone(kept, k);
    }
  }

  /** From position `i` on, the last item of every run of equal keys. */
  function Kept<V>(s: seq<Write<V>>, i: nat): seq<Write<V>>
    requires i < |s|
    decreases |s| - i
  {
    if i + 1 == |s| then [s[i]]
    else if s[i].key == s[i + 1].key then Kept(s, i + 1)
    else [s[i]] + Kept(s, i + 1)
  }

  /** The other items, from the back. */
  function Dropped<V>(s: seq<Write<V>>, i: nat): seq<Write<V>>
    requires i < |s|
    decreases |s| - i
  {
    if i + 1 == |s| then []
    else if s[i].key == s[i + 1].key then Dropped(s, i + 1) + [s[i]]
    else Dropped(s, i + 1)
  }

  lemma {:induction false} KeptCompacts<V>(s: seq<Write<V>>, i: nat)
    requires SortedByKey(s) && i < |s|
    ensures Compacts(s[i..], Kept(s, i), Dropped(s, i))
    decreases |s| - i
  {
    if i + 1 < |s| {
      KeptCompacts(s, i + 1);
      assert s[i..] == [s[i]] + s[i + 1..];
      CompactOneMore(s[i], s[i + 1..], Kept(s, i + 1), Dropped(s, i + 1));
    } else {
      assert s[i..] == [s[i]];
    }
  }

  function Listed<T>(found: Option<seq<T>>): seq<T> { if found.Some? then found.value else [] }

  /** The backwards pass; what it keeps ends up at the back of the array. */
  method Compact<V>(items: array<Write<V>>) returns (write: nat, duplicates: Option<seq<Write<V>>>)
    requires items.Length > 0
    modifies items
    ensures write < items.Length && items[write..] == Kept(old(items[..]), 0)
    ensures Listed(duplicates) == Dropped(old(items[..]), 0) && (duplicates.Some? <==> write > 0)
  {
    ghost var s := items[..];
    var curr: nat := items.Length - 1;
    write, duplicates := curr, None;
    var lastKey := items[curr].key;
    assert items[curr..] == [s[curr]];
    while curr > 0
      invariant curr <= write < items.Length && lastKey == s[curr].key && items[..curr] == s[..curr]
      invariant items[write..] == Kept(s, curr) && Listed(duplicates) == Dropped(s, curr)
      invariant duplicates.Some? <==> curr < write
    {
      var item := items[curr - 1];
      assert item == items[..curr][curr - 1];
      curr := curr - 1;
      if item.key == lastKey {
        duplicates := Some(Listed(duplicates) + [item]);
      } else {
        if curr + 1 < write { items[write - 1] := item; }
        assert items[write - 1..] == [item] + items[write..];
        write, lastKey := write - 1, item.key;
      }
    }
  }

  /** What the pass keeps of the sorted batch is the table of the batch. */
  lemma CompactedIsTable<V>(given: seq<Write<V>>)
    requires given != []
    ensures Kept(StableSort(given), 0) == Table(given)
    ensures multiset(Table(given)) + multiset(Dropped(StableSort(given), 0)) == multiset(given)
  {
    var sorted := StableSort(given);
    StableSortSorts(given);
    StableSortItems(given);
    KeptCompacts(sorted, 0);
    assert sorted[0..] == sorted;
    TableCorrect(given);
    forall k: Pubkey ensures LastWrite(Kept(sorted, 0), k) == LastWrite(Table(given), k) {
      StableSortKeepsLast(given, k);
    }
    TableUnique(Kept(sorted, 0), Table(given));
  }

  /**
    What is kept is the table the batch leaves: each key once, in order, with its last update. The
    duplicates are all the rest, and `None` is returned exactly when nothing was removed.
   */
  method RemoveOlderDuplicatePubkeys<V>(items: array<Write<V>>)
    returns (kept: seq<Write<V>>, duplicates: Option<seq<Write<V>>>)
    modifies items
    ensures kept == Table(old(items[..]))
    ensures multiset(kept) + multiset(Listed(duplicates)) == multiset(old(items[..]))
    ensures duplicates.None? <==> |kept| == items.Length
  {
    if items.Length < 2 {
      assert items.Length == 1 ==> items[..][..0] == [] && items[..] == [items[0]];
      return items[..], None;
    }
    ghost var given := items[..];
    var sorted := StableSort(items[..]);
    forall i | 0 <= i < items.Length { items[i] := sorted[i]; }
    assert items[..] == sorted;
    var write;
    write, duplicates := Compact(items);
    kept := items[write..];
    CompactedIsTable(given);
  }
}
