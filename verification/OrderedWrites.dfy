/**
  A log of keyed writes and the table it leaves: the last write of each key, in key order. This is
  the reference the accounts-hash merge and the index's duplicate removal are proved against.
 */
module OrderedWrites {
  import opened Wrappers
  import opened Pubkeys

  datatype Write<+V> = Write(key: Pubkey, value: V)

  ghost predicate Ascending<V>(s: seq<Write<V>>) {
    forall i, j :: 0 <= i < j < |s| ==> s[i].key < s[j].key
  }

  function LastWrite<V>(s: seq<Write<V>>, k: Pubkey): (r: Option<Write<V>>)
    ensures r.Some? ==> r.value in s && r.value.key == k
  {
    if |s| == 0 then None
    else if s[|s| - 1].key == k then Some(s[|s| - 1])
    else LastWrite(s[..|s| - 1], k)
  }

  /** Store `w` in a table kept in key order. */
  function Upsert<V>(table: seq<Write<V>>, w: Write<V>): seq<Write<V>> {
    if |table| == 0 || table[|table| - 1].key < w.key then table + [w]
    else if table[|table| - 1].key == w.key then table[..|table| - 1] + [w]
    else Upsert(table[..|table| - 1], w) + [table[|table| - 1]]
  }

  /** The table after all the writes, applied in order. */
  function Table<V>(writes: seq<Write<V>>): seq<Write<V>> {
    if |writes| == 0 then [] else Upsert(Table(writes[..|writes| - 1]), writes[|writes| - 1])
  }

  /** `t` is in key order and holds exactly the last writes of the keys whose bin is in `lo..hi`. */
  ghost predicate TableOf<V>(writes: seq<Write<V>>, bin: Pubkey -> nat, lo: nat, hi: nat, t: seq<Write<V>>) {
    && Ascending(t)
    && forall k: Pubkey :: LastWrite(t, k) == if lo <= bin(k) < hi then LastWrite(writes, k) else None
  }

  /** The part of a table whose keys have their bins in `lo..hi`. */
  function Restricted<V>(t: seq<Write<V>>, bin: Pubkey -> nat, lo: nat, hi: nat): seq<Write<V>> {
    if |t| == 0 then []
    else
      var front, w := Restricted(t[..|t| - 1], bin, lo, hi), t[|t| - 1];
      if lo <= bin(w.key) < hi then front + [w] else front
  }

  // ---------------------------------------------------------------- LastWrite

  lemma {:induction false} LastWriteNone<V>(s: seq<Write<V>>, k: Pubkey)
    ensures LastWrite(s, k).None? <==> forall i :: 0 <= i < |s| ==> s[i].key != k
  {
    if |s| > 0 { LastWriteNone(s[..|s| - 1], k); }
  }

  lemma {:induction false} LastWriteAt<V>(s: seq<Write<V>>, i: nat)
    requires i < |s| && forall j :: i < j < |s| ==> s[j].key != s[i].key
    ensures LastWrite(s, s[i].key) == Some(s[i])
  {
    if i + 1 < |s| { LastWriteAt(s[..|s| - 1], i); }
  }

  lemma {:induction false} LastWriteConcat<V>(a: seq<Write<V>>, b: seq<Write<V>>, k: Pubkey)
    ensures LastWrite(a + b, k) == if LastWrite(b, k).Some? then LastWrite(b, k) else LastWrite(a, k)
  {
    if |b| == 0 {
      assert a + b == a;
    } else {
      assert (a + b)[..|a + b| - 1] == a + b[..|b| - 1];
      LastWriteConcat(a, b[..|b| - 1], k);
    }
  }

  // ---------------------------------------------------------------- Table

  lemma {:induction false} UpsertOrdered<V>(table: seq<Write<V>>, w: Write<V>)
    requires Ascending(table)
    ensures Ascending(Upsert(table, w))
    ensures forall i :: 0 <= i < |Upsert(table, w)| ==> Upsert(table, w)[i] == w || Upsert(table, w)[i] in table
  {
    if |table| > 0 && w.key < table[|table| - 1].key { UpsertOrdered(table[..|table| - 1], w); }
  }

  lemma {:induction false} UpsertLookup<V>(table: seq<Write<V>>, w: Write<V>, k: Pubkey)
    requires Ascending(table)
    ensures LastWrite(Upsert(table, w), k) == if k == w.key then Some(w) else LastWrite(table, k)
  {
    if |table| == 0 || table[|table| - 1].key <= w.key {
      var kept := if |table| == 0 || table[|table| - 1].key < w.key then table else table[..|table| - 1];
      assert (kept + [w])[..|kept|] == kept;
    } else {
      var front, last := table[..|table| - 1], table[|table| - 1];
      UpsertLookup(front, w, k);
      assert (Upsert(front, w) + [last])[..|Upsert(front, w)|] == Upsert(front, w);
    }
  }

  /** The table of a log holds the last write of every key. */
  lemma {:induction false} TableCorrect<V>(writes: seq<Write<V>>)
    ensures Ascending(Table(writes))
    ensures forall k: Pubkey :: LastWrite(Table(writes), k) == LastWrite(writes, k)
  {
    if |writes| > 0 {
      var front, last := writes[..|writes| - 1], writes[|writes| - 1];
      TableCorrect(front);
      UpsertOrdered(Table(front), last);
      forall k: Pubkey
        ensures LastWrite(Table(writes), k) == LastWrite(writes, k)
      {
        UpsertLookup(Table(front), last, k);
      }
    }
  }

  /** Order and lookups determine a table. */
  lemma {:induction false} TableUnique<V>(t: seq<Write<V>>, u: seq<Write<V>>)
    requires Ascending(t) && Ascending(u)
    requires forall k: Pubkey :: LastWrite(t, k) == LastWrite(u, k)
    ensures t == u
    decreases |t|
  {
    if t == [] {
      if u != [] { LastWriteAt(u, |u| - 1); }
    } else if u == [] {
      LastWriteAt(t, |t| - 1);
    } else {
      SameLast(t, u);
      var tf, uf := t[..|t| - 1], u[..|u| - 1];
      forall k: Pubkey
        ensures LastWrite(tf, k) == LastWrite(uf, k)
      {
        if k == t[|t| - 1].key {
          LastWriteNone(tf, k);
          LastWriteNone(uf, k);
        } else {
          assert LastWrite(t, k) == LastWrite(tf, k) && LastWrite(u, k) == LastWrite(uf, k);
        }
      }
      TableUnique(tf, uf);
    }
  }

  lemma SameLast<V>(t: seq<Write<V>>, u: seq<Write<V>>)
    requires Ascending(t) && Ascending(u) && t != [] && u != []
    requires forall k: Pubkey :: LastWrite(t, k) == LastWrite(u, k)
    ensures t[|t| - 1] == u[|u| - 1]
  {
    var a, b := t[|t| - 1], u[|u| - 1];
    LastWriteAt(t, |t| - 1);
    LastWriteAt(u, |u| - 1);
    assert LastWrite(u, a.key).Some? && LastWrite(t, b.key).Some?;
    assert LastWrite(u, a.key).value in u && LastWrite(t, b.key).value in t;
  }

  lemma {:induction false} RestrictedOrdered<V>(t: seq<Write<V>>, bin: Pubkey -> nat, lo: nat, hi: nat)
    requires Ascending(t)
    ensures Ascending(Restricted(t, bin, lo, hi))
    ensures forall i :: 0 <= i < |Restricted(t, bin, lo, hi)| ==> Restricted(t, bin, lo, hi)[i] in t
  {
    if |t| > 0 { RestrictedOrdered(t[..|t| - 1], bin, lo, hi); }
  }

  lemma {:induction false} RestrictedLookup<V>(t: seq<Write<V>>, bin: Pubkey -> nat, lo: nat, hi: nat, k: Pubkey)
    ensures LastWrite(Restricted(t, bin, lo, hi), k) == if lo <= bin(k) < hi then LastWrite(t, k) else None
  {
    if |t| > 0 {
      RestrictedLookup(t[..|t| - 1], bin, lo, hi, k);
      var front := Restricted(t[..|t| - 1], bin, lo, hi);
      assert (front + [t[|t| - 1]])[..|front|] == front;
    }
  }

  /** The table of some bins is that part of the table, and no other list is. */
  lemma TableOfBins<V>(writes: seq<Write<V>>, bin: Pubkey -> nat, lo: nat, hi: nat, t: seq<Write<V>>)
    ensures TableOf(writes, bin, lo, hi, t) <==> t == Restricted(Table(writes), bin, lo, hi)
  {
    var part := Restricted(Table(writes), bin, lo, hi);
    TableCorrect(writes);
    RestrictedOrdered(Table(writes), bin, lo, hi);
    forall k: Pubkey ensures LastWrite(part, k) == if lo <= bin(k) < hi then LastWrite(writes, k) else None {
      RestrictedLookup(Table(writes), bin, lo, hi, k);
    }
    if TableOf(writes, bin, lo, hi, t) { TableUnique(t, part); }
  }

  /** Bins are ordered as keys are, so the tables of consecutive bins chain. */
  lemma TableConcat<V>(writes: seq<Write<V>>, bin: Pubkey -> nat, bins: nat, lo: nat, mid: nat, hi: nat,
                       t: seq<Write<V>>, u: seq<Write<V>>)
    requires Monotone(bin, bins) && lo <= mid <= hi
    requires TableOf(writes, bin, lo, mid, t) && TableOf(writes, bin, mid, hi, u)
    ensures TableOf(writes, bin, lo, hi, t + u)
  {
    forall k: Pubkey
      ensures LastWrite(t + u, k) == if lo <= bin(k) < hi then LastWrite(writes, k) else None
    {
      LastWriteConcat(t, u, k);
    }
    forall i, j | 0 <= i < |t| && 0 <= j < |u|
      ensures t[i].key < u[j].key
    {
      LastWriteNone(t, t[i].key);
      LastWriteNone(u, u[j].key);
    }
  }
}
