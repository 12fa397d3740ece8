/**
  The largest accounts of a bank (`load_largest_accounts` in `accounts-db/src/accounts.rs`): a bounded
  heap filled during a scan whose order is not fixed.
 */
module LargestAccounts {
  import opened Pubkeys

  datatype Entry = Entry(lamports: U64, pubkey: Pubkey)

  datatype AddressFilter = Exclude | Include

  predicate Below(a: Entry, b: Entry) {
    a.lamports < b.lamports || (a.lamports == b.lamports && a.pubkey < b.pubkey)
  }

  ghost predicate Descending(s: seq<Entry>) {
    forall i, j :: 0 <= i < j < |s| ==> Below(s[j], s[i])
  }

  predicate Collected(e: Entry, addresses: set<Pubkey>, filter: AddressFilter) {
    e.lamports != 0 && (filter.Include? <==> e.pubkey in addresses)
  }

  /** The `num` largest of a set, in descending order. */
  ghost predicate Largest(r: seq<Entry>, all: set<Entry>, num: nat) {
    && Descending(r) && |r| <= num
    && (forall e :: e in r ==> e in all)
    && (forall e :: e in all && e !in r ==> |r| == num && forall i :: 0 <= i < |r| ==> Below(e, r[i]))
  }

  /** There is only one such list. */
  lemma {:induction false} LargestUnique(r: seq<Entry>, s: seq<Entry>, all: set<Entry>, num: nat)
    requires Largest(r, all, num) && Largest(s, all, num)
    ensures r == s
  {
    LargestEmpty(r, all, num);
    LargestEmpty(s, all, num);
    if r != [] {
      LargestIsFirst(r, all, num, s[0]);
      LargestIsFirst(s, all, num, r[0]);
      LargestTail(r, all, num);
      LargestTail(s, all, num);
      LargestUnique(r[1..], s[1..], all - {r[0]}, num - 1);
    }
  }

  lemma LargestEmpty(r: seq<Entry>, all: set<Entry>, num: nat)
    requires Largest(r, all, num)
    ensures r == [] <==> all == {} || num == 0
  {
    if e :| e in all { assert e in r || |r| == num; }
    assert r != [] ==> r[0] in all;
  }

  lemma LargestIsFirst(r: seq<Entry>, all: set<Entry>, num: nat, e: Entry)
    requires Largest(r, all, num) && r != [] && e in all
    ensures e == r[0] || Below(e, r[0])
  {
  }

  lemma LargestTail(r: seq<Entry>, all: set<Entry>, num: nat)
    requires Largest(r, all, num) && r != []
    ensures Largest(r[1..], all - {r[0]}, num - 1)
  {
    forall e | e in r[1..] ensures e in all && e != r[0] {
    }
    forall e | e in all - {r[0]} && e !in r[1..] ensures e !in r {
    }
  }

  // ---------------------------------------------------------------- the heap, largest entry first

  function Push(heap: seq<Entry>, e: Entry): seq<Entry> {
    if |heap| == 0 || Below(e, heap[|heap| - 1]) then heap + [e]
    else Push(heap[..|heap| - 1], e) + [heap[|heap| - 1]]
  }

  lemma {:induction false} PushDescending(heap: seq<Entry>, e: Entry)
    requires Descending(heap) && e !in heap
    ensures Descending(Push(heap, e)) && |Push(heap, e)| == |heap| + 1
    ensures forall x :: x in Push(heap, e) <==> x in heap || x == e
  {
    if |heap| > 0 && !Below(e, heap[|heap| - 1]) {
      var front, last := heap[..|heap| - 1], heap[|heap| - 1];
      PushDescending(front, e);
      assert heap == front + [last];
      forall i | 0 <= i < |Push(front, e)| ensures Below(last, Push(front, e)[i]) {
        assert Push(front, e)[i] in Push(front, e);
      }
    }
  }

  /** Pushing into a heap with room. */
  lemma PushLargest(heap: seq<Entry>, all: set<Entry>, num: nat, e: Entry)
    requires Largest(heap, all, num) && |heap| < num && e !in all
    ensures Largest(Push(heap, e), all + {e}, num)
  {
    PushDescending(heap, e);
  }

  /** Replacing the smallest entry of a full heap. */
  lemma ReplaceLargest(heap: seq<Entry>, all: set<Entry>, num: nat, e: Entry)
    requires Largest(heap, all, num) && |heap| == num > 0 && e !in all && Below(heap[num - 1], e)
    ensures Largest(Push(heap[..num - 1], e), all + {e}, num)
  {
    var front, least := heap[..num - 1], heap[num - 1];
    PushDescending(front, e);
    var r := Push(front, e);
    forall x | x in all + {e} && x !in r ensures forall i :: 0 <= i < |r| ==> Below(x, r[i]) {
      forall i | 0 <= i < |r| ensures Below(x, r[i]) {
        assert r[i] in r && (x == least || x !in heap);
      }
    }
  }

  /** Keeping a full heap whose smallest entry is not below the new one. */
  lemma KeepLargest(heap: seq<Entry>, all: set<Entry>, num: nat, e: Entry)
    requires Largest(heap, all, num) && |heap| == num > 0 && e !in all && !Below(heap[num - 1], e)
    ensures Largest(heap, all + {e}, num)
  {
  }

  /** Accounts with lamports: those at the addresses, or those elsewhere. */
  ghost function Wanted(scan: seq<Entry>, addresses: set<Pubkey>, filter: AddressFilter): set<Entry> {
    set e | e in scan && e.lamports > 0 && if filter == Include then e.pubkey in addresses else e.pubkey !in addresses
  }

  /** Exactly the largest `num` wanted accounts; by uniqueness, whatever the order of the scan. */
  method LoadLargestAccounts(scan: seq<Entry>, num: nat, addresses: set<Pubkey>, filter: AddressFilter)
    returns (r: seq<Entry>)
    requires forall i, j :: 0 <= i < j < |scan| ==> scan[i].pubkey != scan[j].pubkey
    ensures Largest(r, Wanted(scan, addresses, filter), num)
    // by lamports, then by pubkey
    ensures forall i, j :: 0 <= i < j < |r| ==> r[i].lamports > r[j].lamports || (r[i].lamports == r[j].lamports && r[i].pubkey > r[j].pubkey)
    ensures forall e, i :: e in Wanted(scan, addresses, filter) && e !in r && 0 <= i < |r| ==>
              r[i].lamports > e.lamports || (r[i].lamports == e.lamports && r[i].pubkey > e.pubkey)
  {
    if num == 0 { return []; }
    r := [];
    for i := 0 to |scan|
      invariant Largest(r, Wanted(scan[..i], addresses, filter), num)
    {
      var e := scan[i];
      ghost var before, after := Wanted(scan[..i], addresses, filter), Wanted(scan[..i + 1], addresses, filter);
      assert scan[..i + 1] == scan[..i] + [e];
      if !Collected(e, addresses, filter) {
        assert after == before;
        continue;
      }
      assert after == before + {e} && e !in before;
      if |r| == num {
        var least := r[num - 1];
        if least == e || Below(e, least) {
          KeepLargest(r, before, num, e);
          continue;
        }
        ReplaceLargest(r, before, num, e);
        r := r[..num - 1];
      } else {
        PushLargest(r, before, num, e);
      }
      r := Push(r, e);
    }
    assert scan[..|scan|] == scan;
  }

  /** Two scans that deliver the same accounts give the same answer. */
  lemma ScanOrderDoesNotMatter(a: seq<Entry>, b: seq<Entry>, addresses: set<Pubkey>, filter: AddressFilter, num: nat,
                               r: seq<Entry>, s: seq<Entry>)
    requires forall e :: e in a <==> e in b
    requires Largest(r, Wanted(a, addresses, filter), num) && Largest(s, Wanted(b, addresses, filter), num)
    ensures r == s
  {
    assert Wanted(a, addresses, filter) == Wanted(b, addresses, filter);
    LargestUnique(r, s, Wanted(a, addresses, filter), num);
  }
}
