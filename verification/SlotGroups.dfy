/**
  Slot groups (each sorted by pubkey, duplicates adjacent, the later version last) and what the
  merge keeps true of its working set.
 */
module SlotGroups {
  import opened Wrappers
  import opened Pubkeys
  import opened OrderedWrites
  import opened Sequences

  datatype Account = Account(lamports: U64, hash: Hash)

  type Item = Write<Account>

  /** `Flatten` of the groups is every item in slot order, low slots first. */
  type Groups = seq<seq<Item>>

  /** A position in a slot group. */
  datatype Pointer = Pointer(group: nat, offset: nat)

  ghost predicate Sorted(items: seq<Item>) {
    forall i, j :: 0 <= i <= j < |items| ==> items[i].key <= items[j].key
  }

  ghost predicate AllSorted(groups: Groups) {
    forall g :: 0 <= g < |groups| ==> Sorted(groups[g])
  }

  predicate Valid(groups: Groups, p: Pointer) {
    p.group < |groups| && p.offset < |groups[p.group]|
  }

  function KeyAt(groups: Groups, p: Pointer): Pubkey
    requires Valid(groups, p)
  {
    groups[p.group][p.offset].key
  }

  ghost predicate InBin(groups: Groups, bin: Pubkey -> nat, b: nat, p: Pointer) {
    Valid(groups, p) && bin(KeyAt(groups, p)) == b
  }

  /** The working set: strictly descending keys of the bin, at most one pointer per group. */
  ghost predicate Working(groups: Groups, bin: Pubkey -> nat, b: nat, ws: seq<Pointer>) {
    && (forall i :: 0 <= i < |ws| ==> InBin(groups, bin, b, ws[i]))
    && (forall i, j :: 0 <= i < j < |ws| ==> KeyAt(groups, ws[j]) < KeyAt(groups, ws[i]))
    && (forall i, j :: 0 <= i < j < |ws| ==> ws[i].group != ws[j].group)
  }

  ghost predicate AtOrAbove(groups: Groups, floor: nat, ws: seq<Pointer>) {
    forall i :: 0 <= i < |ws| ==> Valid(groups, ws[i]) && floor <= KeyAt(groups, ws[i])
  }

  /** `p` still has item `i` of group `g` ahead of it, or has the key in a later group. */
  ghost predicate Covers(groups: Groups, p: Pointer, g: nat, i: nat) {
    && Valid(groups, p) && Valid(groups, Pointer(g, i))
    && ((p.group == g && p.offset <= i) || (p.group > g && KeyAt(groups, p) == groups[g][i].key))
  }

  /** Item `i` of group `g` is in the bin and its key has not been visited. */
  ghost predicate Unvisited(groups: Groups, bin: Pubkey -> nat, b: nat, floor: nat, g: nat, i: nat) {
    Valid(groups, Pointer(g, i)) && bin(groups[g][i].key) == b && floor <= groups[g][i].key
  }

  /** Every unvisited item of the bin, in the groups from `from` on, is covered by the pool. */
  ghost predicate Coverage(groups: Groups, bin: Pubkey -> nat, b: nat, pool: set<Pointer>, floor: nat, from: nat) {
    forall g: nat, i: nat {:trigger Unvisited(groups, bin, b, floor, g, i)} ::
      from <= g && Unvisited(groups, bin, b, floor, g, i) ==> exists p :: p in pool && Covers(groups, p, g, i)
  }

  /** `next` is where group `p.group` continues, in the bin, after the key at `p`. */
  ghost predicate NextOf(groups: Groups, bin: Pubkey -> nat, b: nat, p: Pointer, next: Option<Pointer>) {
    && Valid(groups, p)
    && var items := groups[p.group];
       match next
       case None => forall i :: p.offset <= i < |items| && bin(items[i].key) == b ==> items[i].key == items[p.offset].key
       case Some(q) =>
         && q.group == p.group && p.offset < q.offset && InBin(groups, bin, b, q)
         && KeyAt(groups, p) < KeyAt(groups, q)
         && forall i :: p.offset <= i < q.offset ==> items[i].key == items[p.offset].key
  }

  function Pending(next: Option<Pointer>): set<Pointer> {
    if next.Some? then {next.value} else {}
  }

  function Elements(ws: seq<Pointer>): set<Pointer> { set p | p in ws }

  /**
    The heart of the merge. A pointer may move past its key when the key has been visited
    (`KeyAt(p) < floor'`) or when another pointer of the pool has it in a later group.
   */
  lemma Advance(groups: Groups, bin: Pubkey -> nat, b: nat, pool: set<Pointer>, p: Pointer, next: Option<Pointer>,
                floor: nat, floor': nat, from: nat)
    requires Coverage(groups, bin, b, pool, floor, from) && p in pool && floor <= floor'
    requires NextOf(groups, bin, b, p, next)
    requires || KeyAt(groups, p) < floor'
             || exists q :: q in pool - {p} && Valid(groups, q) && q.group > p.group && KeyAt(groups, q) == KeyAt(groups, p)
    ensures Coverage(groups, bin, b, pool - {p} + Pending(next), floor', from)
  {
    var pool' := pool - {p} + Pending(next);
    forall g: nat, i: nat | from <= g && Unvisited(groups, bin, b, floor', g, i)
      ensures exists r :: r in pool' && Covers(groups, r, g, i)
    {
      assert Unvisited(groups, bin, b, floor, g, i);
      var r :| r in pool && Covers(groups, r, g, i);
      if r != p {
        assert r in pool';
      } else if p.group == g && next.Some? && next.value.offset <= i {
        assert next.value in pool' && Covers(groups, next.value, g, i);
      } else {
        assert groups[g][i].key == KeyAt(groups, p);
        var q :| q in pool - {p} && Valid(groups, q) && q.group > p.group && KeyAt(groups, q) == KeyAt(groups, p);
        assert q in pool' && Covers(groups, q, g, i);
      }
    }
  }

  // ---------------------------------------------------------------- what the smallest key means

  lemma {:induction false} LastInGroups(groups: Groups, g: nat, w: Item)
    requires g < |groups| && LastWrite(groups[g], w.key) == Some(w)
    requires forall h, i :: g < h < |groups| && 0 <= i < |groups[h]| ==> groups[h][i].key != w.key
    ensures LastWrite(Flatten(groups), w.key) == Some(w)
  {
    var front, last := groups[..|groups| - 1], groups[|groups| - 1];
    LastWriteConcat(Flatten(front), last, w.key);
    if g < |groups| - 1 {
      LastWriteNone(last, w.key);
      LastInGroups(front, g, w);
    }
  }

  lemma {:induction false} InSomeGroup(groups: Groups, k: Pubkey)
    requires LastWrite(Flatten(groups), k).Some?
    ensures exists g, i :: 0 <= g < |groups| && 0 <= i < |groups[g]| && groups[g][i].key == k
  {
    if |groups| > 0 {
      var front, last := groups[..|groups| - 1], groups[|groups| - 1];
      LastWriteConcat(Flatten(front), last, k);
      if LastWrite(last, k).Some? {
        var i :| 0 <= i < |last| && last[i] == LastWrite(last, k).value;
        assert groups[|groups| - 1][i].key == k;
      } else {
        InSomeGroup(front, k);
        var g, i :| 0 <= g < |front| && 0 <= i < |front[g]| && front[g][i].key == k;
        assert groups[g][i].key == k;
      }
    }
  }

  /** What has been visited: the last write of every key of the bin below `floor`, in key order. */
  ghost predicate Visited(groups: Groups, bin: Pubkey -> nat, b: nat, floor: nat, v: seq<Item>) {
    && Ascending(v)
    && forall k: Pubkey :: LastWrite(v, k) == if bin(k) == b && k < floor then LastWrite(Flatten(groups), k) else None
  }

  /** No key of the bin lies at or above `floor` and below the smallest key of the working set. */
  lemma NothingBelow(groups: Groups, bin: Pubkey -> nat, b: nat, ws: seq<Pointer>, floor: nat, k: Pubkey)
    requires AllSorted(groups) && Coverage(groups, bin, b, Elements(ws), floor, 0)
    requires forall n :: 0 <= n < |ws| ==> Valid(groups, ws[n]) && k < KeyAt(groups, ws[n])
    requires bin(k) == b && floor <= k
    ensures LastWrite(Flatten(groups), k).None?
  {
    forall g: nat, i: nat | g < |groups| && i < |groups[g]| ensures groups[g][i].key != k {
      assert groups[g][i].key == k ==> Unvisited(groups, bin, b, floor, g, i);
    }
    if LastWrite(Flatten(groups), k).Some? { InSomeGroup(groups, k); }
  }

  lemma CoveredFrom(groups: Groups, p: Pointer, g: nat, i: nat)
    requires AllSorted(groups) && Covers(groups, p, g, i)
    ensures KeyAt(groups, p) <= groups[g][i].key
  {
  }

  /** Later groups hold only larger unvisited keys than the smallest of the working set. */
  lemma LaterGroupsAreAhead(groups: Groups, bin: Pubkey -> nat, b: nat, ws: seq<Pointer>, floor: nat, h: nat, i: nat)
    requires AllSorted(groups) && Working(groups, bin, b, ws) && ws != []
    requires Coverage(groups, bin, b, Elements(ws), floor, 0)
    requires ws[|ws| - 1].group < h && Unvisited(groups, bin, b, floor, h, i)
    ensures KeyAt(groups, ws[|ws| - 1]) < groups[h][i].key
  {
    var q :| q in Elements(ws) && Covers(groups, q, h, i);
    var n :| 0 <= n < |ws| && ws[n] == q;
    CoveredFrom(groups, q, h, i);
  }

  /** The group pointed at by the smallest key is the last group that has the key. */
  lemma SmallestIsLast(groups: Groups, bin: Pubkey -> nat, b: nat, ws: seq<Pointer>, floor: nat, w: Item)
    requires AllSorted(groups) && Working(groups, bin, b, ws) && ws != [] && AtOrAbove(groups, floor, ws)
    requires Coverage(groups, bin, b, Elements(ws), floor, 0)
    requires var p := ws[|ws| - 1]; w.key == KeyAt(groups, p) && LastWrite(groups[p.group], w.key) == Some(w)
    ensures LastWrite(Flatten(groups), w.key) == Some(w)
  {
    var p := ws[|ws| - 1];
    forall h, i | p.group < h < |groups| && 0 <= i < |groups[h]|
      ensures groups[h][i].key != w.key
    {
      if Unvisited(groups, bin, b, floor, h, i) {
        LaterGroupsAreAhead(groups, bin, b, ws, floor, h, i);
      }
    }
    LastInGroups(groups, p.group, w);
  }

  /** One iteration of the merge visits one more key. */
  lemma VisitSmallest(groups: Groups, bin: Pubkey -> nat, b: nat, ws: seq<Pointer>, floor: nat, v: seq<Item>, w: Item)
    requires AllSorted(groups) && Working(groups, bin, b, ws) && ws != [] && AtOrAbove(groups, floor, ws)
    requires Coverage(groups, bin, b, Elements(ws), floor, 0) && Visited(groups, bin, b, floor, v)
    requires var p := ws[|ws| - 1]; w.key == KeyAt(groups, p) && LastWrite(groups[p.group], w.key) == Some(w)
    ensures Visited(groups, bin, b, w.key + 1, v + [w])
  {
    SmallestIsLast(groups, bin, b, ws, floor, w);
    forall k: Pubkey | bin(k) == b && floor <= k < w.key
      ensures LastWrite(Flatten(groups), k).None?
    {
      NothingBelow(groups, bin, b, ws, floor, k);
    }
    VisitOne(groups, bin, b, floor, v, w);
  }

  lemma VisitOne(groups: Groups, bin: Pubkey -> nat, b: nat, floor: nat, v: seq<Item>, w: Item)
    requires Visited(groups, bin, b, floor, v) && bin(w.key) == b && floor <= w.key
    requires LastWrite(Flatten(groups), w.key) == Some(w)
    requires forall k: Pubkey :: bin(k) == b && floor <= k < w.key ==> LastWrite(Flatten(groups), k).None?
    ensures Visited(groups, bin, b, w.key + 1, v + [w])
  {
    assert (v + [w])[..|v|] == v;
    forall i | 0 <= i < |v|
      ensures v[i].key < w.key
    {
      LastWriteNone(v, v[i].key);
    }
  }

  /** With nothing left to point at, every key of the bin has been visited. */
  lemma AllVisited(groups: Groups, bin: Pubkey -> nat, b: nat, floor: nat, v: seq<Item>)
    requires AllSorted(groups) && Coverage(groups, bin, b, {}, floor, 0) && Visited(groups, bin, b, floor, v)
    ensures TableOf(Flatten(groups), bin, b, b + 1, v)
  {
    forall k: Pubkey
      ensures LastWrite(v, k) == if b <= bin(k) < b + 1 then LastWrite(Flatten(groups), k) else None
    {
      if bin(k) == b && floor <= k {
        assert Elements([]) == {};
        NothingBelow(groups, bin, b, [], floor, k);
      }
    }
  }
}
