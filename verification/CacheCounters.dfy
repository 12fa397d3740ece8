/**
  When the write cache's counters can wrap: exactly, for stores that overlap; never, for stores and
  drops that do not.
 */
module CacheCounters {
  import opened Pubkeys
  import opened AccountsCaches

  // ---------------------------------------------------------------- exactly when a counter can wrap

  predicate InWord(n: int) { 0 <= n < WORD }

  /** The step does not take a counter below zero or past a word. */
  ghost predicate NoWrap(s: State, step: Step)
    requires Enabled(s, step)
  {
    match step
    case SettleSize(c, i) => InWord(s.caches[c].size + s.caches[c].owed[i].change)
    case SettleTotal(i) => InWord(s.total + s.owed[i].change)
    case NoteWrite(c, i) =>
      var cache, note := s.caches[c], s.caches[c].unnoted[i];
      InWord((if note.again then cache.same else cache.unique) + note.len)
    case DropCache(c) => InWord(s.total - s.caches[c].size)
    case _ => true
  }

  predicate Settles(step: Step) { step.SettleSize? || step.SettleTotal? }

  function AllOwed(caches: seq<SlotCache>): nat {
    if |caches| == 0 then 0 else AllOwed(caches[..|caches| - 1]) + |caches[|caches| - 1].owed|
  }

  lemma {:induction false} AllOwedUpdate(caches: seq<SlotCache>, c: nat, cache: SlotCache)
    requires c < |caches|
    ensures AllOwed(caches[c := cache]) == AllOwed(caches) + |cache.owed| - |caches[c].owed|
  {
    var n := |caches| - 1;
    if c < n {
      AllOwedUpdate(caches[..n], c, cache);
      assert caches[c := cache][..n] == caches[..n][c := cache];
    } else {
      assert caches[c := cache][..n] == caches[..n];
    }
  }

  /** Additions yet to be made: two for a charge the slot's size has not had. */
  function Work(s: State): nat { 2 * AllOwed(s.caches) + |s.owed| }

  lemma SettlingIsWork(s: State, step: Step)
    requires Enabled(s, step) && Settles(step)
    ensures Work(Apply(s, step)) < Work(s)
  {
    if step.SettleSize? { AllOwedUpdate(s.caches, step.cache, AfterSettle(s.caches[step.cache], step.i)); }
  }

  /** In whatever order the additions under way are made, none wraps. */
  ghost predicate NeverWraps(s: State)
    decreases Work(s)
  {
    forall step :: Settles(step) && Enabled(s, step) ==>
      NoWrap(s, step) && (SettlingIsWork(s, step); NeverWraps(Apply(s, step)))
  }

  predicate Signed(change: int, up: bool) { if up then change > 0 else change < 0 }

  /** What the additions in one direction come to. */
  function Part(owed: seq<Charge>, up: bool): int {
    if |owed| == 0 then 0
    else Part(owed[..|owed| - 1], up) + if Signed(owed[|owed| - 1].change, up) then owed[|owed| - 1].change else 0
  }

  function AllParts(caches: seq<SlotCache>, up: bool): int {
    if |caches| == 0 then 0 else AllParts(caches[..|caches| - 1], up) + Part(caches[|caches| - 1].owed, up)
  }

  lemma PartAppend(owed: seq<Charge>, charge: Charge, up: bool)
    ensures Part(owed + [charge], up) == Part(owed, up) + if Signed(charge.change, up) then charge.change else 0
  {
    assert (owed + [charge])[..|owed|] == owed;
  }

  lemma {:induction false} PartWithout(owed: seq<Charge>, i: nat, up: bool)
    requires i < |owed|
    ensures Part(Without(owed, i), up) == Part(owed, up) - if Signed(owed[i].change, up) then owed[i].change else 0
  {
    var n := |owed| - 1;
    if i < n {
      PartWithout(owed[..n], i, up);
      assert Without(owed, i)[..n - 1] == Without(owed[..n], i);
    } else {
      assert Without(owed, i) == owed[..n];
    }
  }

  lemma {:induction false} PartSign(owed: seq<Charge>, up: bool)
    ensures if up then Part(owed, up) >= 0 else Part(owed, up) <= 0
    ensures forall i :: 0 <= i < |owed| && Signed(owed[i].change, up) ==>
              if up then owed[i].change <= Part(owed, up) else Part(owed, up) <= owed[i].change
    ensures (forall i :: 0 <= i < |owed| ==> !Signed(owed[i].change, up)) ==> Part(owed, up) == 0
  {
    if |owed| > 0 { PartSign(owed[..|owed| - 1], up); }
  }

  lemma {:induction false} AllPartsUpdate(caches: seq<SlotCache>, c: nat, cache: SlotCache, up: bool)
    requires c < |caches|
    ensures AllParts(caches[c := cache], up) == AllParts(caches, up) + Part(cache.owed, up) - Part(caches[c].owed, up)
  {
    var n := |caches| - 1;
    if c < n {
      AllPartsUpdate(caches[..n], c, cache, up);
      assert caches[c := cache][..n] == caches[..n][c := cache];
    } else {
      assert caches[c := cache][..n] == caches[..n];
    }
  }

  lemma {:induction false} AllPartsSign(caches: seq<SlotCache>, up: bool)
    ensures if up then AllParts(caches, up) >= 0 else AllParts(caches, up) <= 0
    ensures (forall c :: 0 <= c < |caches| ==> Part(caches[c].owed, up) == 0) ==> AllParts(caches, up) == 0
  {
    if |caches| > 0 {
      AllPartsSign(caches[..|caches| - 1], up);
      PartSign(caches[|caches| - 1].owed, up);
    }
  }

  /** There is room for all the additions in one direction, in every counter. */
  ghost predicate Room(s: State, up: bool) {
    && (forall c :: 0 <= c < |s.caches| ==> CacheRoom(s.caches[c], up))
    && InWord(s.total + Part(s.owed, up) + AllParts(s.caches, up))
  }

  lemma WrappedSame(n: int)
    requires InWord(n)
    ensures Wrapped(n) == n
  {
  }

  /** A counter with room both ways for what it is owed can take any of it and has room for the rest. */
  lemma RoomToSettle(n: int, owed: seq<Charge>, i: nat, up: bool)
    requires i < |owed| && InWord(n) && InWord(n + Part(owed, true)) && InWord(n + Part(owed, false))
    ensures InWord(n + owed[i].change) && InWord(n + owed[i].change + Part(Without(owed, i), up))
  {
    PartSign(owed, true);
    PartSign(owed, false);
    PartWithout(owed, i, up);
    PartSign(Without(owed, i), up);
  }

  ghost predicate CacheRoom(cache: SlotCache, up: bool) { InWord(cache.size + Part(cache.owed, up)) }

  lemma CacheStillHasRoom(cache: SlotCache, i: nat, up: bool)
    requires CacheRoom(cache, true) && CacheRoom(cache, false) && i < |cache.owed|
    ensures InWord(cache.size + cache.owed[i].change) && CacheRoom(AfterSettle(cache, i), up)
  {
    RoomToSettle(cache.size, cache.owed, i, up);
    WrappedSame(cache.size + cache.owed[i].change);
  }

  /** The charges a settlement of a size leaves are the same in all. */
  lemma SizeMovesCharge(s: State, c: nat, i: nat, up: bool)
    requires Enabled(s, SettleSize(c, i))
    ensures var t := Apply(s, SettleSize(c, i));
            Part(t.owed, up) + AllParts(t.caches, up) == Part(s.owed, up) + AllParts(s.caches, up)
  {
    var cache := s.caches[c];
    PartWithout(cache.owed, i, up);
    PartAppend(s.owed, cache.owed[i], up);
    AllPartsUpdate(s.caches, c, AfterSettle(cache, i), up);
  }

  lemma RoomAfterSize(s: State, c: nat, i: nat, up: bool)
    requires Room(s, true) && Room(s, false) && Enabled(s, SettleSize(c, i))
    ensures NoWrap(s, SettleSize(c, i)) && Room(Apply(s, SettleSize(c, i)), up)
  {
    CacheStillHasRoom(s.caches[c], i, up);
    SizeMovesCharge(s, c, i, up);
  }

  lemma RoomAfterTotal(s: State, i: nat, up: bool)
    requires Room(s, true) && Room(s, false) && Enabled(s, SettleTotal(i))
    ensures NoWrap(s, SettleTotal(i)) && Room(Apply(s, SettleTotal(i)), up)
  {
    AllPartsSign(s.caches, true);
    AllPartsSign(s.caches, false);
    PartSign(s.owed, true);
    PartSign(s.owed, false);
    PartWithout(s.owed, i, up);
    WrappedSame(s.total + s.owed[i].change);
  }

  lemma {:induction false} RoomIsEnough(s: State)
    requires Room(s, true) && Room(s, false)
    ensures NeverWraps(s)
    decreases Work(s)
  {
    forall step | Settles(step) && Enabled(s, step)
      ensures NoWrap(s, step) && (SettlingIsWork(s, step); NeverWraps(Apply(s, step)))
    {
      SettlingIsWork(s, step);
      match step {
        case SettleSize(c, i) => RoomAfterSize(s, c, i, true); RoomAfterSize(s, c, i, false);
        case SettleTotal(i) => RoomAfterTotal(s, i, true); RoomAfterTotal(s, i, false);
      }
      RoomIsEnough(Apply(s, step));
    }
  }

  lemma NeverWrapsNext(s: State, step: Step)
    requires NeverWraps(s) && Settles(step) && Enabled(s, step)
    ensures NoWrap(s, step) && NeverWraps(Apply(s, step)) && Work(Apply(s, step)) < Work(s)
  {
    SettlingIsWork(s, step);
  }

  lemma SizeHadRoom(s: State, c: nat, i: nat, up: bool)
    requires Enabled(s, SettleSize(c, i)) && NoWrap(s, SettleSize(c, i)) && Signed(s.caches[c].owed[i].change, up)
    ensures CacheRoom(Apply(s, SettleSize(c, i)).caches[c], up) ==> CacheRoom(s.caches[c], up)
  {
    PartWithout(s.caches[c].owed, i, up);
    WrappedSame(s.caches[c].size + s.caches[c].owed[i].change);
  }

  /** Settling first all that goes one way shows that room is needed for it: in a slot's size, */
  lemma {:induction false} RoomIsNeededInSize(s: State, c: nat, up: bool)
    requires NeverWraps(s) && c < |s.caches|
    ensures CacheRoom(s.caches[c], up)
    decreases Work(s)
  {
    var cache := s.caches[c];
    PartSign(cache.owed, up);
    if i: nat :| i < |cache.owed| && Signed(cache.owed[i].change, up) {
      NeverWrapsNext(s, SettleSize(c, i));
      RoomIsNeededInSize(Apply(s, SettleSize(c, i)), c, up);
      SizeHadRoom(s, c, i, up);
    }
  }

  ghost predicate TotalRoom(s: State, up: bool) { InWord(s.total + Part(s.owed, up) + AllParts(s.caches, up)) }

  lemma TotalHadRoom(s: State, i: nat, up: bool)
    requires Enabled(s, SettleTotal(i)) && NoWrap(s, SettleTotal(i)) && Signed(s.owed[i].change, up)
    ensures TotalRoom(Apply(s, SettleTotal(i)), up) ==> TotalRoom(s, up)
  {
    PartWithout(s.owed, i, up);
    WrappedSame(s.total + s.owed[i].change);
  }

  lemma NothingSigned(s: State, up: bool)
    requires forall i :: 0 <= i < |s.owed| ==> !Signed(s.owed[i].change, up)
    requires forall c, i :: 0 <= c < |s.caches| && 0 <= i < |s.caches[c].owed| ==> !Signed(s.caches[c].owed[i].change, up)
    ensures TotalRoom(s, up)
  {
    PartSign(s.owed, up);
    forall c | 0 <= c < |s.caches| ensures Part(s.caches[c].owed, up) == 0 { PartSign(s.caches[c].owed, up); }
    AllPartsSign(s.caches, up);
  }

  /** and in the total, once the sizes have had it. */
  lemma {:induction false} RoomIsNeededInTotal(s: State, up: bool)
    requires NeverWraps(s)
    ensures TotalRoom(s, up)
    decreases Work(s)
  {
    if i: nat :| i < |s.owed| && Signed(s.owed[i].change, up) {
      NeverWrapsNext(s, SettleTotal(i));
      RoomIsNeededInTotal(Apply(s, SettleTotal(i)), up);
      TotalHadRoom(s, i, up);
    } else if c: nat, i: nat :| c < |s.caches| && i < |s.caches[c].owed| && Signed(s.caches[c].owed[i].change, up) {
      NeverWrapsNext(s, SettleSize(c, i));
      RoomIsNeededInTotal(Apply(s, SettleSize(c, i)), up);
      SizeMovesCharge(s, c, i, up);
    } else {
      NothingSigned(s, up);
    }
  }

  /**
    Exactly when no counter can wrap, in whatever order the stores under way make their additions:
    when every counter has room for all the additions that go up, and for all that go down.
   */
  lemma NeverWrapsExactly(s: State)
    ensures NeverWraps(s) <==> Room(s, true) && Room(s, false)
  {
    if NeverWraps(s) {
      forall c, up | 0 <= c < |s.caches| ensures CacheRoom(s.caches[c], up) { RoomIsNeededInSize(s, c, up); }
      RoomIsNeededInTotal(s, true);
      RoomIsNeededInTotal(s, false);
    }
    if Room(s, true) && Room(s, false) { RoomIsEnough(s); }
  }

  /**
    The same in terms of the data, for a slot whose counter has not wrapped so far: no more growth is
    under way than there is data, and the data with the shrinkage under way fits in a word.
   */
  lemma RoomInTermsOfData(cache: SlotCache)
    requires cache.size == Held(cache.lens) - Sum(cache.owed)
    ensures CacheRoom(cache, true) && CacheRoom(cache, false)
       <==> Part(cache.owed, true) <= Held(cache.lens) && Held(cache.lens) - Part(cache.owed, false) < WORD
  {
    SumIsParts(cache.owed);
    PartSign(cache.owed, true);
    PartSign(cache.owed, false);
  }

  lemma {:induction false} SumIsParts(owed: seq<Charge>)
    ensures Sum(owed) == Part(owed, true) + Part(owed, false)
  {
    if |owed| > 0 { SumIsParts(owed[..|owed| - 1]); }
  }

  lemma RunCons(s: State, step: Step, rest: seq<Step>)
    requires Enabled(s, step) && Run(Apply(s, step), rest)
    ensures Run(s, [step] + rest) && After(s, [step] + rest) == After(Apply(s, step), rest)
  {
    assert ([step] + rest)[1..] == rest;
  }

  /** A slot cache after a store of 100 bytes and one of none to the same pubkey, neither of them charged. */
  function TwoStores(key: Pubkey): SlotCache { AfterPut(AfterPut(MADE, 0, key, 100), 0, key, 0) }

  lemma TwoStoresOwe(key: Pubkey)
    ensures TwoStores(key).owed == [Charge(0, 100), Charge(0, -100)] && Part(TwoStores(key).owed, false) == -100
  {
    PartAppend([], Charge(0, 100), false);
    PartAppend([Charge(0, 100)], Charge(0, -100), false);
    assert [] + [Charge(0, 100)] == [Charge(0, 100)];
    assert [Charge(0, 100)] + [Charge(0, -100)] == [Charge(0, 100), Charge(0, -100)];
  }

  lemma TwoStoresRun(key: Pubkey)
    ensures var steps := [Open(0)] + ([Put(0, key, 100)] + [Put(0, key, 0)]);
            Run(EMPTY, steps) && After(EMPTY, steps) == State([TwoStores(key)], map[0 := 0], 0, [])
  {
    var grown := AfterPut(MADE, 0, key, 100);
    var a, b := State([MADE], map[0 := 0], 0, []), State([grown], map[0 := 0], 0, []);
    assert Apply(EMPTY, Open(0)) == a;
    assert Apply(a, Put(0, key, 100)) == b by { assert [MADE][0 := grown] == [grown]; }
    assert [grown][0 := TwoStores(key)] == [TwoStores(key)];
    RunCons(b, Put(0, key, 0), []);
    assert [Put(0, key, 0)] + [] == [Put(0, key, 0)];
    RunCons(a, Put(0, key, 100), [Put(0, key, 0)]);
    RunCons(EMPTY, Open(0), [Put(0, key, 100)] + [Put(0, key, 0)]);
  }

  /** It can wrap: of two stores under way, the shrinking one may be charged before the growing one it followed. */
  lemma CanWrap(key: Pubkey)
    ensures var steps := [Open(0)] + ([Put(0, key, 100)] + [Put(0, key, 0)]);
            Run(EMPTY, steps) && !NeverWraps(After(EMPTY, steps))
  {
    var s := State([TwoStores(key)], map[0 := 0], 0, []);
    TwoStoresRun(key);
    TwoStoresOwe(key);
    assert !CacheRoom(s.caches[0], false);
    NeverWrapsExactly(s);
  }

  // ---------------------------------------------------------------- stores that do not overlap

  /** Every step is enabled and wraps no counter. */
  ghost predicate SafeRun(s: State, steps: seq<Step>)
    decreases |steps|
  {
    steps == [] || (Enabled(s, steps[0]) && NoWrap(s, steps[0]) && SafeRun(Apply(s, steps[0]), steps[1..]))
  }

  lemma {:induction false} SafeRuns(s: State, steps: seq<Step>)
    requires SafeRun(s, steps)
    ensures Run(s, steps)
    decreases |steps|
  {
    if steps != [] { SafeRuns(Apply(s, steps[0]), steps[1..]); }
  }

  lemma SafeCons(s: State, step: Step, rest: seq<Step>)
    requires Enabled(s, step) && NoWrap(s, step) && SafeRun(Apply(s, step), rest)
    ensures Run(Apply(s, step), rest)
    ensures SafeRun(s, [step] + rest) && Run(s, [step] + rest) && After(s, [step] + rest) == After(Apply(s, step), rest)
  {
    SafeRuns(Apply(s, step), rest);
    RunCons(s, step, rest);
    assert ([step] + rest)[1..] == rest;
  }

  lemma {:induction false} SafeConcat(s: State, a: seq<Step>, b: seq<Step>)
    requires SafeRun(s, a) && Run(s, a) && SafeRun(After(s, a), b) && Run(After(s, a), b)
    ensures SafeRun(s, a + b) && Run(s, a + b) && After(s, a + b) == After(After(s, a), b)
    decreases |a|
  {
    if a == [] {
      assert a + b == b;
    } else {
      assert (a + b)[1..] == a[1..] + b;
      SafeConcat(Apply(s, a[0]), a[1..], b);
    }
  }

  function With(s: State, c: nat, cache: SlotCache): State
    requires c < |s.caches|
  {
    s.(caches := s.caches[c := cache])
  }

  /** The two additions of a charge. */
  function Charging(c: nat): seq<Step> { [SettleSize(c, 0)] + [SettleTotal(0)] }

  function Charged(cache: SlotCache, change: int): SlotCache
    requires InWord(cache.size + change)
  {
    cache.(size := cache.size + change, owed := [])
  }

  lemma ChargeIsSafe(s: State, c: nat, cache: SlotCache, change: int)
    requires c < |s.caches| && s.owed == [] && cache.owed == [Charge(c, change)]
    requires InWord(cache.size + change) && InWord(s.total + change)
    ensures SafeRun(With(s, c, cache), Charging(c)) && Run(With(s, c, cache), Charging(c))
    ensures After(With(s, c, cache), Charging(c)) == With(s.(total := s.total + change), c, Charged(cache, change))
  {
    var u, q := With(s, c, cache), Charged(cache, change);
    WrappedSame(cache.size + change);
    WrappedSame(s.total + change);
    assert Without(cache.owed, 0) == [] && AfterSettle(cache, 0) == q;
    var v := With(s, c, q).(owed := [Charge(c, change)]);
    assert u.caches[c := q] == v.caches && u.owed + [Charge(c, change)] == v.owed;
    assert Apply(u, SettleSize(c, 0)) == v;
    assert Without(v.owed, 0) == [];
    SafeCons(v, SettleTotal(0), []);
    assert [SettleTotal(0)] + [] == [SettleTotal(0)];
    SafeCons(u, SettleSize(c, 0), [SettleTotal(0)]);
  }

  lemma NoteIsSafe(s: State, c: nat, cache: SlotCache)
    requires c < |s.caches| && |cache.unnoted| == 1
    requires InWord((if cache.unnoted[0].again then cache.same else cache.unique) + cache.unnoted[0].len)
    ensures SafeRun(With(s, c, cache), [NoteWrite(c, 0)]) && Run(With(s, c, cache), [NoteWrite(c, 0)])
    ensures After(With(s, c, cache), [NoteWrite(c, 0)]) == With(s, c, AfterNote(cache, 0)) && AfterNote(cache, 0).unnoted == []
  {
    var u := With(s, c, cache);
    assert u.caches[c := AfterNote(cache, 0)] == s.caches[c := AfterNote(cache, 0)];
    SafeCons(u, NoteWrite(c, 0), []);
    assert [NoteWrite(c, 0)] + [] == [NoteWrite(c, 0)];
  }

  /** From a quiet state, what a store adds to each counter leaves it in range. */
  lemma StoreHasRoom(s: State, c: nat, key: Pubkey, len: U64)
    requires Inv(s) && Quiet(s) && Fits(s) && Enabled(s, Put(c, key, len)) && Fits(Apply(s, Put(c, key, len)))
    ensures var cache, change := s.caches[c], len - Before(s.caches[c].lens, key);
            && InWord(cache.size + change) && InWord(s.total + change)
            && InWord((if key in cache.lens then cache.same else cache.unique) + len)
  {
    var cache, after := s.caches[c], AfterPut(s.caches[c], c, key, len);
    ExactWhenQuiet(s);
    assert CacheExact(cache);
    HeldUpdate(cache.lens, key, len);
    AllHeldUpdate(s.caches, c, after);
    AllHeldAtLeast(s.caches[c := after], c);
    assert Apply(s, Put(c, key, len)).caches[c] == after;
  }

  /** The steps of a store, in the order of the code. */
  function Storing(s: State, c: nat, key: Pubkey, len: U64): seq<Step>
    requires c < |s.caches|
  {
    var lens := s.caches[c].lens;
    var charging := if Due(lens, c, key, len) == [] then [] else Charging(c);
    [Put(c, key, len)] + if key in lens then [NoteWrite(c, 0)] + charging else charging + [NoteWrite(c, 0)]
  }

  /** The steps are safe and leave one slot cache and the total changed. */
  ghost predicate Leads(s: State, steps: seq<Step>, c: nat, cache: SlotCache, total: U64)
    requires c < |s.caches|
  {
    SafeRun(s, steps) && Run(s, steps) && After(s, steps) == With(s.(total := total), c, cache)
  }

  lemma PutThen(s: State, c: nat, key: Pubkey, len: U64, rest: seq<Step>, cache: SlotCache, total: U64)
    requires Enabled(s, Put(c, key, len))
    requires var put := With(s, c, AfterPut(s.caches[c], c, key, len));
             SafeRun(put, rest) && Run(put, rest) && After(put, rest) == With(s.(total := total), c, cache)
    ensures Leads(s, [Put(c, key, len)] + rest, c, cache, total)
  {
    SafeCons(s, Put(c, key, len), rest);
  }

  lemma SameLengthIsSafe(s: State, c: nat, key: Pubkey, len: U64)
    requires Quiet(s) && Enabled(s, Put(c, key, len)) && Due(s.caches[c].lens, c, key, len) == [] && InWord(s.caches[c].same + len)
    ensures Leads(s, [Put(c, key, len)] + ([NoteWrite(c, 0)] + []), c, AfterNote(AfterPut(s.caches[c], c, key, len), 0), s.total)
  {
    var put := AfterPut(s.caches[c], c, key, len);
    assert [NoteWrite(c, 0)] + [] == [NoteWrite(c, 0)];
    NoteIsSafe(s, c, put);
    PutThen(s, c, key, len, [NoteWrite(c, 0)], AfterNote(put, 0), s.total);
  }

  lemma OtherLengthIsSafe(s: State, c: nat, key: Pubkey, len: U64, change: int)
    requires Quiet(s) && Enabled(s, Put(c, key, len)) && key in s.caches[c].lens && Due(s.caches[c].lens, c, key, len) == [Charge(c, change)]
    requires InWord(s.caches[c].size + change) && InWord(s.total + change) && InWord(s.caches[c].same + len)
    ensures Leads(s, [Put(c, key, len)] + ([NoteWrite(c, 0)] + Charging(c)), c,
                  Charged(AfterNote(AfterPut(s.caches[c], c, key, len), 0), change), s.total + change)
  {
    var put := AfterPut(s.caches[c], c, key, len);
    NoteIsSafe(s, c, put);
    ChargeIsSafe(s, c, AfterNote(put, 0), change);
    SafeConcat(With(s, c, put), [NoteWrite(c, 0)], Charging(c));
    PutThen(s, c, key, len, [NoteWrite(c, 0)] + Charging(c), Charged(AfterNote(put, 0), change), s.total + change);
  }

  lemma FirstStoreIsSafe(s: State, c: nat, key: Pubkey, len: U64)
    requires Quiet(s) && Enabled(s, Put(c, key, len)) && key !in s.caches[c].lens
    requires InWord(s.caches[c].size + len) && InWord(s.total + len) && InWord(s.caches[c].unique + len)
    ensures Leads(s, [Put(c, key, len)] + (Charging(c) + [NoteWrite(c, 0)]), c,
                  AfterNote(Charged(AfterPut(s.caches[c], c, key, len), len), 0), s.total + len)
  {
    var put := AfterPut(s.caches[c], c, key, len);
    ChargeIsSafe(s, c, put, len);
    NoteIsSafe(s.(total := s.total + len), c, Charged(put, len));
    SafeConcat(With(s, c, put), Charging(c), [NoteWrite(c, 0)]);
    PutThen(s, c, key, len, Charging(c) + [NoteWrite(c, 0)], AfterNote(Charged(put, len), 0), s.total + len);
  }

  /** A quiet state with one slot cache replaced by a quiet one that holds the same is quiet and fits as before. */
  lemma QuietWith(s: State, c: nat, cache: SlotCache, put: SlotCache, total: U64)
    requires Quiet(s) && c < |s.caches| && CacheQuiet(cache) && !cache.dropped && !put.dropped && !s.caches[c].dropped
    requires cache.lens == put.lens && cache.first == put.first && cache.repeated == put.repeated && Fits(With(s, c, put))
    ensures Quiet(With(s.(total := total), c, cache)) && Fits(With(s.(total := total), c, cache))
  {
    AllHeldUpdate(s.caches, c, put);
    AllHeldUpdate(s.caches, c, cache);
    var a, b := With(s, c, put), With(s.(total := total), c, cache);
    forall d | 0 <= d < |b.caches| ensures b.caches[d].first + b.caches[d].repeated < WORD {
      assert b.caches[d].first == a.caches[d].first && b.caches[d].repeated == a.caches[d].repeated;
    }
  }

  /** The steps wrap nothing and leave a quiet state that fits. */
  ghost predicate Harmless(s: State, steps: seq<Step>) {
    SafeRun(s, steps) && Run(s, steps) && Quiet(After(s, steps)) && Fits(After(s, steps))
  }

  lemma LeadsToQuiet(s: State, steps: seq<Step>, c: nat, cache: SlotCache, put: SlotCache, total: U64)
    requires c < |s.caches| && Leads(s, steps, c, cache, total)
    requires Quiet(s) && CacheQuiet(cache) && !cache.dropped && !put.dropped && !s.caches[c].dropped
    requires cache.lens == put.lens && cache.first == put.first && cache.repeated == put.repeated && Fits(With(s, c, put))
    ensures Harmless(s, steps)
  {
    QuietWith(s, c, cache, put, total);
  }

  /** A store from a quiet state wraps no counter and leaves a quiet state. */
  lemma StoreIsSafe(s: State, c: nat, key: Pubkey, len: U64)
    requires Inv(s) && Quiet(s) && Fits(s) && Enabled(s, Put(c, key, len)) && Fits(Apply(s, Put(c, key, len)))
    ensures Harmless(s, Storing(s, c, key, len))
  {
    var put, change := AfterPut(s.caches[c], c, key, len), len - Before(s.caches[c].lens, key);
    var steps := Storing(s, c, key, len);
    StoreHasRoom(s, c, key, len);
    if key !in s.caches[c].lens {
      FirstStoreIsSafe(s, c, key, len);
      LeadsToQuiet(s, steps, c, AfterNote(Charged(put, len), 0), put, s.total + len);
    } else if s.caches[c].lens[key] == len {
      SameLengthIsSafe(s, c, key, len);
      LeadsToQuiet(s, steps, c, AfterNote(put, 0), put, s.total);
    } else {
      OtherLengthIsSafe(s, c, key, len, change);
      LeadsToQuiet(s, steps, c, Charged(AfterNote(put, 0), change), put, s.total + change);
    }
  }

  /** The size a dropped slot cache gives back is part of the total. */
  lemma DropIsSafe(s: State, c: nat)
    requires Inv(s) && Quiet(s) && Fits(s) && Enabled(s, DropCache(c))
    ensures NoWrap(s, DropCache(c))
  {
    ExactWhenQuiet(s);
    assert CacheExact(s.caches[c]);
    AllHeldAtLeast(s.caches, c);
  }

  // ---------------------------------------------------------------- sequential runs

  /** What callers do, one after the other. */
  datatype Op =
    | OpenSlot(slot: Slot)
    | Store(cache: nat, key: Pubkey, len: U64)
    | Remove(slot: Slot)
    | Drop(cache: nat)

  function FirstStep(op: Op): Step {
    match op
    case OpenSlot(slot) => Open(slot)
    case Store(c, key, len) => Put(c, key, len)
    case Remove(slot) => RemoveSlot(slot)
    case Drop(c) => DropCache(c)
  }

  function StepsOf(s: State, op: Op): seq<Step>
    requires op.Store? ==> op.cache < |s.caches|
  {
    if op.Store? then Storing(s, op.cache, op.key, op.len) else [FirstStep(op)] + []
  }

  /** The operation can be done, and what is then held and written fits. */
  ghost predicate Allowed(s: State, op: Op) {
    Enabled(s, FirstStep(op)) && Fits(Apply(s, FirstStep(op)))
  }

  lemma OpIsSafe(s: State, op: Op)
    requires Inv(s) && Quiet(s) && Fits(s) && Allowed(s, op)
    ensures var steps := StepsOf(s, op);
            && SafeRun(s, steps) && Run(s, steps) && Inv(After(s, steps)) && Quiet(After(s, steps)) && Fits(After(s, steps))
  {
    match op {
      case OpenSlot(_) => SafeCons(s, FirstStep(op), []);
      case Store(c, key, len) => StoreIsSafe(s, c, key, len);
      case Remove(_) => SafeCons(s, FirstStep(op), []);
      case Drop(c) =>
        DropIsSafe(s, c);
        SafeCons(s, FirstStep(op), []);
    }
    RunKeeps(s, StepsOf(s, op));
  }

  /** The steps of the operations, each from where the one before left off, if that is possible. */
  ghost predicate Sequential(s: State, ops: seq<Op>)
    decreases |ops|
  {
    ops == [] || (Allowed(s, ops[0]) && Run(s, StepsOf(s, ops[0])) && Sequential(After(s, StepsOf(s, ops[0])), ops[1..]))
  }

  ghost function AllSteps(s: State, ops: seq<Op>): seq<Step>
    requires Sequential(s, ops)
    decreases |ops|
  {
    if ops == [] then [] else StepsOf(s, ops[0]) + AllSteps(After(s, StepsOf(s, ops[0])), ops[1..])
  }

  lemma {:induction false} SequentialIsSafe(s: State, ops: seq<Op>)
    requires Inv(s) && Quiet(s) && Fits(s) && Sequential(s, ops)
    ensures var steps := AllSteps(s, ops);
            SafeRun(s, steps) && Run(s, steps) && Inv(After(s, steps)) && Quiet(After(s, steps)) && Fits(After(s, steps))
    decreases |ops|
  {
    if ops != [] {
      OpIsSafe(s, ops[0]);
      var next := After(s, StepsOf(s, ops[0]));
      SequentialIsSafe(next, ops[1..]);
      SafeConcat(s, StepsOf(s, ops[0]), AllSteps(next, ops[1..]));
    }
  }

  /**
    Along every run of whole operations from the empty cache, as long as what is held and written
    fits in a word: no addition and no subtraction wraps, drops included, and afterwards every
    counter is exact: sizes, total, and all that was ever written.
   */
  lemma SequentialNeverWraps(ops: seq<Op>)
    requires Sequential(EMPTY, ops)
    ensures var steps := AllSteps(EMPTY, ops); SafeRun(EMPTY, steps) && Run(EMPTY, steps) && Exact(After(EMPTY, steps))
  {
    EmptyInv();
    SequentialIsSafe(EMPTY, ops);
    ExactWhenQuiet(After(EMPTY, AllSteps(EMPTY, ops)));
  }
}
