/**
  The write cache's size accounting (`accounts-db/src/accounts_cache.rs`). A store changes a slot's
  map and then, in separate atomic additions that may wrap, the slot's size, the cache's total size
  and the slot's write counters; stores of any number of threads interleave. A slot cache gives its
  size back when the last reference to it goes, which may be long after its slot was removed.
 */
module AccountsCaches {
  import opened Pubkeys

  type Slot = nat

  const WORD: nat := U64_MAX + 1

  function Wrapped(n: int): U64 { n % WORD }

  function Words(n: int): int { n * WORD }

  /** Equal up to a number of wraps. */
  ghost predicate Congruent(a: int, b: int) { exists n :: a == b + Words(n) }

  lemma CongruentBy(a: int, b: int, n: int)
    requires a == b + Words(n)
    ensures Congruent(a, b)
  {
  }

  /** Wrapping a counter changes nothing that matters. */
  lemma WrappedCongruent(n: int, due: int, b: int)
    requires Congruent(n + due, b)
    ensures Congruent(Wrapped(n) + due, b)
  {
    var k :| n + due == b + Words(k);
    CongruentBy(Wrapped(n) + due, b, k - n / WORD);
  }

  lemma CongruentSmall(a: int, b: int)
    requires Congruent(a, b) && 0 <= a < WORD && 0 <= b < WORD
    ensures a == b
  {
  }

  lemma CongruentShift(a: int, b: int, c: int, d: int)
    requires Congruent(a, b) && c - a == d - b
    ensures Congruent(c, d)
  {
    var k :| a == b + Words(k);
    CongruentBy(c, d, k);
  }

  /** A change of size on its way to a counter. */
  datatype Charge = Charge(cache: nat, change: int)

  /** Data written, on its way to a write counter; `again` if the pubkey was in the slot before. */
  datatype Note = Note(len: U64, again: bool)

  /** `first` and `repeated` are all the data ever written to new pubkeys of the slot, and to others. */
  datatype SlotCache = SlotCache(
    lens: map<Pubkey, U64>, size: U64, owed: seq<Charge>,
    first: nat, repeated: nat, unique: U64, same: U64, unnoted: seq<Note>,
    dropped: bool)

  /** All slot caches ever made; those `index` points to are in the cache's map. */
  datatype State = State(caches: seq<SlotCache>, index: map<Slot, nat>, total: U64, owed: seq<Charge>)

  datatype Step =
    | Open(slot: Slot)
    | Put(cache: nat, key: Pubkey, len: U64)
    | SettleSize(cache: nat, i: nat)
    | SettleTotal(i: nat)
    | NoteWrite(cache: nat, i: nat)
    | RemoveSlot(slot: Slot)
    | DropCache(cache: nat)

  const EMPTY := State([], map[], 0, [])

  const MADE := SlotCache(map[], 0, [], 0, 0, 0, 0, [], false)

  // ---------------------------------------------------------------- steps

  ghost predicate Unreferenced(s: State, c: nat)
    requires c < |s.caches|
  {
    && s.caches[c].owed == [] && s.caches[c].unnoted == []
    && (forall slot :: slot in s.index ==> s.index[slot] != c)
    && (forall i :: 0 <= i < |s.owed| ==> s.owed[i].cache != c)
  }

  ghost predicate Enabled(s: State, step: Step) {
    match step
    case Open(slot) => slot !in s.index
    case Put(c, _, _) => c < |s.caches| && !s.caches[c].dropped
    case SettleSize(c, i) => c < |s.caches| && i < |s.caches[c].owed|
    case SettleTotal(i) => i < |s.owed|
    case NoteWrite(c, i) => c < |s.caches| && i < |s.caches[c].unnoted|
    case RemoveSlot(_) => true
    case DropCache(c) => c < |s.caches| && !s.caches[c].dropped && Unreferenced(s, c)
  }

  function Without<T>(s: seq<T>, i: nat): seq<T>
    requires i < |s|
  {
    s[..i] + s[i + 1..]
  }

  function Before(lens: map<Pubkey, U64>, key: Pubkey): nat { if key in lens then lens[key] else 0 }

  /** The additions a store owes: none if it replaces data of the same length. */
  function Due(lens: map<Pubkey, U64>, c: nat, key: Pubkey, len: U64): seq<Charge> {
    if key in lens && lens[key] == len then [] else [Charge(c, len - Before(lens, key))]
  }

  function AfterPut(cache: SlotCache, c: nat, key: Pubkey, len: U64): SlotCache {
    var again := key in cache.lens;
    cache.(lens := cache.lens[key := len], owed := cache.owed + Due(cache.lens, c, key, len),
           first := if again then cache.first else cache.first + len,
           repeated := if again then cache.repeated + len else cache.repeated,
           unnoted := cache.unnoted + [Note(len, again)])
  }

  function AfterSettle(cache: SlotCache, i: nat): SlotCache
    requires i < |cache.owed|
  {
    cache.(size := Wrapped(cache.size + cache.owed[i].change), owed := Without(cache.owed, i))
  }

  function AfterNote(cache: SlotCache, i: nat): SlotCache
    requires i < |cache.unnoted|
  {
    var note, rest := cache.unnoted[i], Without(cache.unnoted, i);
    if note.again then cache.(same := Wrapped(cache.same + note.len), unnoted := rest)
    else cache.(unique := Wrapped(cache.unique + note.len), unnoted := rest)
  }

  function Apply(s: State, step: Step): State
    requires Enabled(s, step)
  {
    match step
    case Open(slot) => s.(caches := s.caches + [MADE], index := s.index[slot := |s.caches|])
    case Put(c, key, len) => s.(caches := s.caches[c := AfterPut(s.caches[c], c, key, len)])
    case SettleSize(c, i) =>
      s.(caches := s.caches[c := AfterSettle(s.caches[c], i)], owed := s.owed + [s.caches[c].owed[i]])
    case SettleTotal(i) => s.(total := Wrapped(s.total + s.owed[i].change), owed := Without(s.owed, i))
    case NoteWrite(c, i) => s.(caches := s.caches[c := AfterNote(s.caches[c], i)])
    case RemoveSlot(slot) => s.(index := s.index - {slot})
    case DropCache(c) =>
      s.(total := Wrapped(s.total - s.caches[c].size), caches := s.caches[c := s.caches[c].(dropped := true)])
  }

  // ---------------------------------------------------------------- sums

  function Sum(owed: seq<Charge>): int {
    if |owed| == 0 then 0 else Sum(owed[..|owed| - 1]) + owed[|owed| - 1].change
  }

  lemma SumAppend(owed: seq<Charge>, charge: Charge)
    ensures Sum(owed + [charge]) == Sum(owed) + charge.change
  {
    assert (owed + [charge])[..|owed|] == owed;
  }

  lemma {:induction false} SumWithout(owed: seq<Charge>, i: nat)
    requires i < |owed|
    ensures Sum(Without(owed, i)) == Sum(owed) - owed[i].change
  {
    var n := |owed| - 1;
    if i < n {
      SumWithout(owed[..n], i);
      assert Without(owed, i)[..n - 1] == Without(owed[..n], i);
    } else {
      assert Without(owed, i) == owed[..n];
    }
  }

  /** The data noted for one of the two write counters. */
  function Noted(notes: seq<Note>, again: bool): nat {
    if |notes| == 0 then 0
    else Noted(notes[..|notes| - 1], again) + if notes[|notes| - 1].again == again then notes[|notes| - 1].len else 0
  }

  lemma NotedAppend(notes: seq<Note>, note: Note, again: bool)
    ensures Noted(notes + [note], again) == Noted(notes, again) + if note.again == again then note.len else 0
  {
    assert (notes + [note])[..|notes|] == notes;
  }

  lemma {:induction false} NotedWithout(notes: seq<Note>, i: nat, again: bool)
    requires i < |notes|
    ensures Noted(Without(notes, i), again) == Noted(notes, again) - if notes[i].again == again then notes[i].len else 0
  {
    var n := |notes| - 1;
    if i < n {
      NotedWithout(notes[..n], i, again);
      assert Without(notes, i)[..n - 1] == Without(notes[..n], i);
    } else {
      assert Without(notes, i) == notes[..n];
    }
  }

  /** The data a slot cache holds. */
  ghost function Held(lens: map<Pubkey, U64>): nat
    decreases |lens|
  {
    if lens == map[] then 0
    else
      var k :| k in lens;
      assert |lens - {k}| < |lens| by { Fewer(lens, k); }
      lens[k] + Held(lens - {k})
  }

  lemma Fewer(lens: map<Pubkey, U64>, k: Pubkey)
    requires k in lens
    ensures |lens - {k}| < |lens|
  {
    assert lens.Keys == (lens - {k}).Keys + {k} && |lens| == |lens.Keys| && |lens - {k}| == |(lens - {k}).Keys|;
  }

  lemma {:induction false} HeldWithout(lens: map<Pubkey, U64>, k: Pubkey)
    requires k in lens
    ensures Held(lens) == lens[k] + Held(lens - {k})
    decreases |lens|
  {
    var j :| j in lens && Held(lens) == lens[j] + Held(lens - {j});
    if j != k {
      Fewer(lens, j);
      Fewer(lens, k);
      HeldWithout(lens - {j}, k);
      HeldWithout(lens - {k}, j);
      assert lens - {j} - {k} == lens - {k} - {j};
    }
  }

  lemma HeldUpdate(lens: map<Pubkey, U64>, k: Pubkey, len: U64)
    ensures Held(lens[k := len]) == Held(lens) + len - Before(lens, k)
  {
    HeldWithout(lens[k := len], k);
    assert lens[k := len] - {k} == lens - {k};
    if k in lens { HeldWithout(lens, k); } else { assert lens - {k} == lens; }
  }

  /** The sizes of the slot caches not dropped, and the data they hold. */
  function Sizes(caches: seq<SlotCache>): nat {
    if |caches| == 0 then 0
    else Sizes(caches[..|caches| - 1]) + if caches[|caches| - 1].dropped then 0 else caches[|caches| - 1].size
  }

  ghost function AllHeld(caches: seq<SlotCache>): nat {
    if |caches| == 0 then 0
    else AllHeld(caches[..|caches| - 1]) + if caches[|caches| - 1].dropped then 0 else Held(caches[|caches| - 1].lens)
  }

  lemma {:induction false} SizesUpdate(caches: seq<SlotCache>, c: nat, cache: SlotCache)
    requires c < |caches|
    ensures Sizes(caches[c := cache]) == Sizes(caches) + (if cache.dropped then 0 else cache.size)
                                         - if caches[c].dropped then 0 else caches[c].size
  {
    var n := |caches| - 1;
    if c < n {
      SizesUpdate(caches[..n], c, cache);
      assert caches[c := cache][..n] == caches[..n][c := cache];
    } else {
      assert caches[c := cache][..n] == caches[..n];
    }
  }

  lemma {:induction false} AllHeldUpdate(caches: seq<SlotCache>, c: nat, cache: SlotCache)
    requires c < |caches| && !cache.dropped && !caches[c].dropped
    ensures AllHeld(caches[c := cache]) == AllHeld(caches) + Held(cache.lens) - Held(caches[c].lens)
  {
    var n := |caches| - 1;
    if c < n {
      AllHeldUpdate(caches[..n], c, cache);
      assert caches[c := cache][..n] == caches[..n][c := cache];
    } else {
      assert caches[c := cache][..n] == caches[..n];
    }
  }

  lemma {:induction false} AllHeldAtLeast(caches: seq<SlotCache>, c: nat)
    requires c < |caches| && !caches[c].dropped
    ensures Held(caches[c].lens) <= AllHeld(caches)
  {
    if c < |caches| - 1 { AllHeldAtLeast(caches[..|caches| - 1], c); }
  }

  // ---------------------------------------------------------------- the invariant

  /** The size and the additions under way make up the data held, up to wrapping. */
  ghost predicate Sized(cache: SlotCache) { Congruent(cache.size + Sum(cache.owed), Held(cache.lens)) }

  /** The write counters and the notes under way make up all that was written, up to wrapping. */
  ghost predicate Written(cache: SlotCache) {
    && Congruent(cache.unique + Noted(cache.unnoted, false), cache.first)
    && Congruent(cache.same + Noted(cache.unnoted, true), cache.repeated)
  }

  ghost predicate Counted(cache: SlotCache, c: nat) {
    && Sized(cache) && Written(cache)
    && (cache.dropped ==> cache.owed == [] && cache.unnoted == [])
    && forall i :: 0 <= i < |cache.owed| ==> cache.owed[i].cache == c
  }

  ghost predicate Inv(s: State) {
    && (forall c :: 0 <= c < |s.caches| ==> Counted(s.caches[c], c))
    && (forall slot :: slot in s.index ==> s.index[slot] < |s.caches| && !s.caches[s.index[slot]].dropped)
    && Congruent(s.total + Sum(s.owed), Sizes(s.caches))
  }

  lemma PutSized(cache: SlotCache, c: nat, key: Pubkey, len: U64)
    requires Sized(cache)
    ensures Sized(AfterPut(cache, c, key, len))
  {
    var after := AfterPut(cache, c, key, len);
    HeldUpdate(cache.lens, key, len);
    if Due(cache.lens, c, key, len) == [] {
      assert after.owed == cache.owed;
    } else {
      SumAppend(cache.owed, Charge(c, len - Before(cache.lens, key)));
    }
    CongruentShift(cache.size + Sum(cache.owed), Held(cache.lens), after.size + Sum(after.owed), Held(after.lens));
  }

  lemma PutWritten(cache: SlotCache, c: nat, key: Pubkey, len: U64)
    requires Written(cache)
    ensures Written(AfterPut(cache, c, key, len))
  {
    var after, note := AfterPut(cache, c, key, len), Note(len, key in cache.lens);
    NotedAppend(cache.unnoted, note, false);
    NotedAppend(cache.unnoted, note, true);
    CongruentShift(cache.unique + Noted(cache.unnoted, false), cache.first, after.unique + Noted(after.unnoted, false), after.first);
    CongruentShift(cache.same + Noted(cache.unnoted, true), cache.repeated, after.same + Noted(after.unnoted, true), after.repeated);
  }

  lemma PutCounted(cache: SlotCache, c: nat, key: Pubkey, len: U64)
    requires Counted(cache, c) && !cache.dropped
    ensures Counted(AfterPut(cache, c, key, len), c)
  {
    PutSized(cache, c, key, len);
    PutWritten(cache, c, key, len);
  }

  lemma SettleSized(cache: SlotCache, i: nat)
    requires Sized(cache) && i < |cache.owed|
    ensures Sized(AfterSettle(cache, i))
  {
    var due, sum := cache.owed[i].change, Sum(cache.owed);
    SumWithout(cache.owed, i);
    CongruentShift(cache.size + sum, Held(cache.lens), (cache.size + due) + (sum - due), Held(cache.lens));
    WrappedCongruent(cache.size + due, sum - due, Held(cache.lens));
  }

  lemma SettleCounted(cache: SlotCache, c: nat, i: nat)
    requires Counted(cache, c) && i < |cache.owed|
    ensures Counted(AfterSettle(cache, i), c)
  {
    SettleSized(cache, i);
  }

  /** One of the two write counters takes a note. */
  lemma CounterTakes(n: U64, notes: seq<Note>, i: nat, again: bool, all: nat)
    requires i < |notes| && Congruent(n + Noted(notes, again), all)
    ensures Congruent((if notes[i].again == again then Wrapped(n + notes[i].len) else n) + Noted(Without(notes, i), again), all)
  {
    var len, sum := notes[i].len, Noted(notes, again);
    NotedWithout(notes, i, again);
    if notes[i].again == again {
      CongruentShift(n + sum, all, (n + len) + (sum - len), all);
      WrappedCongruent(n + len, sum - len, all);
    }
  }

  lemma NoteCounted(cache: SlotCache, c: nat, i: nat)
    requires Counted(cache, c) && i < |cache.unnoted|
    ensures Counted(AfterNote(cache, i), c)
  {
    CounterTakes(cache.unique, cache.unnoted, i, false, cache.first);
    CounterTakes(cache.same, cache.unnoted, i, true, cache.repeated);
  }

  /** Replacing one slot cache by a counted one. */
  lemma CachesKeep(s: State, c: nat, cache: SlotCache)
    requires Inv(s) && c < |s.caches| && Counted(cache, c) && (cache.dropped ==> Unreferenced(s, c))
    ensures var caches := s.caches[c := cache];
            && (forall d :: 0 <= d < |caches| ==> Counted(caches[d], d))
            && (forall slot :: slot in s.index ==> s.index[slot] < |caches| && !caches[s.index[slot]].dropped)
    ensures Sizes(s.caches[c := cache]) == Sizes(s.caches) + (if cache.dropped then 0 else cache.size)
                                           - if s.caches[c].dropped then 0 else s.caches[c].size
  {
    SizesUpdate(s.caches, c, cache);
  }

  lemma OpenKeeps(s: State, slot: Slot)
    requires Inv(s) && Enabled(s, Open(slot))
    ensures Inv(Apply(s, Open(slot)))
  {
    assert (s.caches + [MADE])[..|s.caches|] == s.caches;
    assert Counted(MADE, |s.caches|) by { CongruentBy(0, 0, 0); }
  }

  lemma PutKeeps(s: State, c: nat, key: Pubkey, len: U64)
    requires Inv(s) && Enabled(s, Put(c, key, len))
    ensures Inv(Apply(s, Put(c, key, len)))
  {
    PutCounted(s.caches[c], c, key, len);
    CachesKeep(s, c, AfterPut(s.caches[c], c, key, len));
  }

  lemma NoteKeeps(s: State, c: nat, i: nat)
    requires Inv(s) && Enabled(s, NoteWrite(c, i))
    ensures Inv(Apply(s, NoteWrite(c, i)))
  {
    NoteCounted(s.caches[c], c, i);
    CachesKeep(s, c, AfterNote(s.caches[c], i));
  }

  lemma SettleSizeKeeps(s: State, c: nat, i: nat)
    requires Inv(s) && Enabled(s, SettleSize(c, i))
    ensures Inv(Apply(s, SettleSize(c, i)))
  {
    var cache, charge := s.caches[c], s.caches[c].owed[i];
    SettleCounted(cache, c, i);
    CachesKeep(s, c, AfterSettle(cache, i));
    SumAppend(s.owed, charge);
    SettledCongruent(s.total + Sum(s.owed), Sizes(s.caches), cache.size, charge.change);
  }

  lemma SettledCongruent(total: int, sizes: int, size: U64, change: int)
    requires Congruent(total, sizes)
    ensures Congruent(total + change, sizes + Wrapped(size + change) - size)
  {
    var k :| total == sizes + Words(k);
    CongruentBy(total + change, sizes + Wrapped(size + change) - size, k + (size + change) / WORD);
  }

  lemma SettleTotalKeeps(s: State, i: nat)
    requires Inv(s) && Enabled(s, SettleTotal(i))
    ensures Inv(Apply(s, SettleTotal(i)))
  {
    SumWithout(s.owed, i);
    var change := s.owed[i].change;
    WrappedCongruent(s.total + change, Sum(s.owed) - change, Sizes(s.caches));
  }

  lemma DropKeeps(s: State, c: nat)
    requires Inv(s) && Enabled(s, DropCache(c))
    ensures Inv(Apply(s, DropCache(c)))
  {
    var size := s.caches[c].size;
    CachesKeep(s, c, s.caches[c].(dropped := true));
    CongruentShift(s.total + Sum(s.owed), Sizes(s.caches), s.total - size + Sum(s.owed), Sizes(s.caches) - size);
    WrappedCongruent(s.total - size, Sum(s.owed), Sizes(s.caches) - size);
  }

  lemma StepKeeps(s: State, step: Step)
    requires Inv(s) && Enabled(s, step)
    ensures Inv(Apply(s, step))
  {
    match step
    case Open(slot) => OpenKeeps(s, slot);
    case Put(c, key, len) => PutKeeps(s, c, key, len);
    case SettleSize(c, i) => SettleSizeKeeps(s, c, i);
    case SettleTotal(i) => SettleTotalKeeps(s, i);
    case NoteWrite(c, i) => NoteKeeps(s, c, i);
    case RemoveSlot(_) =>
    case DropCache(c) => DropKeeps(s, c);
  }

  // ---------------------------------------------------------------- whole runs

  ghost predicate Run(s: State, steps: seq<Step>)
    decreases |steps|
  {
    steps == [] || (Enabled(s, steps[0]) && Run(Apply(s, steps[0]), steps[1..]))
  }

  ghost function After(s: State, steps: seq<Step>): State
    requires Run(s, steps)
    decreases |steps|
  {
    if steps == [] then s else After(Apply(s, steps[0]), steps[1..])
  }

  lemma {:induction false} RunKeeps(s: State, steps: seq<Step>)
    requires Inv(s) && Run(s, steps)
    ensures Inv(After(s, steps))
    decreases |steps|
  {
    if steps != [] {
      StepKeeps(s, steps[0]);
      RunKeeps(Apply(s, steps[0]), steps[1..]);
    }
  }

  lemma EmptyInv()
    ensures Inv(EMPTY)
  {
    CongruentBy(0, 0, 0);
  }

  ghost predicate CacheQuiet(cache: SlotCache) { cache.owed == [] && cache.unnoted == [] }

  /** No store is under way. */
  ghost predicate Quiet(s: State) {
    s.owed == [] && forall c :: 0 <= c < |s.caches| ==> CacheQuiet(s.caches[c])
  }

  /** What is held and what was written can be counted in 64 bits. */
  ghost predicate Fits(s: State) {
    AllHeld(s.caches) < WORD && forall c :: 0 <= c < |s.caches| ==> s.caches[c].first + s.caches[c].repeated < WORD
  }

  /** The counters say what they are for. */
  ghost predicate CacheExact(cache: SlotCache) {
    && (!cache.dropped ==> cache.size == Held(cache.lens))
    && cache.unique == cache.first && cache.same == cache.repeated
  }

  ghost predicate Exact(s: State) {
    s.total == AllHeld(s.caches) && forall c :: 0 <= c < |s.caches| ==> CacheExact(s.caches[c])
  }

  lemma QuietCacheExact(cache: SlotCache, c: nat)
    requires Counted(cache, c) && CacheQuiet(cache) && cache.first + cache.repeated < WORD && (cache.dropped || Held(cache.lens) < WORD)
    ensures CacheExact(cache)
  {
    if !cache.dropped { CongruentSmall(cache.size, Held(cache.lens)); }
    CongruentSmall(cache.unique, cache.first);
    CongruentSmall(cache.same, cache.repeated);
  }

  lemma {:induction false} ExactSizes(caches: seq<SlotCache>)
    requires forall c :: 0 <= c < |caches| ==> CacheExact(caches[c])
    ensures Sizes(caches) == AllHeld(caches)
  {
    if |caches| > 0 { ExactSizes(caches[..|caches| - 1]); }
  }

  lemma ExactWhenQuiet(s: State)
    requires Inv(s) && Quiet(s) && Fits(s)
    ensures Exact(s)
  {
    forall c | 0 <= c < |s.caches| ensures CacheExact(s.caches[c]) {
      if !s.caches[c].dropped { AllHeldAtLeast(s.caches, c); }
      QuietCacheExact(s.caches[c], c);
    }
    ExactSizes(s.caches);
    CongruentSmall(s.total, Sizes(s.caches));
  }

  /**
    Whatever the interleaving, once no store is under way every slot's size is the data it holds, the
    total is the data of all slot caches still referenced, in the map or not, and the two write
    counters of a slot, whose sum is `total_bytes`, are all that was ever written to it.
   */
  lemma QuietIsExact(steps: seq<Step>)
    requires Run(EMPTY, steps) && Quiet(After(EMPTY, steps)) && Fits(After(EMPTY, steps))
    ensures Exact(After(EMPTY, steps))
  {
    EmptyInv();
    RunKeeps(EMPTY, steps);
    ExactWhenQuiet(After(EMPTY, steps));
  }

  /** So when everything has been dropped, nothing is left on the books. */
  lemma AllDroppedIsZero(steps: seq<Step>)
    requires Run(EMPTY, steps)
    requires var s := After(EMPTY, steps); Quiet(s) && forall c :: 0 <= c < |s.caches| ==> s.caches[c].dropped
    ensures After(EMPTY, steps).total == 0
  {
    var s := After(EMPTY, steps);
    EmptyInv();
    RunKeeps(EMPTY, steps);
    NothingSized(s.caches);
    CongruentSmall(s.total, Sizes(s.caches));
  }

  lemma {:induction false} NothingSized(caches: seq<SlotCache>)
    requires forall c :: 0 <= c < |caches| ==> caches[c].dropped
    ensures Sizes(caches) == 0
  {
    if |caches| > 0 { NothingSized(caches[..|caches| - 1]); }
  }

  // ---------------------------------------------------------------- removing a slot

  /** No two slots share a slot cache. */
  ghost predicate Apart(index: map<Slot, nat>, made: nat) {
    && (forall a, b :: a in index && b in index && index[a] == index[b] ==> a == b)
    && (forall a :: a in index ==> index[a] < made)
  }

  lemma {:induction false} RunKeepsApart(s: State, steps: seq<Step>)
    requires Apart(s.index, |s.caches|) && Run(s, steps)
    ensures Apart(After(s, steps).index, |After(s, steps).caches|)
    decreases |steps|
  {
    if steps != [] { RunKeepsApart(Apply(s, steps[0]), steps[1..]); }
  }

  /** In every run: once a slot is removed, its cache can be dropped as soon as no store to it is under way. */
  lemma RemovedCanBeDropped(steps: seq<Step>, slot: Slot)
    requires Run(EMPTY, steps)
    ensures var s := After(EMPTY, steps);
            slot in s.index && s.owed == [] && s.index[slot] < |s.caches| && CacheQuiet(s.caches[s.index[slot]]) ==>
              var t := Apply(s, RemoveSlot(slot)); slot !in t.index && Enabled(t, DropCache(s.index[slot]))
  {
    EmptyInv();
    RunKeeps(EMPTY, steps);
    RunKeepsApart(EMPTY, steps);
  }
}
