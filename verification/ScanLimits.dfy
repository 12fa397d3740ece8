/**
  Why the guarantees and exceptions of scan stability are there: runs in which a scan does not keep
  what it saw, and how far a clean may go.
 */
module ScanLimits {
  import opened Wrappers
  import opened SlotLists
  import opened SlotEdits
  import opened ScanProtocol
  import opened DeadPubkeys
  import opened ScanStability

  /** Some alive root the scan sees, and a later one it does not see that the clean reaches. */
  ghost predicate Endangered(roots: set<Slot>, r: Slot, m: Slot) {
    exists a, b :: a in roots && b in roots && a <= r < b <= m
  }

  /** A clean up to `m` is invisible to a scan of root `r`, whatever the list, exactly when nothing is endangered. */
  lemma CleanBoundIsExact(roots: set<Slot>, maxRoot: Slot, r: Slot, m: Slot)
    ensures (forall list :: Latest(View({}, Some(r)), roots, Cleaned(roots, maxRoot, list, Some(m))) == Latest(View({}, Some(r)), roots, list))
            <==> !Endangered(roots, r, m)
  {
    var view := View({}, Some(r));
    if a, b :| a in roots && b in roots && a <= r < b <= m {
      var older, newer := Entry(a, Info(false, false, 0)), Entry(b, Info(false, false, 1));
      CleanTakesOlder(roots, maxRoot, Some(m), r, older, newer);
      var list := [older, newer];
      assert Latest(view, roots, Cleaned(roots, maxRoot, list, Some(m))) != Latest(view, roots, list);
    } else {
      forall list ensures Latest(view, roots, Cleaned(roots, maxRoot, list, Some(m))) == Latest(view, roots, list) {
        NotEndangered(roots, r, m, list);
      }
    }
  }

  lemma NotEndangered(roots: set<Slot>, r: Slot, m: Slot, list: SlotList)
    requires !Endangered(roots, r, m)
    ensures var view := View({}, Some(r));
            Latest(view, roots, Kept(list, m, NewestRoot(roots, list, Some(m)))) == Latest(view, roots, list)
  {
    var view, newest := View({}, Some(r)), NewestRoot(roots, list, Some(m));
    PurgeSeen(view, roots, list, m, newest);
  }

  /** With such a pair of versions, the one the scan sees goes and it sees nothing. */
  lemma CleanTakesOlder(roots: set<Slot>, maxRoot: Slot, bound: Option<Slot>, r: Slot, older: Entry, newer: Entry)
    requires older.slot in roots && newer.slot in roots && !older.info.cached
    requires older.slot <= r < newer.slot <= CleanBound(bound, maxRoot)
    ensures var view := View({}, Some(r));
            && Latest(view, roots, [older, newer]) == Some(older)
            && Cleaned(roots, maxRoot, [older, newer], bound) == [newer]
            && Latest(view, roots, [newer]) == None
  {
    var view, list, m := View({}, Some(r)), [older, newer], newer.slot;
    assert list[..1] == [older] && [older][..0] == [] && [newer][..0] == [];
    assert Latest(view, roots, [older]) == Some(older);
    assert NewestRoot(roots, [older], bound) == older.slot || older.slot == 0;
    assert NewestRoot(roots, list, bound) == m;
    assert Kept([older], CleanBound(bound, maxRoot), m) == [];
  }

  /**
    A clean given no bound reads the greatest root when it purges, not when it starts. Let a scan
    begin after the clean started, add a root after that, and the scan loses the version it saw.
   */
  lemma UnboundedCleanBreaksScan() returns (s: State, before: seq<Step>, after: seq<Step>, id: nat, key: Key)
    ensures Inv(s) && Run(CleansWithoutBound, s, before) && EndScan(id) !in after
    ensures var begun := After(CleansWithoutBound, s, before);
            Run(CleansWithoutBound, begun, after) && BrokenScan(begun, After(CleansWithoutBound, begun, after), id, key)
  {
    id, key := 7, 0;
    var begun, ended;
    s, begun := CleanThenScan();
    before := [BeginClean(0, None), BeginScan(7, 0, {})];
    after := [WriteAccount(0, 2, Info(false, false, 1)), AddRoot(2), CleanKey(0, 0)];
    ended := WriteRootPurge(begun);
    VersionGone(begun, ended);
  }

  /** The scan runs on an alive root and a bank that is not removed, and no longer sees what it saw. */
  ghost predicate BrokenScan(begun: State, ended: State, id: nat, key: Key) {
    && id in begun.scans && id in ended.scans && begun.scans[id].root in begun.roots && ended.removed == {}
    && SeenBy(ended, id, key) != SeenBy(begun, id, key)
  }

  lemma VersionGone(begun: State, ended: State)
    requires begun.scans == ended.scans == map[7 := Scan(0, 1, {})] && begun.roots == {1} && ended.roots == {1, 2}
    requires begun.index == map[0 := [Entry(1, Info(false, false, 0))]] && ended.index == map[0 := [Entry(2, Info(false, false, 1))]]
    requires ended.removed == {}
    ensures BrokenScan(begun, ended, 7, 0)
  {
    LatestOfOne(View({}, Some(1)), begun.roots, Entry(1, Info(false, false, 0)));
    CleanTakesOlder(ended.roots, 2, None, 1, Entry(1, Info(false, false, 0)), Entry(2, Info(false, false, 1)));
  }

  /** The clean starts, unbounded, and then the scan begins. */
  lemma CleanThenScan() returns (s: State, s2: State)
    ensures s == State({1}, {1}, 2, map[0 := [Entry(1, Info(false, false, 0))]], map[], map[], map[], map[], {}) && Inv(s)
    ensures s2 == s.(cleans := map[0 := None], ongoing := map[1 := 1], scans := map[7 := Scan(0, 1, {})])
    ensures var steps := [BeginClean(0, None), BeginScan(7, 0, {})];
            Run(CleansWithoutBound, s, steps) && After(CleansWithoutBound, s, steps) == s2
  {
    OneIsUnique(Entry(1, Info(false, false, 0)));
    s := State({1}, {1}, 2, map[0 := [Entry(1, Info(false, false, 0))]], map[], map[], map[], map[], {});
    QuietInv(s);
    var a, b := BeginClean(0, None), BeginScan(7, 0, {});
    var s1 := Apply(s, a);
    assert s1 == s.(cleans := map[0 := None]);
    s2 := Apply(s1, b);
    assert Registered(map[], 1) == map[1 := 1];
    assert [b] + [] == [b] && [a] + [b] == [a, b];
    RunCons(CleansWithoutBound, s1, b, []);
    RunCons(CleansWithoutBound, s, a, [b]);
  }

  /** A version is written to a new slot, the slot is rooted, and the clean reaches the pubkey. */
  lemma WriteRootPurge(s2: State) returns (s5: State)
    requires s2 == State({1}, {1}, 2, map[0 := [Entry(1, Info(false, false, 0))]], map[1 := 1], map[7 := Scan(0, 1, {})], map[0 := None], map[], {})
    ensures s5 == s2.(roots := {1, 2}, rooted := {1, 2}, maxExclusive := 3, index := map[0 := [Entry(2, Info(false, false, 1))]])
    ensures var steps := [WriteAccount(0, 2, Info(false, false, 1)), AddRoot(2), CleanKey(0, 0)];
            Run(CleansWithoutBound, s2, steps) && After(CleansWithoutBound, s2, steps) == s5
  {
    var c, d, e := WriteAccount(0, 2, Info(false, false, 1)), AddRoot(2), CleanKey(0, 0);
    var s3 := SecondVersion(s2);
    var s4 := SecondRoot(s3);
    s5 := FirstVersionGoes(s4);
    RunOfThree(CleansWithoutBound, s2, s3, s4, s5, c, d, e);
  }

  /** The step may be taken in `s` and leads to `s'`. */
  ghost predicate Leads(g: Guarantees, s: State, step: Step, s': State) {
    Enabled(s, step) && Disciplined(g, s, step) && s' == Apply(s, step)
  }

  lemma RunOfThree(g: Guarantees, s: State, s1: State, s2: State, s3: State, a: Step, b: Step, c: Step)
    requires Leads(g, s, a, s1) && Leads(g, s1, b, s2) && Leads(g, s2, c, s3)
    ensures Run(g, s, [a, b, c]) && After(g, s, [a, b, c]) == s3
  {
    assert [c] + [] == [c] && [b] + [c] == [b, c] && [a] + [b, c] == [a, b, c];
    RunCons(g, s2, c, []);
    RunCons(g, s1, b, [c]);
    RunCons(g, s, a, [b, c]);
  }

  lemma SecondVersion(s: State) returns (s': State)
    requires s.index == map[0 := [Entry(1, Info(false, false, 0))]] && s.rooted == {1} && s.scans == map[7 := Scan(0, 1, {})]
    ensures Leads(CleansWithoutBound, s, WriteAccount(0, 2, Info(false, false, 1)), s')
    ensures s' == s.(index := map[0 := [Entry(1, Info(false, false, 0)), Entry(2, Info(false, false, 1))]])
  {
    var older, newer := Entry(1, Info(false, false, 0)), Entry(2, Info(false, false, 1));
    s' := Apply(s, WriteAccount(0, 2, Info(false, false, 1)));
    assert ListOf(s, 0) == [older] && !HasSlot([older], 2);
    assert Written([older], newer) == [older] + [newer] == [older, newer];
    assert s.index[0 := [older, newer]] == map[0 := [older, newer]];
  }

  lemma SecondRoot(s: State) returns (s': State)
    requires s.roots == s.rooted == {1} && s.maxExclusive == 2
    ensures Leads(CleansWithoutBound, s, AddRoot(2), s')
    ensures s' == s.(roots := {1, 2}, rooted := {1, 2}, maxExclusive := 3)
  {
    s' := Apply(s, AddRoot(2));
    assert {1} + {2} == {1, 2};
  }

  lemma FirstVersionGoes(s: State) returns (s': State)
    requires s.index == map[0 := [Entry(1, Info(false, false, 0)), Entry(2, Info(false, false, 1))]]
    requires s.roots == {1, 2} && s.maxExclusive == 3 && s.cleans == map[0 := None]
    ensures Leads(CleansWithoutBound, s, CleanKey(0, 0), s')
    ensures s' == s.(index := map[0 := [Entry(2, Info(false, false, 1))]])
  {
    var older, newer := Entry(1, Info(false, false, 0)), Entry(2, Info(false, false, 1));
    CleanTakesOlder(s.roots, 2, None, 1, older, newer);
    s' := Apply(s, CleanKey(0, 0));
    assert ListOf(s, 0) == [older, newer];
    assert s.index[0 := [newer]] == map[0 := [newer]];
  }

  lemma LatestOfOne(view: View, roots: set<Slot>, e: Entry)
    requires Visible(view, roots, e.slot)
    ensures Latest(view, roots, [e]) == Some(e)
  {
    assert [e][..0] == [];
  }

  /** A scan that begins before there is any root, of a bank that does not go back to slot 0, sees slot 0 appear. */
  lemma RootlessScanIsUnstable() returns (s: State, steps: seq<Step>, id: nat, key: Key)
    ensures Inv(s) && Run(All, s, steps) && id in s.scans && EndScan(id) !in steps && Revealed(s, steps, id, key)
    ensures var s' := After(All, s, steps); id in s'.scans && s'.removed == {} && SeenBy(s', id, key) != SeenBy(s, id, key)
  {
    var entry := Entry(0, Info(false, false, 0));
    id, key, steps := 7, 0, [AddRoot(0)];
    var quiet := State({}, {}, 0, map[key := [entry]], map[], map[], map[], map[], {});
    OneIsUnique(entry);
    QuietInv(quiet);
    s := Apply(quiet, BeginScan(id, 0, {}));
    StepKeeps(quiet, BeginScan(id, 0, {}));
    RunCons(All, s, AddRoot(0), []);
    assert [AddRoot(0)] + [] == steps && [entry][0].slot == 0;
    ScanSeesExactly(s, steps, id, key);
  }

  lemma OneIsUnique(e: Entry)
    ensures Unique([e])
  {
    assert [e][..0] == [];
  }

  /** A pubkey whose only version, at root 3, has no lamports: a scan at root 5 sees it until a clean up to 5 purges it. */
  lemma ZeroLamportsAreTaken() returns (s: State, steps: seq<Step>, id: nat, key: Key)
    ensures Inv(s) && Run(All, s, steps) && id in s.scans && EndScan(id) !in steps && s.scans[id].root in s.roots
    ensures var s' := After(All, s, steps);
            id in s'.scans && s'.removed == {} && SeenBy(s, id, key) == Some(Version(0, true)) && SeenBy(s', id, key) == None
  {
    var clean, find, purge := BeginClean(1, Some(5)), FindDead(2, 1, 0), PurgeDead(2);
    id, key, steps := 7, 0, [clean, find, purge];
    s := ScanAtFive();
    var s1, s2, s3 := CleanFindPurge(s);
    RunOfThree(All, s, s1, s2, s3, clean, find, purge);
  }

  lemma ScanAtFive() returns (s: State)
    ensures s == State({3, 5}, {3, 5}, 6, map[0 := [Entry(3, Info(false, true, 0))]], map[5 := 1], map[7 := Scan(0, 5, {})], map[], map[], {})
    ensures Inv(s) && SeenBy(s, 7, 0) == Some(Version(0, true))
  {
    var entry := Entry(3, Info(false, true, 0));
    var quiet := State({3, 5}, {3, 5}, 6, map[0 := [entry]], map[], map[], map[], map[], {});
    OneIsUnique(entry);
    QuietInv(quiet);
    StepKeeps(quiet, BeginScan(7, 0, {}));
    s := Apply(quiet, BeginScan(7, 0, {}));
    assert Registered(map[], 5) == map[5 := 1];
    LatestOfOne(View({}, Some(5)), s.roots, entry);
  }

  lemma CleanFindPurge(s: State) returns (s1: State, s2: State, s3: State)
    requires s.roots == {3, 5} && s.maxExclusive == 6 && s.index == map[0 := [Entry(3, Info(false, true, 0))]]
    requires s.ongoing == map[5 := 1] && s.cleans == map[] && s.dead == map[]
    ensures Leads(All, s, BeginClean(1, Some(5)), s1) && Leads(All, s1, FindDead(2, 1, 0), s2) && Leads(All, s2, PurgeDead(2), s3)
    ensures s3 == s.(cleans := s3.cleans, dead := s3.dead, index := map[])
  {
    var entry := Entry(3, Info(false, true, 0));
    s1 := Apply(s, BeginClean(1, Some(5)));
    assert 5 in s.ongoing && MinRoot(s.ongoing) == Some(5);
    LatestOfOne(View({}, Some(5)), s.roots, entry);
    s2 := Apply(s1, FindDead(2, 1, 0));
    assert entry in [entry] && s2.dead[2].slots == {3};
    s3 := Apply(s2, PurgeDead(2));
    assert [entry][..0] == [] && Without([entry], {3}) == [];
  }
}
