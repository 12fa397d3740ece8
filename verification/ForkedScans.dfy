/**
  Banks and the index together: banks are made, squashed root by root, and scanned, while the index is
  written, cleaned, flushed, shrunk and purged. What a scan needs of its bank's ancestors, and what `add_root`
  asserts, holds at every point of every run, so scans of banks are stable.
 */
module ForkedScans {
  import opened Wrappers
  import opened SlotLists
  import E = SlotEdits
  import P = ScanProtocol
  import D = DeadPubkeys
  import T = ScanStability
  import B = BankForks

  datatype State = State(index: P.State, forks: B.Forks)

  datatype Step =
    | Fork(step: B.Step)
    | ScanBank(scan: nat, slot: Slot, bank: P.BankId)
    | Index(other: P.Step)

  /** Roots are added by squashes only, so both sides agree on them. */
  ghost predicate Coupled(s: State) {
    && D.Inv(s.index) && B.Inv(s.forks)
    && s.index.rooted == s.forks.rooted && s.index.maxExclusive == B.MaxRoot(s.forks) + 1
  }

  ghost predicate Enabled(s: State, step: Step) {
    match step
    case Fork(b) => B.Enabled(s.forks, b)
    case ScanBank(id, slot, _) => slot in s.forks.parentOf && id !in s.index.scans
    case Index(p) => !p.BeginScan? && !p.AddRoot? && P.Enabled(s.index, p) && P.Disciplined(P.All, s.index, p)
  }

  /** The step the index takes, if any. */
  ghost function IndexStep(s: State, step: Step): Option<P.Step>
    requires Coupled(s) && Enabled(s, step)
  {
    match step
    case Fork(b) => if b.RootNext? then Some(P.AddRoot(s.forks.squashing.value.pending[0])) else None
    case ScanBank(id, slot, bank) => Some(P.BeginScan(id, bank, s.forks.ancestors[slot]))
    case Index(p) => Some(p)
  }

  /** Roots come in order, and a scanned bank's ancestors up to the greatest root are rooted, even in the middle of a squash. */
  lemma IndexStepIsDisciplined(s: State, step: Step)
    requires Coupled(s) && Enabled(s, step) && IndexStep(s, step).Some?
    ensures var p := IndexStep(s, step).value; P.Enabled(s.index, p) && P.Disciplined(P.All, s.index, p)
  {
    match step
    case Fork(_) => NextRootIsEnabled(s.index, s.forks);
    case ScanBank(id, slot, bank) => BankScanIsDisciplined(s.index, s.forks, id, slot, bank);
    case Index(_) =>
  }

  lemma NextRootIsEnabled(index: P.State, forks: B.Forks)
    requires B.Inv(forks) && B.Enabled(forks, B.RootNext) && index.maxExclusive == B.MaxRoot(forks) + 1
    ensures P.Enabled(index, P.AddRoot(forks.squashing.value.pending[0]))
  {
    B.RootsComeInOrder(forks);
  }

  lemma BankScanIsDisciplined(index: P.State, forks: B.Forks, id: nat, slot: Slot, bank: P.BankId)
    requires B.Inv(forks) && slot in forks.parentOf
    requires index.rooted == forks.rooted && index.maxExclusive == B.MaxRoot(forks) + 1
    ensures P.Disciplined(P.All, index, P.BeginScan(id, bank, forks.ancestors[slot]))
  {
    B.MaxRootTellsDescent(forks, slot);
    RootedBelowIsDisciplined(index, B.MaxRoot(forks), forks.ancestors[slot], id, bank);
  }

  lemma RootedBelowIsDisciplined(index: P.State, root: Slot, ancestors: set<Slot>, id: nat, bank: P.BankId)
    requires index.maxExclusive == root + 1
    requires root in ancestors ==> forall a :: a in ancestors && a <= root ==> a in index.rooted
    ensures P.Disciplined(P.All, index, P.BeginScan(id, bank, ancestors))
  {
  }

  ghost function Apply(s: State, step: Step): State
    requires Coupled(s) && Enabled(s, step)
  {
    var forks := if step.Fork? then B.Apply(s.forks, step.step) else s.forks;
    match IndexStep(s, step)
    case None => State(s.index, forks)
    case Some(p) =>
      IndexStepIsDisciplined(s, step);
      State(P.Apply(s.index, p), forks)
  }

  lemma StepKeeps(s: State, step: Step)
    requires Coupled(s) && Enabled(s, step)
    ensures Coupled(Apply(s, step))
  {
    if IndexStep(s, step).Some? {
      IndexStepIsDisciplined(s, step);
      D.StepKeeps(s.index, IndexStep(s, step).value);
      RootsOf(s.index, IndexStep(s, step).value);
    }
    if step.Fork? {
      B.StepKeeps(s.forks, step.step);
      RootsOfForks(s.forks, step.step);
    }
  }

  lemma RootsOf(s: P.State, p: P.Step)
    requires P.Enabled(s, p)
    ensures var t := P.Apply(s, p);
            if p.AddRoot? then t.rooted == s.rooted + {p.slot} && t.maxExclusive == p.slot + 1
            else t.rooted == s.rooted && t.maxExclusive == s.maxExclusive
  {
  }

  lemma RootsOfForks(f: B.Forks, b: B.Step)
    requires B.Inv(f) && B.Enabled(f, b)
    ensures var g := B.Apply(f, b);
            if b.RootNext? then g.rooted == f.rooted + {f.squashing.value.pending[0]} && B.MaxRoot(g) == f.squashing.value.pending[0]
            else g.rooted == f.rooted && B.MaxRoot(g) == B.MaxRoot(f)
  {
  }

  // ---------------------------------------------------------------- what the scan of a bank sees when it begins

  /** An alive root up to the greatest, or a slot of the bank's line from there on if the bank descends from it. */
  ghost predicate Readable(s: State, slot: Slot, x: Slot)
    requires Coupled(s) && slot in s.forks.parentOf
  {
    var root, line := B.MaxRoot(s.forks), B.Line(s.forks.parentOf, slot);
    (x in s.index.roots && x <= root) || (root in line && root <= x && x in line)
  }

  /** The newest version of the pubkey on the bank's own fork. */
  ghost predicate OnFork(s: State, slot: Slot, key: P.Key, v: E.Version)
    requires Coupled(s) && slot in s.forks.parentOf
  {
    var list := P.ListOf(s.index, key);
    exists e :: e in list && Readable(s, slot, e.slot) && v == E.Version(e.info.id, e.info.zero)
      && forall x :: x in list && Readable(s, slot, x.slot) ==> x.slot <= e.slot
  }

  /** The ancestors a bank was made with and its line let it read the same versions. */
  lemma ReadableIsOpen(s: State, slot: Slot, key: P.Key, e: Entry)
    requires Coupled(s) && slot in s.forks.parentOf && e in P.ListOf(s.index, key)
    ensures Readable(s, slot, e.slot) <==> T.Open(s.index, s.forks.ancestors[slot], e.slot)
  {
    B.MaxRootTellsDescent(s.forks, slot);
  }

  /** The scan of a bank begins with the newest version of every pubkey on the bank's fork. */
  lemma ScanBeginsOnFork(s: State, id: nat, slot: Slot, bank: P.BankId, key: P.Key, v: E.Version)
    requires Coupled(s) && Enabled(s, ScanBank(id, slot, bank))
    ensures var t := Apply(s, ScanBank(id, slot, bank)).index;
            id in t.scans && (P.SeenBy(t, id, key) == Some(v) <==> OnFork(s, slot, key, v))
  {
    T.BeginsWith(s.index, id, bank, s.forks.ancestors[slot], key, v);
    forall e | e in P.ListOf(s.index, key)
      ensures Readable(s, slot, e.slot) <==> T.Open(s.index, s.forks.ancestors[slot], e.slot)
    {
      ReadableIsOpen(s, slot, key, e);
    }
  }

  // ---------------------------------------------------------------- whole runs

  ghost predicate Run(s: State, steps: seq<Step>)
    decreases |steps|
  {
    steps == [] || (Coupled(s) && Enabled(s, steps[0]) && Run(Apply(s, steps[0]), steps[1..]))
  }

  ghost function After(s: State, steps: seq<Step>): State
    requires Run(s, steps)
    decreases |steps|
  {
    if steps == [] then s else After(Apply(s, steps[0]), steps[1..])
  }

  /** What the index does along the run. */
  ghost function IndexSteps(s: State, steps: seq<Step>): seq<P.Step>
    requires Run(s, steps)
    decreases |steps|
  {
    if steps == [] then []
    else
      var rest, p := IndexSteps(Apply(s, steps[0]), steps[1..]), IndexStep(s, steps[0]);
      if p.Some? then [p.value] + rest else rest
  }

  lemma {:induction false} IndexRuns(s: State, steps: seq<Step>)
    requires Coupled(s) && Run(s, steps)
    ensures P.Run(P.All, s.index, IndexSteps(s, steps))
    ensures P.After(P.All, s.index, IndexSteps(s, steps)) == After(s, steps).index && Coupled(After(s, steps))
    decreases |steps|
  {
    if steps != [] {
      StepKeeps(s, steps[0]);
      IndexRuns(Apply(s, steps[0]), steps[1..]);
      if IndexStep(s, steps[0]).Some? {
        IndexStepIsDisciplined(s, steps[0]);
        P.RunCons(P.All, s.index, IndexStep(s, steps[0]).value, IndexSteps(Apply(s, steps[0]), steps[1..]));
      }
    }
  }

  lemma {:induction false} EndsAreOwn(s: State, steps: seq<Step>, id: nat)
    requires Run(s, steps) && P.EndScan(id) in IndexSteps(s, steps)
    ensures Index(P.EndScan(id)) in steps
    decreases |steps|
  {
    if steps[0] != Index(P.EndScan(id)) { EndsAreOwn(Apply(s, steps[0]), steps[1..], id); }
  }

  /** Started from a snapshot whose last slot is `slot`: one bank, every slot of the snapshot a root. */
  function Snapshot(slot: Slot, rooted: set<Slot>, index: map<P.Key, SlotList>): State {
    var roots := rooted + {slot};
    State(P.State(roots, roots, slot + 1, index, map[], map[], map[], map[], {}), B.Started(slot, rooted))
  }

  /** The snapshot's slots go up to `slot`, and no slot list has one twice. */
  ghost predicate Loaded(slot: Slot, rooted: set<Slot>, index: map<P.Key, SlotList>) {
    (forall r :: r in rooted ==> r <= slot) && forall key :: key in index ==> E.Unique(index[key])
  }

  lemma StartedCoupled(slot: Slot, rooted: set<Slot>, index: map<P.Key, SlotList>)
    requires Loaded(slot, rooted, index)
    ensures Coupled(Snapshot(slot, rooted, index))
  {
    D.QuietInv(Snapshot(slot, rooted, index).index);
    B.StartedInv(slot, rooted);
  }

  /**
    Along every run in which banks are made and squashed, and the index is used, in any order: the
    scan of a bank that is not removed sees every pubkey with lamports as when it began, and every
    other one until it is purged.
   */
  lemma BankScanIsStable(s: State, steps: seq<Step>, id: nat, key: P.Key)
    requires Coupled(s) && Run(s, steps) && id in s.index.scans && Index(P.EndScan(id)) !in steps
    ensures P.Run(P.All, s.index, IndexSteps(s, steps))
    ensures var t, taken := After(s, steps).index, T.Taken(s.index, IndexSteps(s, steps), id, key);
            && id in t.scans && t.scans[id] == s.index.scans[id]
            && (t.scans[id].bank !in t.removed ==> T.SameOrPurged(P.SeenBy(s.index, id, key), P.SeenBy(t, id, key), taken))
  {
    IndexRuns(s, steps);
    if P.EndScan(id) in IndexSteps(s, steps) { EndsAreOwn(s, steps, id); }
    T.ScanIsStable(s.index, IndexSteps(s, steps), id, key);
  }

  /** In particular in every run from a snapshot. */
  lemma StableFromSnapshot(slot: Slot, rooted: set<Slot>, index: map<P.Key, SlotList>, before: seq<Step>, during: seq<Step>,
                           id: nat, key: P.Key)
    requires Loaded(slot, rooted, index)
    requires Run(Snapshot(slot, rooted, index), before) && Run(After(Snapshot(slot, rooted, index), before), during)
    requires id in After(Snapshot(slot, rooted, index), before).index.scans && Index(P.EndScan(id)) !in during
    ensures var s := After(Snapshot(slot, rooted, index), before);
            && P.Run(P.All, s.index, IndexSteps(s, during))
            && var t, taken := After(s, during).index, T.Taken(s.index, IndexSteps(s, during), id, key);
               && id in t.scans && t.scans[id] == s.index.scans[id]
               && (t.scans[id].bank !in t.removed ==> T.SameOrPurged(P.SeenBy(s.index, id, key), P.SeenBy(t, id, key), taken))
  {
    StartedCoupled(slot, rooted, index);
    IndexRuns(Snapshot(slot, rooted, index), before);
    BankScanIsStable(After(Snapshot(slot, rooted, index), before), during, id, key);
  }
}
