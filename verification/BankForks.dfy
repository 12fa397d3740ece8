/**
  The fork argument behind scans: a bank's `ancestors` are fixed when the bank is made, while
  squashing cuts parent links behind it. A squash adds its roots one at a time, and anything may
  happen between two of them. Banks are named by their slots.
 */
module BankForks {
  import opened Wrappers
  import opened SlotLists

  /** A squash under way: the root it added last, and those it has yet to add, oldest first. */
  datatype Squashing = Squashing(bank: Slot, last: Option<Slot>, pending: seq<Slot>)

  datatype Forks = Forks(
    parentOf: map<Slot, Option<Slot>>,   // the bank's parent when it was made
    squashed: set<Slot>,                 // banks whose parent link has been cut
    ancestors: map<Slot, set<Slot>>,     // Bank::ancestors
    rooted: set<Slot>,                   // every slot added as a root
    root: Slot,                          // the bank squashed last
    squashing: Option<Squashing>)

  /** The parent of `b` is older than `b`, and known. */
  ghost predicate ParentOk(parentOf: map<Slot, Option<Slot>>, b: Slot) {
    b in parentOf && parentOf[b].Some? ==> parentOf[b].value in parentOf && parentOf[b].value < b
  }

  ghost predicate Tree(parentOf: map<Slot, Option<Slot>>) {
    forall b :: ParentOk(parentOf, b)
  }

  /** The bank and all it descends from. */
  function Line(parentOf: map<Slot, Option<Slot>>, b: Slot): (r: set<Slot>)
    requires Tree(parentOf) && b in parentOf
    ensures b in r && forall x :: x in r ==> x <= b && x in parentOf
  {
    assert ParentOk(parentOf, b);
    if parentOf[b].None? then {b} else {b} + Line(parentOf, parentOf[b].value)
  }

  /** The bank and what `Bank::parents` still reaches from it. */
  function Linked(parentOf: map<Slot, Option<Slot>>, squashed: set<Slot>, b: Slot): (r: set<Slot>)
    requires Tree(parentOf) && b in parentOf
    ensures b in r
  {
    assert ParentOk(parentOf, b);
    if b in squashed || parentOf[b].None? then {b} else {b} + Linked(parentOf, squashed, parentOf[b].value)
  }

  /** The same, oldest first: the order in which a squash adds its roots. */
  function Path(parentOf: map<Slot, Option<Slot>>, squashed: set<Slot>, b: Slot): (r: seq<Slot>)
    requires Tree(parentOf) && b in parentOf
    ensures r != [] && r[|r| - 1] == b
  {
    assert ParentOk(parentOf, b);
    if b in squashed || parentOf[b].None? then [b] else Path(parentOf, squashed, parentOf[b].value) + [b]
  }

  /** The greatest root of the index. */
  function MaxRoot(f: Forks): Slot {
    if f.squashing.Some? && f.squashing.value.last.Some? then f.squashing.value.last.value else f.root
  }

  datatype Step = NewBank(slot: Slot, parent: Slot) | StartSquash(bank: Slot) | RootNext | EndSquash

  ghost predicate Enabled(f: Forks, step: Step) {
    Tree(f.parentOf) &&
    match step
    case NewBank(slot, parent) => slot !in f.parentOf && parent in f.parentOf && parent < slot
    // only descendants of the root become the root, one at a time
    case StartSquash(bank) => f.squashing.None? && bank in f.parentOf && f.root in Line(f.parentOf, bank)
    case RootNext => f.squashing.Some? && f.squashing.value.pending != []
    case EndSquash => f.squashing.Some? && f.squashing.value.pending == []
  }

  ghost function Apply(f: Forks, step: Step): Forks
    requires Enabled(f, step)
  {
    match step
    case NewBank(slot, parent) =>
      f.(parentOf := f.parentOf[slot := Some(parent)],
         ancestors := f.ancestors[slot := {slot} + Linked(f.parentOf, f.squashed, parent)])
    case StartSquash(bank) => f.(squashing := Some(Squashing(bank, None, Path(f.parentOf, f.squashed, bank))))
    case RootNext =>
      var q := f.squashing.value;
      f.(rooted := f.rooted + {q.pending[0]}, squashing := Some(Squashing(q.bank, Some(q.pending[0]), q.pending[1..])))
    case EndSquash =>
      var bank := f.squashing.value.bank;
      f.(squashed := f.squashed + {bank}, root := bank, squashing := None)
  }

  /** Started from a snapshot: one bank, its slot and the snapshot's other slots rooted. */
  function Started(slot: Slot, rooted: set<Slot>): Forks {
    Forks(map[slot := None], {}, map[slot := {slot}], rooted + {slot}, slot, None)
  }

  // ---------------------------------------------------------------- what every step keeps

  /** Links are cut on the root's line only, at the root among others. */
  ghost predicate CutsOk(parentOf: map<Slot, Option<Slot>>, squashed: set<Slot>, root: Slot) {
    && Tree(parentOf) && root in parentOf
    && (forall b :: b in squashed ==> b in Line(parentOf, root))
    && (forall b :: b in parentOf && parentOf[b].None? ==> b in Line(parentOf, root))
    && (root in squashed || parentOf[root].None?)
  }

  /**
    A bank's ancestors are of its line. If it descends from the root they include all of the line
    from the root on, and those up to the root are rooted.
   */
  ghost predicate BankOk(parentOf: map<Slot, Option<Slot>>, rooted: set<Slot>, root: Slot, b: Slot, ancestors: set<Slot>)
    requires Tree(parentOf) && b in parentOf
  {
    && ancestors <= Line(parentOf, b)
    && (root in Line(parentOf, b) ==>
          && (forall x :: x in Line(parentOf, b) && root <= x ==> x in ancestors)
          && (forall x :: x in ancestors && x <= root ==> x in rooted))
  }

  ghost predicate Ascending(s: seq<Slot>) { forall i, j :: 0 <= i < j < |s| ==> s[i] < s[j] }

  /** A squash is of a descendant of the root; of its line it has rooted all but the pending, which lie above. */
  ghost predicate SquashOk(parentOf: map<Slot, Option<Slot>>, squashed: set<Slot>, rooted: set<Slot>, root: Slot, q: Squashing)
    requires Tree(parentOf)
  {
    && q.bank in parentOf && root in Line(parentOf, q.bank)
    && (if q.pending == [] then q.last == Some(q.bank) else q.pending[|q.pending| - 1] == q.bank)
    && Ascending(q.pending) && (forall x :: x in q.pending ==> x in Linked(parentOf, squashed, q.bank))
    && (forall x :: x in Linked(parentOf, squashed, q.bank) ==> x in rooted || x in q.pending)
    && (q.last.Some? ==>
          q.last.value in Linked(parentOf, squashed, q.bank) && q.last.value in rooted && forall x :: x in q.pending ==> q.last.value < x)
  }

  ghost predicate Inv(f: Forks) {
    && CutsOk(f.parentOf, f.squashed, f.root) && f.ancestors.Keys == f.parentOf.Keys && f.root in f.rooted
    && (f.squashing.Some? ==> SquashOk(f.parentOf, f.squashed, f.rooted, f.root, f.squashing.value))
    && forall b {:trigger f.ancestors[b]} :: b in f.parentOf ==> BankOk(f.parentOf, f.rooted, f.root, b, f.ancestors[b])
  }

  // ---------------------------------------------------------------- lines

  /** Two members of a line are on one another's line, the younger first. */
  lemma {:induction false} LineIsChain(parentOf: map<Slot, Option<Slot>>, b: Slot, x: Slot, y: Slot)
    requires Tree(parentOf) && b in parentOf && x in Line(parentOf, b) && y in Line(parentOf, b) && y <= x
    ensures y in Line(parentOf, x)
    decreases b
  {
    assert ParentOk(parentOf, b);
    if x != b { LineIsChain(parentOf, parentOf[b].value, x, y); }
  }

  lemma {:induction false} LineTransitive(parentOf: map<Slot, Option<Slot>>, b: Slot, x: Slot)
    requires Tree(parentOf) && b in parentOf && x in Line(parentOf, b)
    ensures Line(parentOf, x) <= Line(parentOf, b)
    decreases b
  {
    assert ParentOk(parentOf, b);
    if x != b { LineTransitive(parentOf, parentOf[b].value, x); }
  }

  lemma {:induction false} LineUnchanged(parentOf: map<Slot, Option<Slot>>, slot: Slot, parent: Slot, b: Slot)
    requires Tree(parentOf) && Tree(parentOf[slot := Some(parent)]) && slot !in parentOf && b in parentOf
    ensures Line(parentOf[slot := Some(parent)], b) == Line(parentOf, b)
    decreases b
  {
    assert ParentOk(parentOf, b);
    if parentOf[b].Some? { LineUnchanged(parentOf, slot, parent, parentOf[b].value); }
  }

  lemma {:induction false} LinkedInLine(parentOf: map<Slot, Option<Slot>>, squashed: set<Slot>, b: Slot)
    requires Tree(parentOf) && b in parentOf
    ensures Linked(parentOf, squashed, b) <= Line(parentOf, b)
    decreases b
  {
    assert ParentOk(parentOf, b);
    if b !in squashed && parentOf[b].Some? { LinkedInLine(parentOf, squashed, parentOf[b].value); }
  }

  /** From a descendant of the root, `parents` reaches exactly the line down to the root. */
  lemma {:induction false} LinkedReachesRoot(parentOf: map<Slot, Option<Slot>>, squashed: set<Slot>, root: Slot, b: Slot)
    requires CutsOk(parentOf, squashed, root) && b in parentOf && root in Line(parentOf, b)
    ensures Linked(parentOf, squashed, b) == set x | x in Line(parentOf, b) && root <= x
    decreases b
  {
    if b == root {
      forall x | x in Line(parentOf, b) && root <= x ensures x == b {}
    } else {
      assert ParentOk(parentOf, b) && b !in Line(parentOf, root);
      LinkedReachesRoot(parentOf, squashed, root, parentOf[b].value);
    }
  }

  lemma {:induction false} LinkedUnchanged(parentOf: map<Slot, Option<Slot>>, squashed: set<Slot>, slot: Slot, parent: Slot, b: Slot)
    requires Tree(parentOf) && Tree(parentOf[slot := Some(parent)]) && slot !in parentOf && b in parentOf
    ensures Linked(parentOf[slot := Some(parent)], squashed, b) == Linked(parentOf, squashed, b)
    decreases b
  {
    assert ParentOk(parentOf, b);
    if b !in squashed && parentOf[b].Some? { LinkedUnchanged(parentOf, squashed, slot, parent, parentOf[b].value); }
  }

  /** The path is strictly ascending and is what `parents` reaches. */
  lemma {:induction false} PathAscends(parentOf: map<Slot, Option<Slot>>, squashed: set<Slot>, b: Slot)
    requires Tree(parentOf) && b in parentOf
    ensures Ascending(Path(parentOf, squashed, b))
    ensures forall x :: x in Path(parentOf, squashed, b) <==> x in Linked(parentOf, squashed, b)
    decreases b
  {
    assert ParentOk(parentOf, b);
    if b !in squashed && parentOf[b].Some? { PathAscends(parentOf, squashed, parentOf[b].value); }
  }

  // ---------------------------------------------------------------- preservation

  lemma TreeGrows(parentOf: map<Slot, Option<Slot>>, slot: Slot, parent: Slot)
    requires Tree(parentOf) && slot !in parentOf && parent in parentOf && parent < slot
    ensures Tree(parentOf[slot := Some(parent)])
  {
    var grown := parentOf[slot := Some(parent)];
    forall b ensures ParentOk(grown, b) { assert ParentOk(parentOf, b); }
  }

  lemma NewBankOk(f: Forks, slot: Slot, parent: Slot)
    requires Inv(f) && Enabled(f, NewBank(slot, parent))
    ensures var f' := Apply(f, NewBank(slot, parent));
            Tree(f'.parentOf) && BankOk(f'.parentOf, f'.rooted, f'.root, slot, f'.ancestors[slot])
  {
    var f' := Apply(f, NewBank(slot, parent));
    TreeGrows(f.parentOf, slot, parent);
    LineUnchanged(f.parentOf, slot, parent, parent);
    assert Line(f'.parentOf, slot) == {slot} + Line(f.parentOf, parent);
    LinkedInLine(f.parentOf, f.squashed, parent);
    if f.root in Line(f.parentOf, parent) { LinkedReachesRoot(f.parentOf, f.squashed, f.root, parent); }
  }

  lemma NewBankKeeps(f: Forks, slot: Slot, parent: Slot)
    requires Inv(f) && Enabled(f, NewBank(slot, parent))
    ensures Inv(Apply(f, NewBank(slot, parent)))
  {
    var f' := Apply(f, NewBank(slot, parent));
    NewBankOk(f, slot, parent);
    LineUnchanged(f.parentOf, slot, parent, f.root);
    if f.squashing.Some? {
      LineUnchanged(f.parentOf, slot, parent, f.squashing.value.bank);
      LinkedUnchanged(f.parentOf, f.squashed, slot, parent, f.squashing.value.bank);
    }
    forall b | b in f.parentOf
      ensures BankOk(f'.parentOf, f'.rooted, f'.root, b, f'.ancestors[b])
    {
      LineUnchanged(f.parentOf, slot, parent, b);
      assert BankOk(f.parentOf, f.rooted, f.root, b, f.ancestors[b]);
    }
  }

  lemma MoreRooted(parentOf: map<Slot, Option<Slot>>, rooted: set<Slot>, more: set<Slot>, root: Slot, b: Slot, ancestors: set<Slot>)
    requires Tree(parentOf) && b in parentOf && BankOk(parentOf, rooted, root, b, ancestors)
    ensures BankOk(parentOf, rooted + more, root, b, ancestors)
  {
  }

  lemma SquashGoesOn(parentOf: map<Slot, Option<Slot>>, squashed: set<Slot>, rooted: set<Slot>, root: Slot, q: Squashing)
    requires Tree(parentOf) && q.pending != [] && SquashOk(parentOf, squashed, rooted, root, q)
    ensures SquashOk(parentOf, squashed, rooted + {q.pending[0]}, root, Squashing(q.bank, Some(q.pending[0]), q.pending[1..]))
  {
    assert q.pending == [q.pending[0]] + q.pending[1..];
  }

  lemma RootNextKeeps(f: Forks)
    requires Inv(f) && Enabled(f, RootNext)
    ensures Inv(Apply(f, RootNext))
  {
    var next := f.squashing.value.pending[0];
    SquashGoesOn(f.parentOf, f.squashed, f.rooted, f.root, f.squashing.value);
    forall b | b in f.parentOf ensures BankOk(f.parentOf, f.rooted + {next}, f.root, b, f.ancestors[b]) {
      MoreRooted(f.parentOf, f.rooted, {next}, f.root, b, f.ancestors[b]);
    }
  }

  /** What a bank has up to a root the squash has reached is rooted once the squash's roots up to it are added. */
  lemma RootedUpTo(f: Forks, bank: Slot, b: Slot, r: Slot)
    requires Inv(f) && bank in f.parentOf && f.root in Line(f.parentOf, bank) && b in f.parentOf
    requires r in Linked(f.parentOf, f.squashed, bank) && r in Line(f.parentOf, b)
    requires forall x :: x in Linked(f.parentOf, f.squashed, bank) && x <= r ==> x in f.rooted
    ensures BankOk(f.parentOf, f.rooted, r, b, f.ancestors[b])
  {
    LinkedReachesRoot(f.parentOf, f.squashed, f.root, bank);
    assert BankOk(f.parentOf, f.rooted, f.root, b, f.ancestors[b]);
    LineIsChain(f.parentOf, bank, r, f.root);
    LineTransitive(f.parentOf, b, r);
    LineTransitive(f.parentOf, bank, r);
    forall x | x in f.ancestors[b] && x <= r ensures x in f.rooted {
      if f.root < x { LineIsChain(f.parentOf, b, r, x); }
    }
  }

  lemma EndSquashKeeps(f: Forks)
    requires Inv(f) && Enabled(f, EndSquash)
    ensures Inv(Apply(f, EndSquash))
  {
    var q := f.squashing.value;
    LineTransitive(f.parentOf, q.bank, f.root);
    forall b | b in f.parentOf
      ensures BankOk(f.parentOf, f.rooted, q.bank, b, f.ancestors[b])
    {
      assert BankOk(f.parentOf, f.rooted, f.root, b, f.ancestors[b]);
      if q.bank in Line(f.parentOf, b) { RootedUpTo(f, q.bank, b, q.bank); }
    }
  }

  lemma StepKeeps(f: Forks, step: Step)
    requires Inv(f) && Enabled(f, step)
    ensures Inv(Apply(f, step))
  {
    match step
    case NewBank(slot, parent) => NewBankKeeps(f, slot, parent);
    case StartSquash(bank) => PathAscends(f.parentOf, f.squashed, bank);
    case RootNext => RootNextKeeps(f);
    case EndSquash => EndSquashKeeps(f);
  }

  ghost predicate Run(f: Forks, steps: seq<Step>)
    decreases |steps|
  {
    steps == [] || (Enabled(f, steps[0]) && Run(Apply(f, steps[0]), steps[1..]))
  }

  ghost function After(f: Forks, steps: seq<Step>): Forks
    requires Run(f, steps)
    decreases |steps|
  {
    if steps == [] then f else After(Apply(f, steps[0]), steps[1..])
  }

  lemma {:induction false} RunKeeps(f: Forks, steps: seq<Step>)
    requires Inv(f) && Run(f, steps)
    ensures Inv(After(f, steps))
    decreases |steps|
  {
    if steps != [] {
      StepKeeps(f, steps[0]);
      RunKeeps(Apply(f, steps[0]), steps[1..]);
    }
  }

  lemma StartedInv(slot: Slot, rooted: set<Slot>)
    ensures Inv(Started(slot, rooted))
  {
    assert Line(map[slot := None], slot) == {slot};
  }

  /**
    Even in the middle of a squash: a bank descends from the greatest root of the index exactly when
    that root is among its ancestors, and then all its ancestors up to it are rooted.
   */
  lemma MaxRootTellsDescent(f: Forks, b: Slot)
    requires Inv(f) && b in f.parentOf
    ensures MaxRoot(f) in f.rooted
    ensures MaxRoot(f) in f.ancestors[b] <==> MaxRoot(f) in Line(f.parentOf, b)
    ensures MaxRoot(f) in f.ancestors[b] ==> forall a :: a in f.ancestors[b] && a <= MaxRoot(f) ==> a in f.rooted
    ensures f.ancestors[b] <= Line(f.parentOf, b)
    ensures MaxRoot(f) in f.ancestors[b] ==> forall x :: x in Line(f.parentOf, b) && MaxRoot(f) <= x ==> x in f.ancestors[b]
  {
    assert BankOk(f.parentOf, f.rooted, f.root, b, f.ancestors[b]);
    if f.squashing.Some? && f.squashing.value.last.Some? && MaxRoot(f) in Line(f.parentOf, b) {
      RootedUpTo(f, f.squashing.value.bank, b, MaxRoot(f));
    }
  }

  /** In every run from a snapshot. */
  lemma AncestorsTellDescent(slot: Slot, rooted: set<Slot>, steps: seq<Step>, b: Slot)
    requires Run(Started(slot, rooted), steps) && b in After(Started(slot, rooted), steps).parentOf
    ensures var f := After(Started(slot, rooted), steps);
            && Tree(f.parentOf) && b in f.ancestors
            && (MaxRoot(f) in f.ancestors[b] <==> MaxRoot(f) in Line(f.parentOf, b))
            && (MaxRoot(f) in f.ancestors[b] ==> forall a :: a in f.ancestors[b] && a <= MaxRoot(f) ==> a in f.rooted)
  {
    StartedInv(slot, rooted);
    RunKeeps(Started(slot, rooted), steps);
    MaxRootTellsDescent(After(Started(slot, rooted), steps), b);
  }

  /** The next root is above the one added before, and not older than the root: `add_root` never sees one out of order. */
  lemma RootsComeInOrder(f: Forks)
    requires Inv(f) && Enabled(f, RootNext)
    ensures var q := f.squashing.value;
            MaxRoot(f) <= q.pending[0] && f.root <= q.pending[0] && (q.last.Some? ==> q.last.value < q.pending[0])
  {
    LinkedReachesRoot(f.parentOf, f.squashed, f.root, f.squashing.value.bank);
    assert f.squashing.value.pending[0] in f.squashing.value.pending;
  }

  // ---------------------------------------------------------------- a whole squash

  /** Adding all pending roots. */
  lemma {:induction false} RootsAll(f: Forks, n: nat)
    requires Tree(f.parentOf) && f.squashing.Some? && n == |f.squashing.value.pending| > 0
    ensures var q, steps := f.squashing.value, seq(n, _ => RootNext);
            && Run(f, steps)
            && After(f, steps) == f.(rooted := f.rooted + (set x | x in q.pending),
                                     squashing := Some(Squashing(q.bank, Some(q.pending[n - 1]), [])))
    decreases n
  {
    var q, steps, g := f.squashing.value, seq(n, _ => RootNext), Apply(f, RootNext);
    assert steps[1..] == seq(n - 1, _ => RootNext) && q.pending == [q.pending[0]] + q.pending[1..];
    if n == 1 {
      assert After(g, steps[1..]) == g && q.pending[1..] == [];
      assert (set x | x in q.pending) == {q.pending[0]};
    } else {
      RootsAll(g, n - 1);
      assert f.rooted + {q.pending[0]} + (set x | x in q.pending[1..]) == f.rooted + (set x | x in q.pending);
    }
  }

  lemma {:induction false} RunSnoc(f: Forks, steps: seq<Step>, step: Step)
    requires Run(f, steps) && Enabled(After(f, steps), step)
    ensures Run(f, steps + [step]) && After(f, steps + [step]) == Apply(After(f, steps), step)
    decreases |steps|
  {
    if steps == [] {
      assert [] + [step] == [step] && [step][1..] == [];
    } else {
      RunSnoc(Apply(f, steps[0]), steps[1..], step);
      assert (steps + [step])[1..] == steps[1..] + [step];
    }
  }

  /** The steps of `Bank::squash` on its own. */
  function Squash(f: Forks, bank: Slot): seq<Step>
    requires Tree(f.parentOf) && bank in f.parentOf
  {
    [StartSquash(bank)] + (seq(|Path(f.parentOf, f.squashed, bank)|, _ => RootNext) + [EndSquash])
  }

  /** It roots the bank and all that `parents` reaches from it, cuts its link, and makes it the root. */
  lemma SquashRoots(f: Forks, bank: Slot)
    requires Inv(f) && Enabled(f, StartSquash(bank))
    ensures Run(f, Squash(f, bank))
    ensures After(f, Squash(f, bank)) ==
              f.(rooted := f.rooted + Linked(f.parentOf, f.squashed, bank), squashed := f.squashed + {bank}, root := bank)
    ensures MaxRoot(After(f, Squash(f, bank))) == bank
  {
    var path, g := Path(f.parentOf, f.squashed, bank), Apply(f, StartSquash(bank));
    PathAscends(f.parentOf, f.squashed, bank);
    RootsAll(g, |path|);
    assert (set x | x in path) == Linked(f.parentOf, f.squashed, bank);
    var roots := seq(|path|, _ => RootNext);
    RunSnoc(g, roots, EndSquash);
    assert ([StartSquash(bank)] + (roots + [EndSquash]))[1..] == roots + [EndSquash];
  }
}
