/**
  The order in which workspace crates are published (`ci/order-crates-for-publishing.py`): rounds
  that take every package none of whose dependencies is still waiting, at most n * n of them.
 */
module PublishOrder {
  import opened Wrappers

  type Name = string

  /** An entry of the dependency graph; dependencies may lie outside the workspace. */
  datatype Package = Package(name: Name, deps: seq<Name>)

  /** In the order of the dictionary. */
  type Graph = seq<Package>

  ghost predicate Distinct(g: Graph) {
    forall i, j :: 0 <= i < j < |g| ==> g[i].name != g[j].name
  }

  function Names(g: Graph): set<Name> { set p | p in g :: p.name }

  /** Package `a` depends on `b`, and both are in the workspace. */
  ghost predicate Edge(g: Graph, a: Name, b: Name) {
    b in Names(g) && exists p :: p in g && p.name == a && b in p.deps
  }

  ghost predicate StepAt(g: Graph, w: seq<Name>, i: nat) {
    i + 1 < |w| ==> Edge(g, w[i], w[i + 1])
  }

  ghost predicate Walk(g: Graph, w: seq<Name>) {
    forall i: nat :: StepAt(g, w, i)
  }

  ghost predicate Cycle(g: Graph, w: seq<Name>) {
    |w| >= 2 && w[0] == w[|w| - 1] && Walk(g, w)
  }

  ghost predicate Acyclic(g: Graph) {
    forall w :: !Cycle(g, w)
  }

  /** Every package once, each after the packages of the workspace it depends on. */
  ghost predicate PublishableOrder(g: Graph, order: seq<Name>) {
    && (forall i, j :: 0 <= i < j < |order| ==> order[i] != order[j])
    && (forall n :: n in order <==> n in Names(g))
    && (forall i, dep :: 0 <= i < |order| && Edge(g, order[i], dep) ==> dep in order[..i])
  }

  // ---------------------------------------------------------------- one round

  /** No dependency of the package is waiting. */
  predicate Ready(waiting: set<Name>, p: Package) {
    forall i :: 0 <= i < |p.deps| ==> p.deps[i] !in waiting
  }

  method IsReady(waiting: set<Name>, p: Package) returns (r: bool)
    ensures r == Ready(waiting, p)
  {
    for i := 0 to |p.deps|
      invariant forall j :: 0 <= j < i ==> p.deps[j] !in waiting
    {
      if p.deps[i] in waiting { return false; }
    }
    r := true;
  }

  function ReadyNames(g: Graph, waiting: set<Name>): seq<Name> {
    if |g| == 0 then []
    else
      var front, p := ReadyNames(g[..|g| - 1], waiting), g[|g| - 1];
      if Ready(waiting, p) then front + [p.name] else front
  }

  function StillWaiting(g: Graph, waiting: set<Name>): Graph {
    if |g| == 0 then []
    else
      var front, p := StillWaiting(g[..|g| - 1], waiting), g[|g| - 1];
      if Ready(waiting, p) then front else front + [p]
  }

  method Round(g: Graph) returns (ready: seq<Name>, rest: Graph)
    ensures ready == ReadyNames(g, Names(g)) && rest == StillWaiting(g, Names(g))
  {
    var waiting := Names(g);
    ready, rest := [], [];
    for i := 0 to |g|
      invariant ready == ReadyNames(g[..i], waiting) && rest == StillWaiting(g[..i], waiting)
    {
      assert g[..i + 1][..i] == g[..i];
      var r := IsReady(waiting, g[i]);
      if r { ready := ready + [g[i].name]; } else { rest := rest + [g[i]]; }
    }
    assert g[..|g|] == g;
  }

  lemma {:induction false} RoundSplits(g: Graph, waiting: set<Name>)
    ensures forall p :: p in StillWaiting(g, waiting) <==> p in g && !Ready(waiting, p)
    ensures |ReadyNames(g, waiting)| + |StillWaiting(g, waiting)| == |g|
  {
    if |g| > 0 {
      var front := g[..|g| - 1];
      RoundSplits(front, waiting);
      assert g == front + [g[|g| - 1]];
    }
  }

  lemma {:induction false} ReadyPackage(g: Graph, waiting: set<Name>, n: Name) returns (p: Package)
    requires n in ReadyNames(g, waiting)
    ensures p in g && Ready(waiting, p) && p.name == n
  {
    var last := g[|g| - 1];
    if Ready(waiting, last) && last.name == n {
      p := last;
    } else {
      p := ReadyPackage(g[..|g| - 1], waiting, n);
    }
  }

  lemma {:induction false} ReadyIsTaken(g: Graph, waiting: set<Name>, p: Package)
    requires p in g && Ready(waiting, p)
    ensures p.name in ReadyNames(g, waiting)
  {
    if p != g[|g| - 1] {
      assert g == g[..|g| - 1] + [g[|g| - 1]];
      ReadyIsTaken(g[..|g| - 1], waiting, p);
    }
  }

  lemma {:induction false} RoundDistinct(g: Graph, waiting: set<Name>)
    requires Distinct(g)
    ensures Distinct(StillWaiting(g, waiting))
    ensures forall i, j :: 0 <= i < j < |ReadyNames(g, waiting)| ==> ReadyNames(g, waiting)[i] != ReadyNames(g, waiting)[j]
  {
    if |g| > 0 {
      var front, last := g[..|g| - 1], g[|g| - 1];
      RoundDistinct(front, waiting);
      RoundSplits(front, waiting);
      forall p | p in front ensures p.name != last.name { var i :| 0 <= i < |front| && front[i] == p; assert g[i] == p; }
      if last.name in ReadyNames(front, waiting) { var p := ReadyPackage(front, waiting, last.name); }
    }
  }

  // ---------------------------------------------------------------- cycles

  /** A package of `r` that `n` depends on. */
  ghost predicate Waits(g: Graph, r: set<Name>, n: Name) {
    exists m :: m in r && Edge(g, n, m)
  }

  ghost predicate AllWait(g: Graph, r: set<Name>) {
    forall n {:trigger Waits(g, r, n)} :: n in r ==> Waits(g, r, n)
  }

  lemma {:induction false} LongWalk(g: Graph, r: set<Name>, start: Name, k: nat) returns (w: seq<Name>)
    requires start in r && AllWait(g, r)
    ensures |w| == k + 1 && w[0] == start && Walk(g, w) && forall i :: 0 <= i < |w| ==> w[i] in r
    decreases k
  {
    if k == 0 {
      w := [start];
    } else {
      assert Waits(g, r, start);
      var next :| next in r && Edge(g, start, next);
      var rest := LongWalk(g, r, next, k - 1);
      w := [start] + rest;
      forall i: nat ensures StepAt(g, w, i) { if i > 0 { assert StepAt(g, rest, i - 1); } }
    }
  }

  lemma {:induction false} Pigeonhole(w: seq<Name>, r: set<Name>)
    requires |w| > |r| && forall i :: 0 <= i < |w| ==> w[i] in r
    ensures exists i, j :: 0 <= i < j < |w| && w[i] == w[j]
    decreases |w|
  {
    var last := w[|w| - 1];
    if i :| 0 <= i < |w| - 1 && w[i] == last {
    } else {
      var front := w[..|w| - 1];
      Pigeonhole(front, r - {last});
      var i, j :| 0 <= i < j < |front| && front[i] == front[j];
      assert w[i] == w[j];
    }
  }

  /** Packages that all wait for one another: there is a cycle among them. */
  lemma StuckHasCycle(g: Graph, r: set<Name>)
    requires r != {} && AllWait(g, r)
    ensures !Acyclic(g)
  {
    var start :| start in r;
    var w := LongWalk(g, r, start, |r|);
    Pigeonhole(w, r);
    var i, j :| 0 <= i < j < |w| && w[i] == w[j];
    var c := w[i..j + 1];
    forall k: nat ensures StepAt(g, c, k) { assert StepAt(g, w, i + k); }
    assert Cycle(g, c);
  }

  /** A round takes nothing that is on a cycle. */
  lemma CycleKeepsWaiting(g: Graph, rest: Graph, w: seq<Name>)
    requires Distinct(g) && Cycle(g, w) && (forall p :: p in rest ==> p in g) && forall i :: 0 <= i < |w| ==> w[i] in Names(rest)
    ensures forall i :: 0 <= i < |w| ==> w[i] in Names(StillWaiting(rest, Names(rest)))
  {
    var waiting := Names(rest);
    RoundSplits(rest, waiting);
    forall i | 0 <= i < |w| ensures w[i] in Names(StillWaiting(rest, waiting)) {
      var k := if i < |w| - 1 then i else 0;
      assert StepAt(g, w, k) && w[k] == w[i];
      var p :| p in g && p.name == w[k] && w[k + 1] in p.deps;
      var q :| q in rest && q.name == w[k];
      SameName(g, p, q);
      assert !Ready(waiting, q);
      assert q in StillWaiting(rest, waiting);
    }
  }

  lemma SameName(g: Graph, p: Package, q: Package)
    requires Distinct(g) && p in g && q in g && p.name == q.name
    ensures p == q
  {
  }

  // ---------------------------------------------------------------- all rounds

  /** What is published is in order and the packages still waiting are the others. */
  ghost predicate Progress(g: Graph, rest: Graph, order: seq<Name>) {
    && Distinct(rest) && (forall p :: p in rest ==> p in g)
    && (forall i, j :: 0 <= i < j < |order| ==> order[i] != order[j])
    && (forall n :: n in Names(g) <==> n in order || n in Names(rest))
    && (forall n :: n in order ==> n !in Names(rest))
    && (forall i, dep :: 0 <= i < |order| && Edge(g, order[i], dep) ==> dep in order[..i])
    && |order| + |rest| == |g|
  }

  /** What a round takes was waiting, and then waits no more; what it leaves still waits. */
  lemma RoundNames(rest: Graph, n: Name)
    requires Distinct(rest)
    ensures var waiting := Names(rest);
            && (n in ReadyNames(rest, waiting) ==> n in waiting && n !in Names(StillWaiting(rest, waiting)))
            && (n in waiting ==> n in ReadyNames(rest, waiting) || n in Names(StillWaiting(rest, waiting)))
            && (n in Names(StillWaiting(rest, waiting)) ==> n in waiting)
  {
    var waiting := Names(rest);
    RoundSplits(rest, waiting);
    if n in ReadyNames(rest, waiting) {
      var p := ReadyPackage(rest, waiting, n);
      forall q | q in StillWaiting(rest, waiting) ensures q.name != n { if q.name == n { SameName(rest, p, q); } }
    }
    if n in waiting {
      var p :| p in rest && p.name == n;
      if Ready(waiting, p) { ReadyIsTaken(rest, waiting, p); }
    }
  }

  /** The dependencies of what a round takes were published before. */
  lemma RoundRespectsDeps(g: Graph, rest: Graph, order: seq<Name>, n: Name, dep: Name)
    requires Distinct(g) && Progress(g, rest, order) && n in ReadyNames(rest, Names(rest)) && Edge(g, n, dep)
    ensures dep in order
  {
    var p := ReadyPackage(rest, Names(rest), n);
    var q :| q in g && q.name == n && dep in q.deps;
    SameName(g, p, q);
  }

  lemma RoundProgresses(g: Graph, rest: Graph, order: seq<Name>)
    requires Distinct(g) && Progress(g, rest, order)
    ensures Progress(g, StillWaiting(rest, Names(rest)), order + ReadyNames(rest, Names(rest)))
  {
    var waiting := Names(rest);
    var ready, rest' := ReadyNames(rest, waiting), StillWaiting(rest, waiting);
    RoundSplits(rest, waiting);
    RoundDistinct(rest, waiting);
    forall n ensures n in ready ==> n in waiting && n !in Names(rest') { RoundNames(rest, n); }
    forall n ensures (n in order + ready || n in Names(rest')) <==> n in Names(g) { RoundNames(rest, n); }
    forall i, j | 0 <= i < j < |order + ready| ensures (order + ready)[i] != (order + ready)[j] {
      if i < |order| <= j { assert (order + ready)[j] in ready && (order + ready)[i] in order; }
    }
    forall i, dep | 0 <= i < |order + ready| && Edge(g, (order + ready)[i], dep)
      ensures dep in (order + ready)[..i]
    {
      if i < |order| {
        assert (order + ready)[..i] == order[..i];
      } else {
        RoundRespectsDeps(g, rest, order, ready[i - |order|], dep);
        assert (order + ready)[..i] == order + ready[..i - |order|];
      }
    }
  }

  /** While packages wait in an acyclic graph, each round takes at least one. */
  lemma RoundTakesOne(g: Graph, rest: Graph)
    requires Acyclic(g) && Distinct(g) && rest != [] && forall p :: p in rest ==> p in g
    ensures ReadyNames(rest, Names(rest)) != []
  {
    var waiting := Names(rest);
    if ReadyNames(rest, waiting) == [] {
      assert rest[0].name in waiting;
      forall n | n in waiting ensures Waits(g, waiting, n) { NotReadyWaits(g, rest, n); }
      StuckHasCycle(g, waiting);
    }
  }

  lemma NotReadyWaits(g: Graph, rest: Graph, n: Name)
    requires (forall p :: p in rest ==> p in g) && n in Names(rest) && ReadyNames(rest, Names(rest)) == []
    ensures Waits(g, Names(rest), n)
  {
    var p :| p in rest && p.name == n;
    if Ready(Names(rest), p) { ReadyIsTaken(rest, Names(rest), p); }
    var i :| 0 <= i < |p.deps| && p.deps[i] in Names(rest);
    assert Edge(g, n, p.deps[i]);
  }

  /** The packages on every cycle still wait. */
  ghost predicate CyclesWait(g: Graph, rest: Graph) {
    forall w, i :: Cycle(g, w) && 0 <= i < |w| ==> w[i] in Names(rest)
  }

  lemma RoundKeepsCycles(g: Graph, rest: Graph)
    requires Distinct(g) && (forall p :: p in rest ==> p in g) && CyclesWait(g, rest)
    ensures CyclesWait(g, StillWaiting(rest, Names(rest)))
  {
    forall w, i | Cycle(g, w) && 0 <= i < |w| ensures w[i] in Names(StillWaiting(rest, Names(rest))) {
      CycleKeepsWaiting(g, rest, w);
    }
  }

  /** Two packages that depend on each other. */
  ghost predicate DirectlyCircular(g: Graph) {
    exists a, b :: Edge(g, a, b) && Edge(g, b, a)
  }

  lemma DirectIsCycle(g: Graph, a: Name, b: Name)
    requires Edge(g, a, b) && Edge(g, b, a)
    ensures Cycle(g, [a, b, a])
  {
  }

  method FindDirectlyCircular(g: Graph) returns (found: bool)
    ensures found == DirectlyCircular(g)
  {
    for i := 0 to |g|
      invariant forall p, q :: p in g[..i] && q in g ==> !(q.name in p.deps && p.name in q.deps)
    {
      for j := 0 to |g|
        invariant forall q :: q in g[..j] ==> !(q.name in g[i].deps && g[i].name in q.deps)
      {
        if g[j].name in g[i].deps && g[i].name in g[j].deps {
          assert Edge(g, g[i].name, g[j].name) && Edge(g, g[j].name, g[i].name);
          return true;
        }
      }
    }
    found := false;
  }

  lemma RoundsSuffice(n: nat, taken: nat)
    requires taken < n
    ensures taken < n * n
  {
  }

  /**
    The order, if there is one. It is found exactly when the workspace has no circular dependency:
    the budget of n * n rounds never runs out on an acyclic graph.
   */
  method OrderPackages(g: Graph) returns (r: Option<seq<Name>>)
    requires Distinct(g)
    ensures r.Some? <==> Acyclic(g)
    ensures r.Some? ==> PublishableOrder(g, r.value)
  {
    var circular := FindDirectlyCircular(g);
    if circular {
      ghost var a, b :| Edge(g, a, b) && Edge(g, b, a);
      DirectIsCycle(g, a, b);
      return None;
    }
    r := Rounds(g);
  }

  method Rounds(g: Graph) returns (r: Option<seq<Name>>)
    requires Distinct(g)
    ensures r.Some? <==> Acyclic(g)
    ensures r.Some? ==> PublishableOrder(g, r.value)
  {
    var order: seq<Name>, rest: Graph, budget: nat := [], g, |g| * |g|;
    ghost var rounds := 0;
    AllCyclesInside(g);
    while rest != []
      invariant Progress(g, rest, order) && CyclesWait(g, rest)
      invariant budget == |g| * |g| - rounds && (Acyclic(g) ==> rounds <= |order|)
      decreases budget
    {
      if budget == 0 {
        RoundsSuffice(|g|, |order|);
        return None;
      }
      budget, rounds := budget - 1, rounds + 1;
      RoundProgresses(g, rest, order);
      RoundKeepsCycles(g, rest);
      if Acyclic(g) { RoundTakesOne(g, rest); }
      var ready;
      ready, rest := Round(rest);
      order := order + ready;
    }
    assert Acyclic(g);
    r := Some(order);
  }

  lemma AllCyclesInside(g: Graph)
    ensures CyclesWait(g, g)
  {
    forall w, i | Cycle(g, w) && 0 <= i < |w| ensures w[i] in Names(g) {
      if i > 0 { assert StepAt(g, w, i - 1); } else { assert StepAt(g, w, |w| - 2); }
    }
  }
}
