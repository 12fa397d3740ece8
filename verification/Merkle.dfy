/**
  The merkle tree over account hashes, reduced one level at a time. `H` is the hash of a sequence
  of hashes (`Hasher::hash` once per element, then `Hasher::result`); it stays uninterpreted.
 */
module Merkle {
  import opened Pubkeys
  import opened Arithmetic

  type Hasher = seq<Hash> -> Hash

  /** One level: the groups of `fanout` consecutive hashes, each replaced by its hash. */
  function Level(H: Hasher, fanout: nat, xs: seq<Hash>): (r: seq<Hash>)
    requires fanout >= 1
    ensures |r| <= |xs|
    ensures fanout >= 2 && |xs| >= 2 ==> |r| < |xs|
    ensures r == [] <==> xs == []
  {
    if |xs| == 0 then [] else if |xs| <= fanout then [H(xs)]
    else [H(xs[..fanout])] + Level(H, fanout, xs[fanout..])
  }

  /** `levels` levels. */
  function Levels(H: Hasher, fanout: nat, levels: nat, xs: seq<Hash>): seq<Hash>
    requires fanout >= 1
  {
    if levels == 0 then xs else Levels(H, fanout, levels - 1, Level(H, fanout, xs))
  }

  /** The root: at least one level, and then levels until a single hash is left. */
  function Root(H: Hasher, fanout: nat, xs: seq<Hash>): Hash
    requires fanout >= 2
    decreases |xs|
  {
    if |xs| == 0 then H([])
    else
      var next := Level(H, fanout, xs);
      if |next| == 1 then next[0] else Root(H, fanout, next)
  }

  // ---------------------------------------------------------------- division

  function DivCeil(x: nat, y: nat): (r: nat)
    requires y > 0
    ensures x <= r * y < x + y
  {
    var q := x / y;
    if x % y != 0 then q + 1 else q
  }

  lemma DivCeilUnique(x: nat, y: nat, r: nat)
    requires y > 0 && x <= r * y < x + y
    ensures DivCeil(x, y) == r
  {
    var q := DivCeil(x, y);
    if q < r { MulMonotone(q + 1, r, y); }
    if r < q { MulMonotone(r + 1, q, y); }
  }

  lemma DivCeilStep(x: nat, y: nat)
    requires y > 0
    ensures DivCeil(x + y, y) == DivCeil(x, y) + 1
  {
    var r := DivCeil(x, y);
    GroupsStep(r + 1, y);
    DivCeilUnique(x + y, y, r + 1);
  }

  lemma DivCeilAtLeast(x: nat, y: nat, n: nat)
    requires y > 0 && n * y <= x
    ensures n <= DivCeil(x, y)
  {
    var r := DivCeil(x, y);
    if r < n {
      GroupsStep(r + 1, y);
      MulMonotone(r + 1, n, y);
    }
  }

  lemma DivCeilAtMost(x: nat, y: nat, n: nat)
    requires y > 0 && x <= n * y
    ensures DivCeil(x, y) <= n
  {
    var r := DivCeil(x, y);
    if n < r {
      GroupsStep(n + 1, y);
      MulMonotone(n + 1, r, y);
    }
  }

  // ---------------------------------------------------------------- one level

  lemma {:induction false} LevelLength(H: Hasher, fanout: nat, xs: seq<Hash>)
    requires fanout >= 1
    ensures |Level(H, fanout, xs)| == DivCeil(|xs|, fanout)
    decreases |xs|
  {
    if |xs| == 0 {
    } else if |xs| <= fanout {
      DivCeilUnique(|xs|, fanout, 1);
    } else {
      LevelLength(H, fanout, xs[fanout..]);
      DivCeilStep(|xs| - fanout, fanout);
    }
  }

  /** Where group `i` starts: `i * fanout`, one group after the other. */
  function GroupStart(i: nat, fanout: nat): nat { if i == 0 then 0 else GroupStart(i - 1, fanout) + fanout }

  lemma {:induction false} GroupStartIs(i: nat, fanout: nat)
    ensures GroupStart(i, fanout) == i * fanout
  {
    if i > 0 {
      GroupStartIs(i - 1, fanout);
      GroupsStep(i, fanout);
    }
  }

  /** The first whole group, and the rest. */
  lemma LevelCons(H: Hasher, fanout: nat, xs: seq<Hash>)
    requires 1 <= fanout <= |xs|
    ensures Level(H, fanout, xs) == [H(xs[..fanout])] + Level(H, fanout, xs[fanout..])
  {
    if |xs| == fanout { assert xs[..fanout] == xs && xs[fanout..] == []; }
  }

  lemma TailConcat(xs: seq<Hash>, ys: seq<Hash>, n: nat)
    requires n <= |xs|
    ensures (xs + ys)[..n] == xs[..n] && (xs + ys)[n..] == xs[n..] + ys
  {
  }

  lemma {:induction false} GroupsConcat(H: Hasher, fanout: nat, groups: nat, xs: seq<Hash>, ys: seq<Hash>)
    requires fanout >= 1 && |xs| == GroupStart(groups, fanout)
    ensures Level(H, fanout, xs + ys) == Level(H, fanout, xs) + Level(H, fanout, ys)
    decreases groups
  {
    if groups == 0 {
      assert xs == [] && xs + ys == ys;
    } else {
      GroupsConcat(H, fanout, groups - 1, xs[fanout..], ys);
      OneGroupMore(H, fanout, xs, ys);
    }
  }

  lemma OneGroupMore(H: Hasher, fanout: nat, xs: seq<Hash>, ys: seq<Hash>)
    requires 1 <= fanout <= |xs| && Level(H, fanout, xs[fanout..] + ys) == Level(H, fanout, xs[fanout..]) + Level(H, fanout, ys)
    ensures Level(H, fanout, xs + ys) == Level(H, fanout, xs) + Level(H, fanout, ys)
  {
    LevelCons(H, fanout, xs);
    LevelCons(H, fanout, xs + ys);
    TailConcat(xs, ys, fanout);
    Associates([H(xs[..fanout])], Level(H, fanout, xs[fanout..]), Level(H, fanout, ys));
  }

  lemma Associates(a: seq<Hash>, b: seq<Hash>, c: seq<Hash>)
    ensures a + (b + c) == (a + b) + c
  {
  }

  /** A prefix made of whole groups is reduced on its own. */
  lemma LevelConcat(H: Hasher, fanout: nat, groups: nat, xs: seq<Hash>, ys: seq<Hash>)
    requires fanout >= 1 && |xs| == groups * fanout
    ensures Level(H, fanout, xs + ys) == Level(H, fanout, xs) + Level(H, fanout, ys)
  {
    GroupStartIs(groups, fanout);
    GroupsConcat(H, fanout, groups, xs, ys);
  }

  /** One more group, the last perhaps short, adds one hash to the level of whole groups. */
  lemma LevelNextGroup(H: Hasher, fanout: nat, groups: nat, xs: seq<Hash>, ys: seq<Hash>)
    requires fanout >= 1 && |xs| == groups * fanout && 0 < |ys| <= fanout
    ensures Level(H, fanout, xs + ys) == Level(H, fanout, xs) + [H(ys)]
  {
    LevelConcat(H, fanout, groups, xs, ys);
  }

  /** The number of whole groups in a prefix is the length of its level. */
  lemma LevelOfGroups(H: Hasher, fanout: nat, groups: nat, xs: seq<Hash>)
    requires fanout >= 1 && |xs| == groups * fanout
    ensures |Level(H, fanout, xs)| == groups
  {
    LevelLength(H, fanout, xs);
    DivCeilUnique(|xs|, fanout, groups);
  }

  lemma LevelFirst(H: Hasher, fanout: nat, xs: seq<Hash>)
    requires fanout >= 1 && xs != []
    ensures Level(H, fanout, xs)[0] == H(xs[0..if |xs| < fanout then |xs| else fanout])
  {
    assert if |xs| <= fanout then xs[0..|xs|] == xs else xs[0..fanout] == xs[..fanout];
  }

  lemma LevelNext(H: Hasher, fanout: nat, xs: seq<Hash>, i: nat)
    requires fanout >= 1 && 0 < i < |Level(H, fanout, xs)|
    ensures fanout < |xs| && i - 1 < |Level(H, fanout, xs[fanout..])|
    ensures Level(H, fanout, xs)[i] == Level(H, fanout, xs[fanout..])[i - 1]
  {
  }

  lemma SliceOfTail(xs: seq<Hash>, from: nat, start: nat, end: nat)
    requires from <= start <= end <= |xs|
    ensures xs[from..][start - from..end - from] == xs[start..end]
  {
  }

  lemma {:induction false} LevelFrom(H: Hasher, fanout: nat, xs: seq<Hash>, i: nat)
    requires fanout >= 1 && i < |Level(H, fanout, xs)|
    ensures var start := GroupStart(i, fanout);
            start < |xs| && Level(H, fanout, xs)[i] == H(xs[start..if |xs| < start + fanout then |xs| else start + fanout])
    decreases i
  {
    if i == 0 {
      LevelFirst(H, fanout, xs);
    } else {
      var start := GroupStart(i, fanout);
      LevelNext(H, fanout, xs, i);
      LevelFrom(H, fanout, xs[fanout..], i - 1);
      SliceOfTail(xs, fanout, start, if |xs| < start + fanout then |xs| else start + fanout);
    }
  }

  /** Hash `i` of a level is that of group `i`, the last group perhaps short. */
  lemma LevelAt(H: Hasher, fanout: nat, xs: seq<Hash>, i: nat)
    requires fanout >= 1 && i < |Level(H, fanout, xs)|
    ensures i * fanout < |xs|
    ensures var end := if |xs| < i * fanout + fanout then |xs| else i * fanout + fanout;
            Level(H, fanout, xs)[i] == H(xs[i * fanout..end])
  {
    GroupStartIs(i, fanout);
    LevelFrom(H, fanout, xs, i);
  }

  /** The root of no hashes is the hash of nothing; of one to `fanout` it is the hash of them. */
  lemma RootOfFew(H: Hasher, fanout: nat, xs: seq<Hash>)
    requires fanout >= 2 && |xs| <= fanout
    ensures Root(H, fanout, xs) == H(xs)
  {
  }

  lemma {:induction false} LevelsSplit(H: Hasher, fanout: nat, a: nat, b: nat, xs: seq<Hash>)
    requires fanout >= 1
    ensures Levels(H, fanout, a + b, xs) == Levels(H, fanout, b, Levels(H, fanout, a, xs))
    decreases a
  {
    if a > 0 { LevelsSplit(H, fanout, a - 1, b, Level(H, fanout, xs)); }
  }

  function Pow(fanout: nat, e: nat): (r: nat)
    ensures fanout >= 1 ==> r >= 1
  {
    if e == 0 then 1 else Pow(fanout, e - 1) * fanout
  }

  /** `levels` levels treat a prefix of whole groups of `fanout^levels` hashes on its own. */
  lemma {:induction false} LevelsConcat(H: Hasher, fanout: nat, levels: nat, groups: nat, xs: seq<Hash>, ys: seq<Hash>)
    requires fanout >= 1 && |xs| == groups * Pow(fanout, levels)
    ensures Levels(H, fanout, levels, xs + ys) == Levels(H, fanout, levels, xs) + Levels(H, fanout, levels, ys)
    ensures |Levels(H, fanout, levels, xs)| == groups
    decreases levels
  {
    if levels > 0 {
      var inner := groups * Pow(fanout, levels - 1);
      assert |xs| == inner * fanout;
      LevelConcat(H, fanout, inner, xs, ys);
      LevelOfGroups(H, fanout, inner, xs);
      LevelsConcat(H, fanout, levels - 1, groups, Level(H, fanout, xs), Level(H, fanout, ys));
    }
  }

  /** At least one hash and at most `groups * fanout^levels` leave one to `groups` after `levels` levels. */
  lemma {:induction false} LevelsBound(H: Hasher, fanout: nat, levels: nat, groups: nat, xs: seq<Hash>)
    requires fanout >= 1 && 0 < |xs| <= groups * Pow(fanout, levels)
    ensures 0 < |Levels(H, fanout, levels, xs)| <= groups
    decreases levels
  {
    if levels > 0 {
      var inner := groups * Pow(fanout, levels - 1);
      assert groups * Pow(fanout, levels) == inner * fanout;
      LevelBound(H, fanout, inner, xs);
      LevelsBound(H, fanout, levels - 1, groups, Level(H, fanout, xs));
    }
  }

  /** A chunk of at most `fanout^(levels + 1)` hashes becomes one hash: that of its `levels` levels. */
  lemma LevelsOfOneChunk(H: Hasher, fanout: nat, levels: nat, xs: seq<Hash>)
    requires fanout >= 1 && 0 < |xs| <= Pow(fanout, levels + 1)
    ensures Levels(H, fanout, levels + 1, xs) == [H(Levels(H, fanout, levels, xs))]
  {
    assert Pow(fanout, levels + 1) == fanout * Pow(fanout, levels);
    LevelsBound(H, fanout, levels, fanout, xs);
    LevelsSplit(H, fanout, levels, 1, xs);
    var ys := Levels(H, fanout, levels, xs);
    assert Levels(H, fanout, 1, ys) == Levels(H, fanout, 0, Level(H, fanout, ys));
  }

  /** The number of hashes in the first `i` chunks. */
  function ChunkStart(i: nat, chunk: nat, total: nat): nat {
    if i * chunk <= total then i * chunk else total
  }

  lemma ChunkBounds(i: nat, chunk: nat, total: nat)
    requires chunk >= 1 && i < DivCeil(total, chunk)
    ensures i * chunk < ChunkStart(i + 1, chunk, total) <= total
    ensures ChunkStart(i + 1, chunk, total) == if i * chunk + chunk <= total then i * chunk + chunk else total
  {
    GroupsStep(i + 1, chunk);
    MulMonotone(i + 1, DivCeil(total, chunk), chunk);
  }

  /** One pass over chunk `i` adds one hash to the `levels + 1` levels of the chunks before it. */
  lemma NextChunk(H: Hasher, fanout: nat, levels: nat, xs: seq<Hash>, i: nat, chunk: nat, start: nat, end: nat)
    requires fanout >= 1 && chunk == Pow(fanout, levels + 1) && i < DivCeil(|xs|, chunk)
    requires start == i * chunk && end == ChunkStart(i + 1, chunk, |xs|)
    ensures start < end <= |xs|
    ensures Levels(H, fanout, levels + 1, xs[..end])
            == Levels(H, fanout, levels + 1, xs[..start]) + [H(Levels(H, fanout, levels, xs[start..end]))]
  {
    ChunkBounds(i, chunk, |xs|);
    LevelsConcat(H, fanout, levels + 1, i, xs[..start], xs[start..end]);
    assert xs[..start] + xs[start..end] == xs[..end];
    LevelsOfOneChunk(H, fanout, levels, xs[start..end]);
  }

  lemma AllChunks(total: nat, chunk: nat)
    requires chunk >= 1
    ensures ChunkStart(DivCeil(total, chunk), chunk, total) == total
  {
  }

  lemma LevelBound(H: Hasher, fanout: nat, groups: nat, xs: seq<Hash>)
    requires fanout >= 1 && |xs| <= groups * fanout
    ensures |Level(H, fanout, xs)| <= groups
  {
    LevelLength(H, fanout, xs);
    DivCeilAtMost(|xs|, fanout, groups);
  }

  lemma LevelLowerBound(H: Hasher, fanout: nat, groups: nat, xs: seq<Hash>)
    requires fanout >= 1 && |xs| >= groups * fanout
    ensures |Level(H, fanout, xs)| >= groups
  {
    LevelLength(H, fanout, xs);
    DivCeilAtLeast(|xs|, fanout, groups);
  }

  /** With at least `fanout^(levels + 1)` hashes, `levels` levels leave the root where it was. */
  lemma {:induction false} RootOfLevels(H: Hasher, fanout: nat, levels: nat, xs: seq<Hash>)
    requires fanout >= 2 && |xs| >= Pow(fanout, levels + 1)
    ensures |Levels(H, fanout, levels, xs)| >= fanout
    ensures Root(H, fanout, Levels(H, fanout, levels, xs)) == Root(H, fanout, xs)
    decreases levels
  {
    if levels > 0 {
      var below := Pow(fanout, levels);
      assert Pow(fanout, levels + 1) == below * fanout;
      assert below == Pow(fanout, levels - 1) * fanout;
      MulMonotone(1, Pow(fanout, levels - 1), fanout);
      MulMonotone(2, below, fanout);
      LevelLowerBound(H, fanout, below, xs);
      RootOfLevels(H, fanout, levels - 1, Level(H, fanout, xs));
    } else {
      assert Pow(fanout, 1) == Pow(fanout, 0) * fanout == fanout;
    }
  }
}
