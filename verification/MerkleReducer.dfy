/**
  The two merkle reducers of `AccountsHasher`: the plain loop, and the one that pulls its input in
  slices and hashes three levels in one pass. Both are proved against `Merkle.Root` and
  `Merkle.Levels`.
 */
module MerkleReducer {
  import opened Wrappers
  import opened Pubkeys
  import opened Arithmetic
  import opened Merkle

  /** `get` serves `xs`: asked for any index it answers a non-empty run of `xs` starting there. */
  ghost predicate Serves(get: nat -> seq<Hash>, xs: seq<Hash>) {
    forall i :: 0 <= i < |xs| ==> get(i) != [] && get(i) <= xs[i..]
  }

  function Min(a: nat, b: nat): nat { if a <= b then a else b }

  // ---------------------------------------------------------------- the plain loop

  function Extracted<T>(extractor: T -> Hash, items: seq<T>): (r: seq<Hash>)
    ensures |r| == |items| && forall i :: 0 <= i < |items| ==> r[i] == extractor(items[i])
  {
    seq(|items|, i requires 0 <= i < |items| => extractor(items[i]))
  }

  /** One hasher over `items[start..end]`. */
  method HashRange<T>(H: Hasher, items: seq<T>, extractor: T -> Hash, start: nat, end: nat) returns (r: Hash)
    requires start <= end <= |items|
    ensures r == H(Extracted(extractor, items)[start..end])
  {
    var hasher: seq<Hash> := [];
    for j := start to end
      invariant hasher == Extracted(extractor, items)[start..j]
    {
      hasher := hasher + [extractor(items[j])];
    }
    r := H(hasher);
  }

  method ComputeMerkleRootLoop<T>(H: Hasher, items: seq<T>, fanout: nat, extractor: T -> Hash) returns (root: Hash)
    requires fanout >= 2
    ensures root == Root(H, fanout, Extracted(extractor, items))
    decreases |items|
  {
    if |items| == 0 { return H([]); }
    ghost var xs := Extracted(extractor, items);
    var total := |items|;
    var chunks := DivCeil(total, fanout);
    assert Pow(fanout, 1) == Pow(fanout, 0) * fanout == fanout;
    var result: seq<Hash> := [];
    for i := 0 to chunks
      invariant result == Levels(H, fanout, 1, xs[..ChunkStart(i, fanout, total)])
    {
      ChunkBounds(i, fanout, total);
      var start := i * fanout;
      var end := Min(start + fanout, total);
      NextChunk(H, fanout, 0, xs, i, fanout, start, end);
      var h := HashRange(H, items, extractor, start, end);
      result := result + [h];
    }
    AllChunks(total, fanout);
    assert xs[..total] == xs;
    assert result == Level(H, fanout, xs);
    if |result| == 1 {
      root := result[0];
    } else {
      root := ComputeMerkleRootLoop(H, result, fanout, (h: Hash) => h);
      assert Extracted((h: Hash) => h, result) == result;
    }
  }

  // ---------------------------------------------------------------- pulling slices

  /** The slice being consumed, and how much of it has been. */
  datatype Cursor = Cursor(data: seq<Hash>, index: nat)

  /** The next hash to be read through `c`, if `c` still has one, is the one at `i`. */
  ghost predicate At(c: Cursor, xs: seq<Hash>, i: nat) {
    i <= |xs| && (c.index < |c.data| ==> i < |xs| && c.data[c.index..] <= xs[i..])
  }

  /** The hash at overall index `i`; a new slice is fetched when the current one is exhausted. */
  method Pull(get: nat -> seq<Hash>, c: Cursor, i: nat, ghost xs: seq<Hash>) returns (h: Hash, next: Cursor)
    requires Serves(get, xs) && i < |xs| && At(c, xs, i)
    ensures h == xs[i] && At(next, xs, i + 1)
  {
    var data, index := c.data, c.index;
    if index >= |data| {
      data, index := get(i), 0;
      assert data[0..] == data;
    }
    assert data[index..] <= xs[i..];
    assert data[index..][0] == xs[i..][0];
    h, next := data[index], Cursor(data, index + 1);
    if index + 1 < |data| {
      assert data[index + 1..] == data[index..][1..];
      assert xs[i + 1..] == xs[i..][1..];
    }
  }

  // ---------------------------------------------------------------- one chunk

  method HashOneLevel(H: Hasher, get: nat -> seq<Hash>, c: Cursor, start: nat, end: nat, ghost xs: seq<Hash>)
    returns (r: Hash)
    requires Serves(get, xs) && start <= end <= |xs| && At(c, xs, start)
    ensures r == H(xs[start..end])
  {
    var cursor := c;
    var hasher: seq<Hash> := [];
    for i := start to end
      invariant At(cursor, xs, i) && hasher == xs[start..i]
    {
      var h;
      h, cursor := Pull(get, cursor, i, xs);
      hasher := hasher + [h];
    }
    r := H(hasher);
  }

  /** `hasher_k`: the next at most `fanout` raw hashes. */
  method HashGroup(H: Hasher, fanout: nat, get: nat -> seq<Hash>, c: Cursor, from: nat, end: nat, ghost xs: seq<Hash>)
    returns (r: Hash, cursor: Cursor, i: nat)
    requires Serves(get, xs) && from <= end <= |xs| && At(c, xs, from)
    ensures i == from + Min(end - from, fanout)
    ensures r == H(xs[from..i]) && At(cursor, xs, i)
  {
    cursor, i := c, from;
    var count := Min(end - from, fanout);
    var hasher: seq<Hash> := [];
    for k := 0 to count
      invariant i == from + k && At(cursor, xs, i) && hasher == xs[from..i]
    {
      var h;
      h, cursor := Pull(get, cursor, i, xs);
      hasher := hasher + [h];
      i := i + 1;
    }
    r := H(hasher);
  }

  /** `hasher_j`: the next at most `fanout` groups. It stops early when the raw hashes run out. */
  method HashGroups(H: Hasher, fanout: nat, get: nat -> seq<Hash>, c: Cursor, from: nat, end: nat, ghost xs: seq<Hash>)
    returns (r: Hash, cursor: Cursor, i: nat)
    requires fanout >= 1 && Serves(get, xs) && from < end <= |xs| && At(c, xs, from)
    ensures from < i <= end && i == from + Min(end - from, fanout * fanout)
    ensures r == H(Level(H, fanout, xs[from..i])) && At(cursor, xs, i)
  {
    cursor, i := c, from;
    var hasherJ: seq<Hash> := [];
    var j := 0;
    while j < fanout
      invariant j <= fanout && from <= i <= end && At(cursor, xs, i)
      invariant i == from + Min(end - from, j * fanout)
      invariant hasherJ == Level(H, fanout, xs[from..i])
      invariant i < end
    {
      var k;
      ghost var before := i;
      GroupsStep(j + 1, fanout);
      k, cursor, i := HashGroup(H, fanout, get, cursor, i, end, xs);
      LevelNextGroup(H, fanout, j, xs[from..before], xs[before..i]);
      assert xs[from..before] + xs[before..i] == xs[from..i];
      hasherJ := hasherJ + [k];
      j := j + 1;
      if i >= end {
        MulMonotone(j, fanout, fanout);
        break;
      }
    }
    r := H(hasherJ);
  }

  /** Three levels at once: one hash from at most `fanout^3` raw hashes. */
  method HashThreeLevels(H: Hasher, fanout: nat, get: nat -> seq<Hash>, c: Cursor, start: nat, end: nat, ghost xs: seq<Hash>)
    returns (r: Hash)
    requires fanout >= 1 && Serves(get, xs) && start < end <= |xs| && At(c, xs, start)
    requires end - start <= fanout * fanout * fanout
    ensures r == H(Levels(H, fanout, 2, xs[start..end]))
  {
    var cursor, i := c, start;
    var hasher: seq<Hash> := [];
    var square := fanout * fanout;
    ghost var rounds := 0;
    assert xs[start..start] == [];
    NoHashes(H, fanout, 2);
    while i < end
      invariant start <= i <= end && At(cursor, xs, i)
      invariant i < end ==> i == start + rounds * square
      invariant hasher == Levels(H, fanout, 2, xs[start..i])
      decreases end - i
    {
      var j;
      ghost var before := i;
      j, cursor, i := HashGroups(H, fanout, get, cursor, i, end, xs);
      GroupsStep(rounds + 1, square);
      TwoLevelsNextGroup(H, fanout, rounds, xs[start..before], xs[before..i]);
      assert xs[start..before] + xs[before..i] == xs[start..i];
      hasher := hasher + [j];
      rounds := rounds + 1;
    }
    r := H(hasher);
  }

  /** One more square of groups, the last perhaps short, adds one hash to two levels of whole squares. */
  lemma TwoLevelsNextGroup(H: Hasher, fanout: nat, groups: nat, xs: seq<Hash>, ys: seq<Hash>)
    requires fanout >= 1 && |xs| == groups * (fanout * fanout) && 0 < |ys| <= fanout * fanout
    ensures Levels(H, fanout, 2, xs + ys) == Levels(H, fanout, 2, xs) + [H(Level(H, fanout, ys))]
  {
    assert Pow(fanout, 1) == Pow(fanout, 0) * fanout;
    assert Pow(fanout, 2) == Pow(fanout, 1) * fanout;
    LevelsConcat(H, fanout, 2, groups, xs, ys);
    LevelsOfOneChunk(H, fanout, 1, ys);
    assert Levels(H, fanout, 1, ys) == Levels(H, fanout, 0, Level(H, fanout, ys));
  }

  // ---------------------------------------------------------------- the whole pass

  const THREE_LEVEL_OPTIMIZATION: nat := 3

  /** A limit that leaves room for three levels at once. */
  predicate AtLeastThree(limit: Option<nat>) { limit.None? || limit.value >= THREE_LEVEL_OPTIMIZATION }

  /** (hashes per chunk, levels hashed per pass, whether three levels are hashed at once) */
  function CalculateThreeLevelChunks(
    total: nat, fanout: nat, maxLevelsPerPass: Option<nat>, levelCount: Option<nat>): (r: (nat, nat, bool))
    requires fanout >= 1
    ensures r.1 == (if r.2 then 3 else 1) && r.0 == Pow(fanout, r.1)
    ensures r.2 <==> total >= Pow(fanout, 4) && AtLeastThree(maxLevelsPerPass) && AtLeastThree(levelCount)
    ensures levelCount.Some? && levelCount.value >= 1 ==> r.1 <= levelCount.value
  {
    var target := Pow(fanout, THREE_LEVEL_OPTIMIZATION);
    var threshold := target * fanout;
    var threeLevel :=
      && (maxLevelsPerPass.None? || maxLevelsPerPass.value >= THREE_LEVEL_OPTIMIZATION)
      && total >= threshold
      && (levelCount.None? || levelCount.value >= THREE_LEVEL_OPTIMIZATION);
    assert Pow(fanout, 1) == Pow(fanout, 0) * fanout;
    if threeLevel then (target, THREE_LEVEL_OPTIMIZATION, true) else (fanout, 1, false)
  }

  /** What one pass leaves: one or three levels of the served hashes. */
  method HashChunks(H: Hasher, total: nat, fanout: nat, get: nat -> seq<Hash>, chunk: nat, threeLevel: bool, ghost xs: seq<Hash>)
    returns (result: seq<Hash>)
    requires fanout >= 1 && total == |xs| > 0 && Serves(get, xs)
    requires chunk == Pow(fanout, if threeLevel then 3 else 1)
    ensures result == Levels(H, fanout, if threeLevel then 3 else 1, xs)
  {
    ghost var below := if threeLevel then 2 else 0;
    var chunks := DivCeil(total, chunk);
    var data := get(0);
    result := [];
    assert xs[..0] == [] && Levels(H, fanout, below + 1, []) == [] by { NoHashes(H, fanout, below + 1); }
    for i := 0 to chunks
      invariant result == Levels(H, fanout, below + 1, xs[..ChunkStart(i, chunk, total)])
    {
      ChunkBounds(i, chunk, total);
      var start := i * chunk;
      var end := Min(start + chunk, total);
      NextChunk(H, fanout, below, xs, i, chunk, start, end);
      var cursor := Cursor(data, start);
      assert At(cursor, xs, start) by { if start < |data| { assert data[start..] <= xs[start..] by { assert data <= xs[0..]; } } }
      var h;
      if !threeLevel {
        h := HashOneLevel(H, get, cursor, start, end, xs);
      } else {
        assert chunk == fanout * fanout * fanout by { PowThree(fanout); }
        h := HashThreeLevels(H, fanout, get, cursor, start, end, xs);
      }
      result := result + [h];
    }
    AllChunks(total, chunk);
    assert xs[..total] == xs;
  }

  lemma PowThree(fanout: nat)
    ensures Pow(fanout, 3) == fanout * fanout * fanout
  {
    assert Pow(fanout, 1) == Pow(fanout, 0) * fanout;
    assert Pow(fanout, 2) == Pow(fanout, 1) * fanout;
  }

  lemma {:induction false} NoHashes(H: Hasher, fanout: nat, levels: nat)
    requires fanout >= 1
    ensures Levels(H, fanout, levels, []) == []
  {
    if levels > 0 { NoHashes(H, fanout, levels - 1); }
  }

  /** `Hash::default()`. */
  const DEFAULT_HASH: Hash := 0

  method ComputeMerkleRootFromSlices(H: Hasher, total: nat, fanout: nat, maxLevelsPerPass: Option<nat>,
                                     get: nat -> seq<Hash>, levelCount: Option<nat>, ghost xs: seq<Hash>)
    returns (root: Hash, hashes: seq<Hash>)
    requires fanout >= 2 && total == |xs| && Serves(get, xs)
    requires levelCount.Some? ==> levelCount.value >= 1
    ensures levelCount.None? ==> root == Root(H, fanout, xs) && hashes == []
    ensures levelCount.Some? ==> hashes == Levels(H, fanout, levelCount.value, xs)
    ensures levelCount.Some? ==> root == if total == 0 then H([]) else DEFAULT_HASH
    decreases if levelCount.Some? then levelCount.value else 0
  {
    if total == 0 {
      if levelCount.Some? { NoHashes(H, fanout, levelCount.value); }
      return H([]), [];
    }
    var (chunk, levels, threeLevel) := CalculateThreeLevelChunks(total, fanout, maxLevelsPerPass, levelCount);
    var result := HashChunks(H, total, fanout, get, chunk, threeLevel, xs);
    if levelCount.Some? {
      LevelsSplit(H, fanout, levels, levelCount.value - levels, xs);
      var remaining := levelCount.value - levels;
      if remaining == 0 {
        root, hashes := DEFAULT_HASH, result;
      } else {
        LevelsNonEmpty(H, fanout, levels, xs);
        var slices := (start: nat) => Rest(result, start);
        assert Serves(slices, result);
        root, hashes := ComputeMerkleRootFromSlices(H, |result|, fanout, maxLevelsPerPass, slices, Some(remaining), result);
      }
    } else {
      hashes := [];
      RootAfterPass(H, fanout, threeLevel, xs, result);
      if |result| == 1 {
        root := result[0];
      } else {
        root := ComputeMerkleRootLoop(H, result, fanout, (h: Hash) => h);
        assert Extracted((h: Hash) => h, result) == result;
      }
    }
  }

  /** After a pass of one level, or of three when there is enough for four, the root is still to be had. */
  lemma RootAfterPass(H: Hasher, fanout: nat, threeLevel: bool, xs: seq<Hash>, result: seq<Hash>)
    requires fanout >= 2 && xs != [] && result == Levels(H, fanout, if threeLevel then 3 else 1, xs)
    requires threeLevel ==> |xs| >= Pow(fanout, 4)
    ensures Root(H, fanout, xs) == if |result| == 1 then result[0] else Root(H, fanout, result)
  {
    if threeLevel {
      RootOfLevels(H, fanout, 3, xs);
    } else {
      assert Levels(H, fanout, 1, xs) == Levels(H, fanout, 0, Level(H, fanout, xs));
    }
  }

  /** The slice of a vector that starts at `start`. */
  function Rest(hashes: seq<Hash>, start: nat): seq<Hash> {
    if start <= |hashes| then hashes[start..] else []
  }

  lemma {:induction false} LevelsNonEmpty(H: Hasher, fanout: nat, levels: nat, xs: seq<Hash>)
    requires fanout >= 1 && xs != []
    ensures Levels(H, fanout, levels, xs) != []
    decreases levels
  {
    if levels > 0 { LevelsNonEmpty(H, fanout, levels - 1, Level(H, fanout, xs)); }
  }
}
