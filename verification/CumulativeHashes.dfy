/**
  Hashes kept in several vectors or files, addressed by one overall index
  (`CumulativeOffsets`, `CumulativeHashesFromFiles`).
 */
module CumulativeHashes {
  import opened Pubkeys
  import opened Sequences
  import opened MerkleReducer

  /** Where data source `index` starts in the overall sequence. */
  datatype Offset = Offset(index: nat, start: nat)

  datatype Cumulative = Cumulative(offsets: seq<Offset>, total: nat)

  /** Offset `n` names a non-empty source and starts where the sources before it end. */
  ghost predicate Placed(c: Cumulative, sources: seq<seq<Hash>>, n: nat) {
    && n < |c.offsets| && c.offsets[n].index < |sources| && sources[c.offsets[n].index] != []
    && c.offsets[n].start == |Flatten(sources[..c.offsets[n].index])|
    && (if n + 1 == |c.offsets| then c.total else c.offsets[n + 1].start)
       == c.offsets[n].start + |sources[c.offsets[n].index]|
  }

  /** `c` locates every hash of the sources. */
  ghost predicate Describes(c: Cumulative, sources: seq<seq<Hash>>) {
    && c.total == |Flatten(sources)|
    && (c.offsets == [] ==> c.total == 0)
    && (c.offsets != [] ==> c.offsets[0].start == 0)
    && forall n :: 0 <= n < |c.offsets| ==> Placed(c, sources, n)
  }

  /** `CumulativeOffsets::new`: empty sources get no offset. */
  method New(sources: seq<seq<Hash>>) returns (c: Cumulative)
    ensures Describes(c, sources)
  {
    c := Cumulative([], 0);
    for i := 0 to |sources|
      invariant Describes(c, sources[..i])
    {
      FlattenAt(sources, i);
      ghost var before, upTo := c, sources[..i + 1];
      if |sources[i]| > 0 {
        c := Cumulative(c.offsets + [Offset(i, c.total)], c.total + |sources[i]|);
      }
      forall n | 0 <= n < |c.offsets|
        ensures Placed(c, upTo, n)
      {
        if n < |before.offsets| {
          assert Placed(before, sources[..i], n);
          assert sources[..i][..c.offsets[n].index] == upTo[..c.offsets[n].index];
        } else {
          assert upTo[..i] == sources[..i];
        }
      }
      if |sources[i]| == 0 { assert Flatten(sources[..i + 1]) == Flatten(sources[..i]); }
    }
    assert sources[..|sources|] == sources;
  }

  /** The last offset at or before `start`: the found one, or the one before the insertion point. */
  function FindIndex(c: Cumulative, ghost sources: seq<seq<Hash>>, start: nat, lo: nat, hi: nat): (i: nat)
    requires Describes(c, sources) && start < c.total
    requires lo < hi <= |c.offsets|
    requires c.offsets[lo].start <= start && (hi < |c.offsets| ==> start < c.offsets[hi].start)
    ensures i < |c.offsets| && c.offsets[i].start <= start
    ensures start < if i + 1 == |c.offsets| then c.total else c.offsets[i + 1].start
    decreases hi - lo
  {
    if lo + 1 == hi then lo
    else
      var mid := lo + (hi - lo) / 2;
      if c.offsets[mid].start == start then assert Placed(c, sources, mid); mid
      else if c.offsets[mid].start < start then FindIndex(c, sources, start, mid, hi)
      else FindIndex(c, sources, start, lo, mid)
  }

  /** (index within the source, the source's offset, number of hashes in the source) */
  function Find(c: Cumulative, ghost sources: seq<seq<Hash>>, start: nat): (r: (nat, Offset, nat))
    requires Describes(c, sources) && start < c.total
    ensures r.1.index < |sources| && r.2 == |sources[r.1.index]| && r.0 < r.2
    ensures sources[r.1.index][r.0..] <= Flatten(sources)[start..]
  {
    var i := FindIndex(c, sources, start, 0, |c.offsets|);
    var offset := c.offsets[i];
    var next := if i + 1 == |c.offsets| then c.total else c.offsets[i + 1].start;
    assert Placed(c, sources, i);
    assert sources[offset.index][start - offset.start..] <= Flatten(sources)[start..] by {
      FlattenAt(sources, offset.index);
      assert Flatten(sources)[offset.start..][start - offset.start..] == Flatten(sources)[start..];
    }
    (start - offset.start, offset, next - offset.start)
  }

  /** `get_slice`: the longest slice that starts at `start`. */
  function GetSlice(c: Cumulative, sources: seq<seq<Hash>>, start: nat): (r: seq<Hash>)
    requires Describes(c, sources) && start < c.total
    ensures r != [] && r <= Flatten(sources)[start..]
  {
    var (local, offset, _) := Find(c, sources, start);
    sources[offset.index][local..]
  }

  /** `get_data`: as much as one buffer holds of the file that contains `start`. */
  function GetData(c: Cumulative, readers: seq<seq<Hash>>, start: nat, maxBuffer: nat): (r: seq<Hash>)
    requires Describes(c, readers) && start < c.total && maxBuffer >= 1
    ensures r != [] && |r| <= maxBuffer && r <= Flatten(readers)[start..]
  {
    var (local, offset, count) := Find(c, readers, start);
    var toRead := Min(count - local, maxBuffer);
    readers[offset.index][local..local + toRead]
  }

  /** `from_files`: files without hashes have no reader. */
  method FromFiles(files: seq<seq<Hash>>) returns (c: Cumulative, readers: seq<seq<Hash>>)
    ensures Describes(c, readers) && Flatten(readers) == Flatten(files) && [] !in readers
  {
    readers := [];
    for i := 0 to |files|
      invariant Flatten(readers) == Flatten(files[..i]) && [] !in readers
    {
      FlattenAt(files, i);
      if |files[i]| > 0 {
        FlattenAppend(readers, files[i]);
        readers := readers + [files[i]];
      }
    }
    assert files[..|files|] == files;
    c := New(readers);
  }
}
