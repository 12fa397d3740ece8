/** Concatenation of a sequence of sequences. */
module Sequences {

  function Flatten<T>(parts: seq<seq<T>>): seq<T> {
    if |parts| == 0 then [] else Flatten(parts[..|parts| - 1]) + parts[|parts| - 1]
  }

  lemma FlattenAppend<T>(parts: seq<seq<T>>, part: seq<T>)
    ensures Flatten(parts + [part]) == Flatten(parts) + part
  {
    assert (parts + [part])[..|parts|] == parts;
  }

  /** Part `i` sits in the flattened sequence right after the parts before it. */
  lemma {:induction false} FlattenAt<T>(parts: seq<seq<T>>, i: nat)
    requires i < |parts|
    ensures |Flatten(parts[..i])| + |parts[i]| <= |Flatten(parts)|
    ensures parts[i] <= Flatten(parts)[|Flatten(parts[..i])|..]
    ensures Flatten(parts[..i + 1]) == Flatten(parts[..i]) + parts[i]
  {
    var n := |parts| - 1;
    assert parts[..i + 1][..i] == parts[..i];
    if i < n {
      FlattenAt(parts[..n], i);
      assert parts[..n][..i] == parts[..i];
    } else {
      assert parts[..i + 1] == parts;
    }
  }
}
