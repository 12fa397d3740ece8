/**
  The accounts hash end to end: de-duplicate every bin, keep each bin's hashes in a file of its
  own, read the files back as one sequence, and reduce it to a merkle root.
 */
module AccountsHash {
  import opened Wrappers
  import opened Pubkeys
  import opened Arithmetic
  import opened Sequences
  import opened OrderedWrites
  import opened SlotGroups
  import opened Merkle
  import opened MerkleReducer
  import opened CumulativeHashes
  import opened DedupMerge

  const MERKLE_FANOUT: nat := 16

  // ---------------------------------------------------------------- the bin calculator

  function TwoTo(n: nat): (r: nat)
    ensures r >= 1
  {
    if n == 0 then 1 else 2 * TwoTo(n - 1)
  }

  const PREFIX_24: nat := 0x1_0000000000_000000000000_000000000000_000000000000_000000000000

  /** `PubkeyBinCalculator24`: the top 24 bits of the key, shifted so that `2^bits` bins remain. */
  function BinFromPubkey(bits: nat, p: Pubkey): nat
    requires bits <= 24
  {
    Div(Div(p, PREFIX_24), TwoTo(24 - bits))
  }

  lemma {:induction false} TwoToAdd(a: nat, b: nat)
    ensures TwoTo(a + b) == TwoTo(a) * TwoTo(b)
  {
    if a > 0 { TwoToAdd(a - 1, b); }
  }

  lemma TwoTo24()
    ensures TwoTo(24) == 0x100_0000
  {
    assert TwoTo(3) == 8;
    TwoToAdd(3, 3);
    TwoToAdd(6, 6);
    TwoToAdd(12, 12);
  }

  lemma BinIsBelow(bits: nat, p: Pubkey)
    requires bits <= 24
    ensures BinFromPubkey(bits, p) < TwoTo(bits)
  {
    TwoToAdd(bits, 24 - bits);
    TwoTo24();
    DivBelow(p, PREFIX_24, 0x100_0000);
    DivBelow(p / PREFIX_24, TwoTo(24 - bits), TwoTo(bits));
  }

  lemma BinCalculatorIsMonotone(bits: nat)
    requires bits <= 24
    ensures Monotone((p: Pubkey) => BinFromPubkey(bits, p), TwoTo(bits))
  {
    forall p: Pubkey ensures BinFromPubkey(bits, p) < TwoTo(bits) { BinIsBelow(bits, p); }
    forall p: Pubkey, q: Pubkey | p <= q
      ensures BinFromPubkey(bits, p) <= BinFromPubkey(bits, q)
    {
      DivMonotone(p, q, PREFIX_24);
      DivMonotone(p / PREFIX_24, q / PREFIX_24, TwoTo(24 - bits));
    }
  }

  /** Every bin is the same share of the key space. */
  lemma BinsAreEqualShares(bits: nat, p: Pubkey)
    requires bits <= 24
    ensures var share, b := PREFIX_24 * TwoTo(24 - bits), BinFromPubkey(bits, p);
            TwoTo(bits) * share == SPACE && b * share <= p < (b + 1) * share
  {
    TwoToAdd(bits, 24 - bits);
    TwoTo24();
    DivOfDiv(p, PREFIX_24, TwoTo(24 - bits));
    SharesFill(TwoTo(bits), TwoTo(24 - bits));
  }

  lemma SharesFill(bins: nat, width: nat)
    requires bins * width == 0x100_0000
    ensures bins * (PREFIX_24 * width) == SPACE
  {
    assert bins * (PREFIX_24 * width) == PREFIX_24 * (bins * width);
  }

  lemma Regroup(b: nat, m: nat, n: nat)
    ensures (b * n) * m == b * (m * n) && (b * n + n) * m == (b + 1) * (m * n)
  {
  }

  lemma DivOfDiv(p: nat, m: nat, n: nat)
    requires m > 0 && n > 0
    ensures var b := Div(Div(p, m), n); b * (m * n) <= p < (b + 1) * (m * n)
  {
    var q := Div(p, m);
    var b := Div(q, n);
    QuotientBounds(p, m);
    QuotientBounds(q, n);
    MulMonotone(b * n, q, m);
    MulMonotone(q + 1, b * n + n, m);
    Regroup(b, m, n);
    assert (q + 1) * m == q * m + m;
  }

  // ---------------------------------------------------------------- all bins

  lemma {:induction false} HashesConcat(how: Hashing, a: seq<Item>, b: seq<Item>)
    ensures Hashes(how, a + b) == Hashes(how, a) + Hashes(how, b)
    ensures Lamports(a + b) == Lamports(a) + Lamports(b)
  {
    if |b| == 0 {
      assert a + b == a;
    } else {
      assert (a + b)[..|a + b| - 1] == a + b[..|b| - 1];
      HashesConcat(how, a, b[..|b| - 1]);
    }
  }

  lemma SumAppend(a: Outcome<U64>, x: nat, b: Outcome<U64>, y: nat)
    requires a == Capitalization(x) && b == Capitalization(y)
    ensures (if b.Panic? then Panic else CheckedAdd(a, b.value)) == Capitalization(x + y)
  {
  }

  /** The files of the first bins hold the hashes of that part of the table, and `total` its balance. */
  ghost predicate Filed(how: Hashing, items: seq<Item>, bin: Pubkey -> nat, b: nat, files: seq<seq<Hash>>, total: Outcome<U64>) {
    var part := Restricted(Table(items), bin, 0, b);
    Flatten(files) == Hashes(how, part) && total == Capitalization(Lamports(part))
  }

  lemma FiledNext(how: Hashing, items: seq<Item>, bin: Pubkey -> nat, bins: nat, b: nat, files: seq<seq<Hash>>,
                  total: Outcome<U64>, hashes: seq<Hash>, sum: Outcome<U64>)
    requires Monotone(bin, bins) && Filed(how, items, bin, b, files, total)
    requires var more := Restricted(Table(items), bin, b, b + 1);
             hashes == Hashes(how, more) && sum == Capitalization(Lamports(more))
    ensures Filed(how, items, bin, b + 1, files + [hashes], if sum.Panic? then Panic else CheckedAdd(total, sum.value))
  {
    OneMoreBin(items, bin, bins, b);
    FileAppended(how, Restricted(Table(items), bin, 0, b), Restricted(Table(items), bin, b, b + 1), files, total, hashes, sum);
  }

  lemma FileAppended(how: Hashing, before: seq<Item>, more: seq<Item>, files: seq<seq<Hash>>,
                     total: Outcome<U64>, hashes: seq<Hash>, sum: Outcome<U64>)
    requires Flatten(files) == Hashes(how, before) && total == Capitalization(Lamports(before))
    requires hashes == Hashes(how, more) && sum == Capitalization(Lamports(more))
    ensures Flatten(files + [hashes]) == Hashes(how, before + more)
    ensures (if sum.Panic? then Panic else CheckedAdd(total, sum.value)) == Capitalization(Lamports(before + more))
  {
    HashesConcat(how, before, more);
    SumAppend(total, Lamports(before), sum, Lamports(more));
    FlattenAppend(files, hashes);
  }

  lemma FiledAll(how: Hashing, items: seq<Item>, bin: Pubkey -> nat, bins: nat, files: seq<seq<Hash>>, total: Outcome<U64>)
    requires Monotone(bin, bins) && Filed(how, items, bin, bins, files, total)
    ensures Flatten(files) == Hashes(how, Table(items)) && total == Capitalization(Lamports(Table(items)))
  {
    AllBins(Table(items), bin, bins);
  }

  /** One file of hashes per bin. Flattened, they are the hashes of the table of all the items. */
  method DeDupAccounts(how: Hashing, groups: Groups, bins: nat, bin: Pubkey -> nat)
    returns (files: seq<seq<Hash>>, total: Outcome<U64>)
    requires AllSorted(groups) && Monotone(bin, bins)
    ensures |files| == bins
    ensures Flatten(files) == Hashes(how, Table(Flatten(groups)))
    ensures HashesOf(how, Table(Flatten(groups)), Flatten(files))
    ensures total == Capitalization(Lamports(Table(Flatten(groups))))
    ensures var sum := Lamports(Table(Flatten(groups))); if sum <= U64_MAX then total == Done(sum) else total == Panic
  {
    files, total := [], Done(0);
    ghost var items := Flatten(groups);
    assert Filed(how, items, bin, 0, [], Done(0)) by { NoBins(Table(items), bin); }
    for b := 0 to bins
      invariant |files| == b && Filed(how, items, bin, b, files, total)
    {
      var hashes, sum := DeDupAccountsInParallel(how, groups, b, bins, bin);
      FiledNext(how, items, bin, bins, b, files, total, hashes, sum);
      files := files + [hashes];
      total := if sum.Panic? then Panic else CheckedAdd(total, sum.value);
    }
    FiledAll(how, items, bin, bins, files, total);
    HashesAreRight(how, Table(items));
  }

  lemma {:induction false} NoBins(table: seq<Item>, bin: Pubkey -> nat)
    ensures Restricted(table, bin, 0, 0) == []
  {
    if |table| > 0 { NoBins(table[..|table| - 1], bin); }
  }

  lemma {:induction false} AllBins(table: seq<Item>, bin: Pubkey -> nat, bins: nat)
    requires Monotone(bin, bins)
    ensures Restricted(table, bin, 0, bins) == table
  {
    if |table| > 0 {
      AllBins(table[..|table| - 1], bin, bins);
      assert bin(table[|table| - 1].key) < bins;
    }
  }

  /** The table goes on, bin by bin. */
  lemma OneMoreBin(items: seq<Item>, bin: Pubkey -> nat, bins: nat, b: nat)
    requires Monotone(bin, bins)
    ensures var table := Table(items);
            Restricted(table, bin, 0, b + 1) == Restricted(table, bin, 0, b) + Restricted(table, bin, b, b + 1)
  {
    var before, more := Restricted(Table(items), bin, 0, b), Restricted(Table(items), bin, b, b + 1);
    TableOfBins(items, bin, 0, b, before);
    TableOfBins(items, bin, b, b + 1, more);
    TableConcat(items, bin, bins, 0, b, b + 1, before, more);
    TableOfBins(items, bin, 0, b + 1, before + more);
  }

  /** What the accounts hash is: the merkle root and the total of the table of all the items. */
  function AccountsHashOf(H: Hasher, how: Hashing, items: seq<Item>): Outcome<(Hash, U64)> {
    var table := Table(items);
    match Capitalization(Lamports(table))
    case Panic => Panic
    case Done(sum) => Done((Root(H, MERKLE_FANOUT, Hashes(how, table)), sum))
  }

  /** The root of hashes read back from files through a buffer. */
  method RootOfFiles(H: Hasher, files: seq<seq<Hash>>, maxBuffer: nat) returns (root: Hash)
    requires maxBuffer >= 1
    ensures root == Root(H, MERKLE_FANOUT, Flatten(files))
  {
    var c, readers := FromFiles(files);
    ghost var xs := Flatten(readers);
    var get := (start: nat) => if start < c.total then GetData(c, readers, start, maxBuffer) else [];
    assert Serves(get, xs);
    var noHashes;
    root, noHashes := ComputeMerkleRootFromSlices(H, c.total, MERKLE_FANOUT, None, get, None, xs);
  }

  /** Neither the number of bins nor the size of the read buffer shows in the result. */
  method RestOfHashCalculation(H: Hasher, how: Hashing, groups: Groups, bits: nat, maxBuffer: nat)
    returns (r: Outcome<(Hash, U64)>)
    requires AllSorted(groups) && bits <= 24 && maxBuffer >= 1
    ensures r == AccountsHashOf(H, how, Flatten(groups))
    ensures r.Panic? <==> Lamports(Table(Flatten(groups))) > U64_MAX
    ensures r.Done? ==> r.value.1 == Lamports(Table(Flatten(groups)))
    ensures r.Done? ==> exists hashes :: HashesOf(how, Table(Flatten(groups)), hashes) && r.value.0 == Root(H, MERKLE_FANOUT, hashes)
  {
    BinCalculatorIsMonotone(bits);
    var files, total := DeDupAccounts(how, groups, TwoTo(bits), (p: Pubkey) => BinFromPubkey(bits, p));
    if total.Panic? { return Panic; }
    var root := RootOfFiles(H, files, maxBuffer);
    r := Done((root, total.value));
  }

  /** `calculate_hash`: hashes held in vectors instead of files. */
  method CalculateHash(H: Hasher, hashes: seq<seq<Hash>>) returns (root: Hash, total: nat)
    ensures root == Root(H, MERKLE_FANOUT, Flatten(hashes)) && total == |Flatten(hashes)|
  {
    var c := New(hashes);
    var get := (start: nat) => if start < c.total then GetSlice(c, hashes, start) else [];
    assert Serves(get, Flatten(hashes));
    var noHashes;
    root, noHashes := ComputeMerkleRootFromSlices(H, c.total, MERKLE_FANOUT, None, get, None, Flatten(hashes));
    total := c.total;
  }

  /** The hash depends on the items only through the last write of each key. */
  lemma OnlyLastWritesCount(H: Hasher, how: Hashing, items: seq<Item>, others: seq<Item>)
    requires forall k: Pubkey :: LastWrite(items, k) == LastWrite(others, k)
    ensures AccountsHashOf(H, how, items) == AccountsHashOf(H, how, others)
  {
    TableCorrect(items);
    TableCorrect(others);
    TableUnique(Table(items), Table(others));
  }
}
