/**
  Account locks: a table of write locks and read-lock counts, acquired all or nothing per
  transaction. The table is proved to be, in every run, exactly what its holders hold.
 */
module AccountLocks {
  import opened Pubkeys

  datatype LockError = TooManyAccountLocks | AccountLoadedTwice | AccountInUse

  datatype LockResult = Ok | Err(error: LockError)

  /** An account key of a transaction, and whether the transaction may write it. */
  datatype Request = Request(key: Pubkey, writable: bool)

  type Transaction = seq<Request>

  type Positive = n: nat | n > 0 witness 1

  /** `write_locks` and `readonly_locks`; a read count of zero has no entry. */
  datatype Table = Table(write: set<Pubkey>, read: map<Pubkey, Positive>)

  const Empty: Table := Table({}, map[])

  function Readers(t: Table, key: Pubkey): nat { if key in t.read then t.read[key] else 0 }

  predicate CanLock(t: Table, r: Request) {
    if r.writable then r.key !in t.read && r.key !in t.write else r.key !in t.write
  }

  function LockOne(t: Table, r: Request): Table {
    if r.writable then t.(write := t.write + {r.key})
    else t.(read := t.read[r.key := Readers(t, r.key) + 1])
  }

  /** An unlock of something not locked changes nothing (outside debug builds). */
  function UnlockOne(t: Table, r: Request): Table {
    if r.writable then t.(write := t.write - {r.key})
    else if r.key !in t.read then t
    else if t.read[r.key] == 1 then t.(read := t.read - {r.key})
    else t.(read := t.read[r.key := t.read[r.key] - 1])
  }

  function LockAll(t: Table, tx: Transaction): Table {
    if |tx| == 0 then t else LockOne(LockAll(t, tx[..|tx| - 1]), tx[|tx| - 1])
  }

  function UnlockAll(t: Table, tx: Transaction): Table {
    if |tx| == 0 then t else UnlockOne(UnlockAll(t, tx[..|tx| - 1]), tx[|tx| - 1])
  }

  predicate CanLockAll(t: Table, tx: Transaction) {
    forall i :: 0 <= i < |tx| ==> CanLock(t, tx[i])
  }

  // ---------------------------------------------------------------- the lock table

  class LockTable {
    var writeLocks: set<Pubkey>
    var readonlyLocks: map<Pubkey, Positive>

    function Contents(): Table
      reads this
    {
      Table(writeLocks, readonlyLocks)
    }

    constructor ()
      ensures Contents() == Empty
    {
      writeLocks, readonlyLocks := {}, map[];
    }

    method LockRequest(r: Request)
      modifies this
      ensures Contents() == LockOne(old(Contents()), r)
    {
      if r.writable {
        writeLocks := writeLocks + {r.key};
      } else {
        var count := if r.key in readonlyLocks then readonlyLocks[r.key] else 0;
        readonlyLocks := readonlyLocks[r.key := count + 1];
      }
    }

    method UnlockRequest(r: Request)
      modifies this
      ensures Contents() == UnlockOne(old(Contents()), r)
    {
      if r.writable {
        writeLocks := writeLocks - {r.key};
      } else if r.key in readonlyLocks {
        var held: nat := readonlyLocks[r.key];
        var count := held - 1;
        readonlyLocks := if count == 0 then readonlyLocks - {r.key} else readonlyLocks[r.key := count];
      }
    }

    /** Checks every key, and only then locks any. */
    method TryLockAccounts(tx: Transaction) returns (result: LockResult)
      modifies this
      ensures result == (if CanLockAll(old(Contents()), tx) then Ok else Err(AccountInUse))
      ensures Contents() == if result.Ok? then LockAll(old(Contents()), tx) else old(Contents())
    {
      for i := 0 to |tx|
        invariant Contents() == old(Contents())
        invariant forall j :: 0 <= j < i ==> CanLock(Contents(), tx[j])
      {
        if !CanLock(Contents(), tx[i]) { return Err(AccountInUse); }
      }
      for i := 0 to |tx|
        invariant Contents() == LockAll(old(Contents()), tx[..i])
      {
        assert tx[..i + 1][..i] == tx[..i];
        LockRequest(tx[i]);
      }
      assert tx[..|tx|] == tx;
      result := Ok;
    }

    method UnlockAccounts(tx: Transaction)
      modifies this
      ensures Contents() == UnlockAll(old(Contents()), tx)
    {
      for i := 0 to |tx|
        invariant Contents() == UnlockAll(old(Contents()), tx[..i])
      {
        assert tx[..i + 1][..i] == tx[..i];
        UnlockRequest(tx[i]);
      }
      assert tx[..|tx|] == tx;
    }
  }

  // ---------------------------------------------------------------- validation

  predicate Distinct(tx: Transaction) {
    forall i, j :: 0 <= i < j < |tx| ==> tx[i].key != tx[j].key
  }

  const USE_ACCOUNT_LOCK_SET_SIZE: nat := 32

  /** The thread-local set is empty between calls. */
  class DuplicateFinder {
    var seen: set<Pubkey>

    constructor ()
      ensures seen == {}
    {
      seen := {};
    }

    /** With a set for many keys, by comparing every pair for few. */
    method HasDuplicates(tx: Transaction) returns (r: bool)
      requires seen == {}
      modifies this
      ensures r == !Distinct(tx) && seen == {}
    {
      r := false;
      if |tx| >= USE_ACCOUNT_LOCK_SET_SIZE {
        var i := 0;
        while i < |tx| && !r
          invariant 0 <= i <= |tx|
          invariant !r ==> seen == (set j | 0 <= j < i :: tx[j].key) && forall j, k :: 0 <= j < k < i ==> tx[j].key != tx[k].key
          invariant r ==> !Distinct(tx)
        {
          if tx[i].key in seen { r := true; } else { seen := seen + {tx[i].key}; }
          i := i + 1;
        }
        seen := {};
      } else {
        for i := 0 to |tx|
          invariant forall j, k :: 0 <= j < i && j < k < |tx| ==> tx[j].key != tx[k].key
          invariant seen == {}
        {
          for j := i + 1 to |tx|
            invariant forall k :: i < k < j ==> tx[i].key != tx[k].key
            invariant seen == {}
          {
            if tx[i].key == tx[j].key { return true; }
          }
        }
      }
    }

    method ValidateAccountLocks(tx: Transaction, limit: nat) returns (result: LockResult)
      requires seen == {}
      modifies this
      ensures seen == {} && result == Validated(tx, limit)
      ensures result == Err(TooManyAccountLocks) <==> |tx| > limit
      ensures result == Err(AccountLoadedTwice) <==> |tx| <= limit && exists i, j :: 0 <= i < j < |tx| && tx[i].key == tx[j].key
      ensures result == Ok || result == Err(TooManyAccountLocks) || result == Err(AccountLoadedTwice)
    {
      if |tx| > limit { return Err(TooManyAccountLocks); }
      var duplicates := HasDuplicates(tx);
      result := if duplicates then Err(AccountLoadedTwice) else Ok;
    }
  }

  function Validated(tx: Transaction, limit: nat): LockResult {
    if |tx| > limit then Err(TooManyAccountLocks) else if !Distinct(tx) then Err(AccountLoadedTwice) else Ok
  }

  // ---------------------------------------------------------------- what locking and unlocking do

  predicate Writes(tx: Transaction, key: Pubkey) { Request(key, true) in tx }

  predicate Reads(tx: Transaction, key: Pubkey) { Request(key, false) in tx }

  lemma Snoc(tx: Transaction, key: Pubkey)
    requires |tx| > 0
    ensures Writes(tx, key) <==> Writes(tx[..|tx| - 1], key) || tx[|tx| - 1] == Request(key, true)
    ensures Reads(tx, key) <==> Reads(tx[..|tx| - 1], key) || tx[|tx| - 1] == Request(key, false)
  {
    assert tx == tx[..|tx| - 1] + [tx[|tx| - 1]];
  }

  lemma {:induction false} LockAllEffect(t: Table, tx: Transaction, key: Pubkey)
    requires Distinct(tx)
    ensures key in LockAll(t, tx).write <==> key in t.write || Writes(tx, key)
    ensures Readers(LockAll(t, tx), key) == Readers(t, key) + if Reads(tx, key) then 1 else 0
  {
    if |tx| > 0 {
      Snoc(tx, key);
      LockAllEffect(t, tx[..|tx| - 1], key);
    }
  }

  lemma {:induction false} UnlockAllEffect(t: Table, tx: Transaction, key: Pubkey)
    requires Distinct(tx)
    ensures key in UnlockAll(t, tx).write <==> key in t.write && !Writes(tx, key)
    ensures Readers(UnlockAll(t, tx), key) == if Reads(tx, key) && Readers(t, key) > 0 then Readers(t, key) - 1 else Readers(t, key)
  {
    if |tx| > 0 {
      Snoc(tx, key);
      UnlockAllEffect(t, tx[..|tx| - 1], key);
    }
  }

  // ---------------------------------------------------------------- holders

  type Holders = map<nat, Transaction>

  ghost function Writing(holders: Holders, key: Pubkey): set<nat> { set id | id in holders && Writes(holders[id], key) }

  ghost function Reading(holders: Holders, key: Pubkey): set<nat> { set id | id in holders && Reads(holders[id], key) }

  /** At key `key` the table is what the holders hold, and they do not conflict. */
  ghost predicate KeyOk(t: Table, holders: Holders, key: Pubkey) {
    && (key in t.write <==> Writing(holders, key) != {})
    && Readers(t, key) == |Reading(holders, key)|
    && (forall a, b :: a in Writing(holders, key) && b in holders && b != a ==> !Writes(holders[b], key) && !Reads(holders[b], key))
  }

  ghost predicate Represents(t: Table, holders: Holders) {
    && (forall id :: id in holders ==> Distinct(holders[id]))
    && (forall key: Pubkey :: KeyOk(t, holders, key))
  }

  /** Holder `id` and the transaction want the same key and not both to read it. */
  ghost predicate ConflictAt(holder: Transaction, tx: Transaction, key: Pubkey) {
    (Writes(holder, key) && (Writes(tx, key) || Reads(tx, key))) || (Reads(holder, key) && Writes(tx, key))
  }

  lemma NobodyReads(t: Table, holders: Holders, key: Pubkey)
    requires KeyOk(t, holders, key)
    ensures key !in t.read <==> forall id :: id in holders ==> !Reads(holders[id], key)
  {
    if key !in t.read {
      forall id | id in holders ensures !Reads(holders[id], key) { assert Reading(holders, key) == {}; assert id !in Reading(holders, key); }
    } else {
      assert Reading(holders, key) != {};
    }
  }

  /** A transaction gets its locks exactly when it conflicts with no holder at any key. */
  lemma LocksUnlessConflict(t: Table, holders: Holders, tx: Transaction)
    requires Represents(t, holders)
    ensures CanLockAll(t, tx) <==> forall id, key: Pubkey :: id in holders ==> !ConflictAt(holders[id], tx, key)
  {
    forall id, key: Pubkey | CanLockAll(t, tx) && id in holders
      ensures !ConflictAt(holders[id], tx, key)
    {
      assert KeyOk(t, holders, key);
      NobodyReads(t, holders, key);
      if Writes(holders[id], key) { assert id in Writing(holders, key); }
    }
    if !CanLockAll(t, tx) {
      var i :| 0 <= i < |tx| && !CanLock(t, tx[i]);
      var key := tx[i].key;
      assert KeyOk(t, holders, key);
      NobodyReads(t, holders, key);
      assert tx[i] in tx;
      if key in t.write {
        var id :| id in Writing(holders, key);
        assert ConflictAt(holders[id], tx, key);
      } else {
        var id :| id in holders && Reads(holders[id], key);
        assert ConflictAt(holders[id], tx, key);
      }
    }
  }

  /** Locking adds a holder. */
  lemma LockRepresents(t: Table, holders: Holders, id: nat, tx: Transaction)
    requires Represents(t, holders) && id !in holders && Distinct(tx) && CanLockAll(t, tx)
    ensures Represents(LockAll(t, tx), holders[id := tx])
  {
    LocksUnlessConflict(t, holders, tx);
    var t', holders' := LockAll(t, tx), holders[id := tx];
    forall key: Pubkey ensures KeyOk(t', holders', key) { LockKeyOk(t, holders, id, tx, key); }
  }

  lemma LockKeyOk(t: Table, holders: Holders, id: nat, tx: Transaction, key: Pubkey)
    requires KeyOk(t, holders, key) && id !in holders && Distinct(tx)
    requires forall h :: h in holders ==> !ConflictAt(holders[h], tx, key)
    ensures KeyOk(LockAll(t, tx), holders[id := tx], key)
  {
    LockAllEffect(t, tx, key);
    OneMoreHolder(holders, id, tx, key);
    OneKeyOneMode(tx, key);
  }

  lemma OneMoreHolder(holders: Holders, id: nat, tx: Transaction, key: Pubkey)
    requires id !in holders
    ensures Writing(holders[id := tx], key) == if Writes(tx, key) then Writing(holders, key) + {id} else Writing(holders, key)
    ensures Reading(holders[id := tx], key) == if Reads(tx, key) then Reading(holders, key) + {id} else Reading(holders, key)
    ensures |Reading(holders[id := tx], key)| == |Reading(holders, key)| + if Reads(tx, key) then 1 else 0
  {
    OneMoreWriter(holders, id, tx, key);
    OneMoreReader(holders, id, tx, key);
  }

  lemma OneMoreWriter(holders: Holders, id: nat, tx: Transaction, key: Pubkey)
    requires id !in holders
    ensures Writing(holders[id := tx], key) == if Writes(tx, key) then Writing(holders, key) + {id} else Writing(holders, key)
  {
  }

  lemma OneMoreReader(holders: Holders, id: nat, tx: Transaction, key: Pubkey)
    requires id !in holders
    ensures Reading(holders[id := tx], key) == if Reads(tx, key) then Reading(holders, key) + {id} else Reading(holders, key)
    ensures |Reading(holders[id := tx], key)| == |Reading(holders, key)| + if Reads(tx, key) then 1 else 0
  {
    assert id !in Reading(holders, key);
  }

  lemma OneKeyOneMode(tx: Transaction, key: Pubkey)
    requires Distinct(tx)
    ensures !(Writes(tx, key) && Reads(tx, key))
  {
  }

  /** Unlocking removes a holder. */
  lemma UnlockRepresents(t: Table, holders: Holders, id: nat)
    requires Represents(t, holders) && id in holders
    ensures Represents(UnlockAll(t, holders[id]), holders - {id})
  {
    var t', holders' := UnlockAll(t, holders[id]), holders - {id};
    forall key: Pubkey ensures KeyOk(t', holders', key) { UnlockKeyOk(t, holders, id, key); }
  }

  lemma UnlockKeyOk(t: Table, holders: Holders, id: nat, key: Pubkey)
    requires KeyOk(t, holders, key) && id in holders && Distinct(holders[id])
    ensures KeyOk(UnlockAll(t, holders[id]), holders - {id}, key)
  {
    var tx, rest := holders[id], holders - {id};
    UnlockAllEffect(t, tx, key);
    assert rest[id := tx] == holders;
    OneMoreHolder(rest, id, tx, key);
    OneKeyOneMode(tx, key);
    if Writes(tx, key) { assert id in Writing(holders, key); assert Writing(rest, key) == {}; }
  }

  /** The table is a function of who holds what. */
  lemma RepresentsUnique(t: Table, u: Table, holders: Holders)
    requires Represents(t, holders) && Represents(u, holders)
    ensures t == u
  {
    forall key: Pubkey ensures (key in t.write <==> key in u.write) && Readers(t, key) == Readers(u, key) {
      assert KeyOk(t, holders, key) && KeyOk(u, holders, key);
    }
    assert t.write == u.write;
    forall key | key in t.read ensures key in u.read && t.read[key] == u.read[key] { assert Readers(t, key) == Readers(u, key); }
    forall key | key in u.read ensures key in t.read { assert Readers(t, key) == Readers(u, key); }
    assert t.read == u.read;
  }

  // ---------------------------------------------------------------- runs

  datatype State = State(table: Table, holders: Holders)

  /** `Lock` is one transaction of a batch; transactions that fail validation never get here. */
  datatype Step = Lock(id: nat, tx: Transaction) | Unlock(id: nat)

  predicate Enabled(s: State, step: Step) {
    match step
    case Lock(id, tx) => id !in s.holders && Distinct(tx)
    case Unlock(id) => id in s.holders
  }

  function Apply(s: State, step: Step): State
    requires Enabled(s, step)
  {
    match step
    case Lock(id, tx) => if CanLockAll(s.table, tx) then State(LockAll(s.table, tx), s.holders[id := tx]) else s
    case Unlock(id) => State(UnlockAll(s.table, s.holders[id]), s.holders - {id})
  }

  ghost predicate Run(s: State, steps: seq<Step>)
    decreases |steps|
  {
    steps == [] || (Enabled(s, steps[0]) && Run(Apply(s, steps[0]), steps[1..]))
  }

  ghost function After(s: State, steps: seq<Step>): State
    requires Run(s, steps)
    decreases |steps|
  {
    if steps == [] then s else After(Apply(s, steps[0]), steps[1..])
  }

  lemma {:induction false} RunRepresents(s: State, steps: seq<Step>)
    requires Represents(s.table, s.holders) && Run(s, steps)
    ensures var s' := After(s, steps); Represents(s'.table, s'.holders)
    decreases |steps|
  {
    if steps != [] {
      match steps[0] {
        case Lock(id, tx) => if CanLockAll(s.table, tx) { LockRepresents(s.table, s.holders, id, tx); }
        case Unlock(id) => UnlockRepresents(s.table, s.holders, id);
      }
      RunRepresents(Apply(s, steps[0]), steps[1..]);
    }
  }

  /** From the empty table, every run leaves what its holders hold; when none is left, nothing is locked. */
  lemma RunsFromEmpty(steps: seq<Step>)
    requires Run(State(Empty, map[]), steps)
    ensures var s := After(State(Empty, map[]), steps);
            Represents(s.table, s.holders) && (s.holders == map[] ==> s.table == Empty)
  {
    EmptyRepresents();
    RunRepresents(State(Empty, map[]), steps);
    var s := After(State(Empty, map[]), steps);
    if s.holders == map[] { RepresentsUnique(s.table, Empty, map[]); }
  }

  lemma EmptyRepresents()
    ensures Represents(Empty, map[])
  {
    forall key: Pubkey ensures KeyOk(Empty, map[], key) { assert Writing(map[], key) == {} && Reading(map[], key) == {}; }
  }

  // ---------------------------------------------------------------- batches

  /** `lock_accounts`: what it returns and leaves, transaction by transaction. */
  function LockBatch(t: Table, txs: seq<Transaction>, limit: nat): (Table, seq<LockResult>) {
    if |txs| == 0 then (t, [])
    else
      var (u, results) := LockBatch(t, txs[..|txs| - 1], limit);
      var tx := txs[|txs| - 1];
      var valid := Validated(tx, limit);
      if valid != Ok then (u, results + [valid])
      else if CanLockAll(u, tx) then (LockAll(u, tx), results + [Ok])
      else (u, results + [Err(AccountInUse)])
  }

  /** `unlock_accounts`: only what was locked is unlocked. */
  function UnlockBatch(t: Table, txs: seq<Transaction>, results: seq<LockResult>): Table
    requires |results| == |txs|
  {
    if |txs| == 0 then t
    else
      var u := UnlockBatch(t, txs[..|txs| - 1], results[..|txs| - 1]);
      if results[|txs| - 1].Ok? then UnlockAll(u, txs[|txs| - 1]) else u
  }

  method LockAccounts(locks: LockTable, finder: DuplicateFinder, txs: seq<Transaction>, limit: nat) returns (results: seq<LockResult>)
    requires finder.seen == {}
    modifies locks, finder
    ensures (locks.Contents(), results) == LockBatch(old(locks.Contents()), txs, limit) && finder.seen == {}
  {
    var validated: seq<LockResult> := [];
    for i := 0 to |txs|
      invariant finder.seen == {} && |validated| == i && forall j :: 0 <= j < i ==> validated[j] == Validated(txs[j], limit)
      invariant locks.Contents() == old(locks.Contents())
    {
      var v := finder.ValidateAccountLocks(txs[i], limit);
      validated := validated + [v];
    }
    results := [];
    for i := 0 to |txs|
      invariant finder.seen == {}
      invariant (locks.Contents(), results) == LockBatch(old(locks.Contents()), txs[..i], limit)
    {
      assert txs[..i + 1][..i] == txs[..i];
      var r := validated[i];
      if r.Ok? { r := locks.TryLockAccounts(txs[i]); }
      results := results + [r];
    }
    assert txs[..|txs|] == txs;
  }

  method UnlockAccounts(locks: LockTable, txs: seq<Transaction>, results: seq<LockResult>)
    requires |results| == |txs|
    modifies locks
    ensures locks.Contents() == UnlockBatch(old(locks.Contents()), txs, results)
  {
    for i := 0 to |txs|
      invariant locks.Contents() == UnlockBatch(old(locks.Contents()), txs[..i], results[..i])
    {
      assert txs[..i + 1][..i] == txs[..i] && results[..i + 1][..i] == results[..i];
      if results[i].Ok? { locks.UnlockAccounts(txs[i]); }
    }
    assert txs[..|txs|] == txs && results[..|txs|] == results;
  }

  /** The holders, and the transactions of the batch from `from` on that got their locks. */
  function HeldFrom(holders: Holders, txs: seq<Transaction>, results: seq<LockResult>, base: nat, from: nat): Holders
    requires |results| == |txs|
  {
    if |txs| <= from then holders
    else
      var last := |txs| - 1;
      var held := HeldFrom(holders, txs[..last], results[..last], base, from);
      if results[last].Ok? then held[base + last := txs[last]] else held
  }

  ghost predicate Below(holders: Holders, base: nat) { forall id :: id in holders ==> id < base }

  lemma {:induction false} HeldBelow(holders: Holders, txs: seq<Transaction>, results: seq<LockResult>, base: nat, from: nat)
    requires |results| == |txs| && Below(holders, base)
    ensures Below(HeldFrom(holders, txs, results, base, from), base + |txs|)
    decreases |txs|
  {
    if |txs| > from { HeldBelow(holders, txs[..|txs| - 1], results[..|txs| - 1], base, from); }
  }

  lemma {:induction false} LockBatchLength(t: Table, txs: seq<Transaction>, limit: nat)
    ensures |LockBatch(t, txs, limit).1| == |txs|
  {
    if |txs| > 0 { LockBatchLength(t, txs[..|txs| - 1], limit); }
  }

  lemma {:induction false} HeldMembers(holders: Holders, txs: seq<Transaction>, results: seq<LockResult>, base: nat)
    requires |results| == |txs| && Below(holders, base)
    ensures var held := HeldFrom(holders, txs, results, base, 0);
            && (forall id :: id in holders ==> id in held && held[id] == holders[id])
            && (forall j: nat :: j < |txs| && results[j].Ok? ==> base + j in held && held[base + j] == txs[j])
            && (forall id :: id in held ==> id in holders || (base <= id < base + |txs| && results[id - base].Ok?))
    decreases |txs|
  {
    if |txs| > 0 { HeldMembers(holders, txs[..|txs| - 1], results[..|txs| - 1], base); }
  }

  /** The transaction conflicts with no holder at any key. */
  ghost predicate FreeOf(holders: Holders, tx: Transaction) {
    forall id, key: Pubkey :: id in holders ==> !ConflictAt(holders[id], tx, key)
  }

  /** Nor with an earlier transaction of the batch that got its locks. */
  ghost predicate FreeOfEarlier(txs: seq<Transaction>, results: seq<LockResult>, i: nat)
    requires i < |txs| && i <= |results|
  {
    forall j, key: Pubkey :: 0 <= j < i && results[j].Ok? ==> !ConflictAt(txs[j], txs[i], key)
  }

  /** The validation error; or the locks, exactly if nobody who holds locks by then conflicts. */
  ghost predicate RightResult(holders: Holders, txs: seq<Transaction>, results: seq<LockResult>, limit: nat, i: nat)
    requires i < |txs| == |results|
  {
    results[i] ==
      if Validated(txs[i], limit) != Ok then Validated(txs[i], limit)
      else if FreeOf(holders, txs[i]) && FreeOfEarlier(txs, results, i) then Ok
      else Err(AccountInUse)
  }

  lemma FreeOfHeld(holders: Holders, txs: seq<Transaction>, results: seq<LockResult>, base: nat, tx: Transaction)
    requires |results| == |txs| && Below(holders, base) && FreeOf(HeldFrom(holders, txs, results, base, 0), tx)
    ensures FreeOf(holders, tx)
    ensures forall j, key: Pubkey :: 0 <= j < |txs| && results[j].Ok? ==> !ConflictAt(txs[j], tx, key)
  {
    var held := HeldFrom(holders, txs, results, base, 0);
    HeldMembers(holders, txs, results, base);
    forall id, key: Pubkey | id in holders ensures !ConflictAt(holders[id], tx, key) { assert held[id] == holders[id]; }
    forall j, key: Pubkey | 0 <= j < |txs| && results[j].Ok? ensures !ConflictAt(txs[j], tx, key) {
      assert held[base + j] == txs[j];
    }
  }

  lemma FreeOfAll(holders: Holders, txs: seq<Transaction>, results: seq<LockResult>, base: nat, tx: Transaction)
    requires |results| == |txs| && Below(holders, base) && FreeOf(holders, tx)
    requires forall j, key: Pubkey :: 0 <= j < |txs| && results[j].Ok? ==> !ConflictAt(txs[j], tx, key)
    ensures FreeOf(HeldFrom(holders, txs, results, base, 0), tx)
  {
    var held := HeldFrom(holders, txs, results, base, 0);
    HeldMembers(holders, txs, results, base);
    forall id, key: Pubkey | id in held ensures !ConflictAt(held[id], tx, key) {
      if id !in holders { assert held[base + (id - base)] == txs[id - base]; }
    }
  }

  lemma HeldConflicts(holders: Holders, txs: seq<Transaction>, results: seq<LockResult>, base: nat, i: nat)
    requires i < |txs| && |results| == i && Below(holders, base)
    ensures FreeOf(HeldFrom(holders, txs[..i], results, base, 0), txs[i]) <==> FreeOf(holders, txs[i]) && FreeOfEarlier(txs, results, i)
  {
    if FreeOf(HeldFrom(holders, txs[..i], results, base, 0), txs[i]) {
      FreeOfHeld(holders, txs[..i], results, base, txs[i]);
      forall j, key: Pubkey | 0 <= j < i && results[j].Ok? ensures !ConflictAt(txs[j], txs[i], key) { assert txs[j] == txs[..i][j]; }
    }
    if FreeOf(holders, txs[i]) && FreeOfEarlier(txs, results, i) { FreeOfAll(holders, txs[..i], results, base, txs[i]); }
  }

  /** Every transaction of a batch gets the result it should. */
  lemma {:induction false} LockBatchIsRight(t: Table, holders: Holders, txs: seq<Transaction>, limit: nat, base: nat, i: nat)
    requires Represents(t, holders) && Below(holders, base) && i < |txs|
    ensures |LockBatch(t, txs, limit).1| == |txs| && RightResult(holders, txs, LockBatch(t, txs, limit).1, limit, i)
    decreases |txs|
  {
    var last := |txs| - 1;
    var front := txs[..last];
    var (u, results) := LockBatch(t, front, limit);
    LockBatchLength(t, txs, limit);
    LockBatchLength(t, front, limit);
    var all := LockBatch(t, txs, limit).1;
    assert all[..last] == results;
    if i < last {
      LockBatchIsRight(t, holders, front, limit, base, i);
      assert FreeOfEarlier(txs, all, i) <==> FreeOfEarlier(front, results, i);
    } else {
      LockBatchRepresents(t, holders, front, limit, base);
      LocksUnlessConflict(u, HeldFrom(holders, front, results, base, 0), txs[last]);
      HeldConflicts(holders, txs, results, base, last);
      assert FreeOfEarlier(txs, all, last) <==> FreeOfEarlier(txs, results, last);
    }
  }

  /** A batch leaves the table of the holders it adds, and only valid transactions are added. */
  lemma {:induction false} LockBatchRepresents(t: Table, holders: Holders, txs: seq<Transaction>, limit: nat, base: nat)
    requires Represents(t, holders) && Below(holders, base)
    ensures var (u, results) := LockBatch(t, txs, limit);
            && |results| == |txs|
            && (forall i :: 0 <= i < |txs| && results[i].Ok? ==> Validated(txs[i], limit) == Ok)
            && Represents(u, HeldFrom(holders, txs, results, base, 0))
    decreases |txs|
  {
    if |txs| > 0 {
      var last := |txs| - 1;
      var (u, results) := LockBatch(t, txs[..last], limit);
      LockBatchRepresents(t, holders, txs[..last], limit, base);
      LockBatchLength(t, txs, limit);
      var all := LockBatch(t, txs, limit).1;
      assert all[..last] == results;
      var held := HeldFrom(holders, txs[..last], results, base, 0);
      HeldBelow(holders, txs[..last], results, base, 0);
      if all[last].Ok? { LockRepresents(u, held, base + last, txs[last]); }
    }
  }

  /** The first of the batch that is still held. */
  lemma {:induction false} FirstHeld(holders: Holders, txs: seq<Transaction>, results: seq<LockResult>, base: nat, n: nat)
    requires |results| == |txs| && n < |txs| && Below(holders, base)
    ensures var held, rest := HeldFrom(holders, txs, results, base, n), HeldFrom(holders, txs, results, base, n + 1);
            if results[n].Ok? then base + n in held && held[base + n] == txs[n] && held - {base + n} == rest else held == rest
    decreases |txs|
  {
    var last := |txs| - 1;
    if n == last {
      assert HeldFrom(holders, txs[..last], results[..last], base, n) == holders;
    } else {
      FirstHeld(holders, txs[..last], results[..last], base, n);
    }
  }

  lemma {:induction false} UnlockPrefix(u: Table, holders: Holders, txs: seq<Transaction>, results: seq<LockResult>, base: nat, n: nat)
    requires |results| == |txs| && n <= |txs| && Below(holders, base)
    requires Represents(u, HeldFrom(holders, txs, results, base, 0))
    ensures Represents(UnlockBatch(u, txs[..n], results[..n]), HeldFrom(holders, txs, results, base, n))
    decreases n
  {
    if n > 0 {
      UnlockPrefix(u, holders, txs, results, base, n - 1);
      FirstHeld(holders, txs, results, base, n - 1);
      assert txs[..n][..n - 1] == txs[..n - 1] && results[..n][..n - 1] == results[..n - 1];
      if results[n - 1].Ok? {
        UnlockRepresents(UnlockBatch(u, txs[..n - 1], results[..n - 1]), HeldFrom(holders, txs, results, base, n - 1), base + n - 1);
      }
    }
  }

  /** Locking a batch and unlocking it with the results it got restores the table. */
  lemma BatchRoundTrip(t: Table, holders: Holders, txs: seq<Transaction>, limit: nat, base: nat)
    requires Represents(t, holders) && Below(holders, base)
    ensures var (u, results) := LockBatch(t, txs, limit);
            |results| == |txs| && UnlockBatch(u, txs, results) == t
  {
    var (u, results) := LockBatch(t, txs, limit);
    LockBatchRepresents(t, holders, txs, limit, base);
    UnlockPrefix(u, holders, txs, results, base, |txs|);
    assert txs[..|txs|] == txs && results[..|txs|] == results;
    RepresentsUnique(UnlockBatch(u, txs, results), t, holders);
  }
}
