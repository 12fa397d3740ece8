# Accounts database: models and proofs

A Dafny model of the hard parts of the validator's accounts database (`accounts-db`), of the bank
forks its scans depend on, and of the script that orders crates for publishing. `dafny verify
dfyconfig.toml` checks everything.

Each part pairs what the code does with something independent of it: a simple definition it refines,
an invariant every step keeps, or an inverse.

- **Accounts hash** (`OrderedWrites`, `SlotGroups`, `DedupMerge`, `Merkle`, `MerkleReducer`,
  `CumulativeHashes`, `AccountsHash`). The k-way merge, the per-bin hash files, the lazily
  concatenated reads and the three-level merkle pass together compute the merkle root and total
  balance of one table: the last write of every pubkey, in pubkey order. The number of bins, the
  file boundaries and the buffer size do not show.
- **Accounts index** (`SlotLists`, `SlotEdits`, `ScanProtocol`, `DeadPubkeys`, `ScanStability`,
  `ScanLimits`, `BankForks`, `ForkedScans`, `RollingBitField`, `RootsTracker`, `IndexIterator`,
  `CheckedScan`, `DuplicateRemoval`). Along every interleaving of scans, writers, root advances, cleans,
  flushes, shrinks, packing, purges and removals of dead slots, with banks made and squashed root by
  root meanwhile, a scan that returns a result reports exactly the pubkeys with lamports it saw when it
  began, each once and in the version it saw then. A pubkey without lamports is seen exactly until a
  clean or a shrink purges it, and never in an older version after that.
- **Shrinking** (`AccountStorage`). Under every interleaving, a lookup that missed at first finds the
  store wherever its other reads fall, if and only if the store stays available.
- **Account locks** (`AccountLocks`). In every run the lock table is exactly what its holders hold.
- **Rent partitions** (`RentPartition`). Ranges tile the key space, and slot chains collect each
  partition once, each under its exact condition; how often each pubkey is collected is stated too.
- **Smaller state machines**: `BufferedReader`, `AccountsCache` with `CacheCounters`,
  `BlockhashQueue`, `LargestAccounts`, `PublishOrder`.

Pubkeys and hashes are 256-bit naturals, because Rust compares `[u8; 32]` as big-endian numbers. The
hash function is a parameter. A bin calculator is any monotone map, and `PubkeyBinCalculator24` is
proved to be one. Code that locks is modelled as a state machine whose steps are the atomic accesses;
code that updates objects is a class, or a method with a loop, proved against functions of its old
state. `Wrappers`, `Arithmetic`, `Pubkeys` and `Sequences` hold what the modules share.

## What turned out not to hold

In each case the model follows the code, a lemma or contract exhibits the failure, and the condition
under which the code is right is proved, exactly where this says so.

- A clean without a bound reads the greatest root while it purges, not when it starts, so a scan that
  began in between can lose the version it saw (`UnboundedCleanBreaksScan`). A clean up to `m` is safe
  for a scan at root `r`, whatever the list, exactly when no two alive roots `a <= r < b <= m` exist
  (`CleanBoundIsExact`).
- What a scan sees of a pubkey whose newest version has no lamports can be purged under it
  (`ZeroLamportsAreTaken`). What it sees changes exactly when such a purge takes the version seen
  (`StepIsUnseen`, `ScanIsStable`), and then it sees nothing of the pubkey.
- A scan that begins before there is any root, of a bank without slot 0 among its ancestors, can see
  slot 0 appear (`RootlessScanIsUnstable`): what it sees of a pubkey changes exactly when slot 0 becomes
  the first root with a version of the pubkey in it, or a purge takes that (`ScanSeesExactly`).
- A clean keeps a version at slot 0 although it is not at a root, when the list has no root up to the clean
  root, because 0 stands for that; otherwise it takes exactly what it should (`ReclaimedExactly`).
- `RollingBitField::insert` loses members when its bits are empty and `excess` has a key at or above
  the new one, and only then (`Insert`, `LosesMember`); roots added in order never get there
  (`InOrderIsAccepted`). `get_prior` is wrong exactly where slot 0 is the answer, or is in the set
  below a bound of 0 (`GetPrior`, `MissesPrior`).
- Partition `(n, n, N)` with `n > 0` has no end index and still covers one pubkey
  (`PartitionCoversItsUnits`); so a chain that hops over the first slot of a cycle collects the last
  pubkey of all once more, and no other (`ChainCoversPubkey`). `partition_from_pubkey` is the inverse
  of the ranges exactly below `N * width` and at the greatest prefix (`InverseExactly`).
  `get_partitions` collects exactly what is due if and only if the slot is smooth (`GetPartitions`).
- After an advance past the buffered bytes, a read that requires nothing leaves a wrong offset on
  show, and only then (`Read`, `GetOffsetAndData`, `ShowsStaleOffset`).
- A lookup may miss a store published before it started (`ShrunkAgainIsMissed`), exactly when the
  store does not stay available (`FoundExactly`).
- The write cache's size counters can wrap below zero while stores overlap (`CanWrap`); they cannot, in
  any order of the additions under way, exactly when every counter has room for all that go up and for
  all that go down (`NeverWrapsExactly`). Stores and drops that do not overlap never wrap
  (`SequentialNeverWraps`), and counters are right whenever no store is under way (`QuietIsExact`).
- `BlockhashQueue::is_hash_valid` can accept a hash of any age when hashes are registered repeatedly
  (`RepeatsLeaveStale`): exactly the hashes past the age that no registration since found the queue
  long enough to sweep (`IsHashValid`, `NoneStaleExactly`). `is_hash_valid_for_age` is exact for every
  age up to the queue's.

## Model

| member | source | states |
|---|---|---|
| OrderedWrites.TableCorrect | accounts-db/src/accounts_hash.rs:1115-1121 | the reference table is in key order and answers every key with its last write |
| OrderedWrites.TableUnique | accounts-db/src/accounts_hash.rs:1115-1121 | key order and last writes determine the table, so any list with both is the table |
| OrderedWrites.TableConcat | accounts-db/src/accounts_hash.rs:795-858 | tables of consecutive bins of a monotone bin calculator chain to the table of all of them |
| OrderedWrites.TableOfBins | accounts-db/src/accounts_hash.rs:1115-1121 | a list in key order with the last writes of some bins' keys is that part of the table, and conversely |
| DedupMerge.FirstNotBelow | accounts-db/src/accounts_hash.rs:912-928 | the search that never finds equality splits the items at the first one not below the bin |
| DedupMerge.BinarySearchForFirstPubkeyInBin | accounts-db/src/accounts_hash.rs:903-935 | the first item of the bin, or none exactly when no item is in it |
| DedupMerge.FindFirstPubkeyInBin | accounts-db/src/accounts_hash.rs:939-975 | the same of the whole group, whichever side of the interpolated guess is searched |
| DedupMerge.GetItem | accounts-db/src/accounts_hash.rs:862-899 | the last duplicate in the group, and where the group continues in the bin after the key |
| SlotGroups.Advance | accounts-db/src/accounts_hash.rs:1046-1113 | a pointer may move past its key if the key was visited or another pointer has it in a later group: every unvisited item stays covered |
| DedupMerge.MergeInsert | accounts-db/src/accounts_hash.rs:1056-1083 | a new key joins the working set in descending order and nothing loses its cover |
| DedupMerge.MergeSkip | accounts-db/src/accounts_hash.rs:1084-1096 | when a later group has the key, the pending group moves on |
| DedupMerge.MergeReplace | accounts-db/src/accounts_hash.rs:1097-1110 | when an earlier group has the key, it is replaced and moves on |
| DedupMerge.AddNextItem | accounts-db/src/accounts_hash.rs:1046-1113 | terminates with a strictly descending working set, one pointer per group, that covers every unvisited item of the bin |
| DedupMerge.InitializeDedupWorkingSet | accounts-db/src/accounts_hash.rs:979-1043 | after all groups, last to first, every item of the bin is covered |
| SlotGroups.SmallestIsLast | accounts-db/src/accounts_hash.rs:1144-1153 | the smallest key's pointer is in the last group that has the key |
| SlotGroups.VisitSmallest | accounts-db/src/accounts_hash.rs:1144-1182 | visiting it extends the visited list by the next key's last write |
| DedupMerge.VisitNext | accounts-db/src/accounts_hash.rs:1144-1182 | one iteration visits the next key and restores the working set above it |
| DedupMerge.HashesAreRight | accounts-db/src/accounts_hash.rs:1156-1172 | with zero-lamport accounts included there is one hash per item, its own or if it has no lamports its pubkey's; with them excluded there are those of exactly the items with lamports, in order |
| DedupMerge.DeDupAccountsInParallel | accounts-db/src/accounts_hash.rs:1122-1185 | the hashes written and the checked lamport sum, panic included, are those of the bin's part of the table |
| Merkle.LevelLength | accounts-db/src/accounts_hash.rs:515-521 | a level has as many hashes as `div_ceil` says |
| Merkle.LevelAt | accounts-db/src/accounts_hash.rs:540-555 | hash i of a level is the hash of group i, the last group perhaps short |
| Merkle.LevelsConcat | accounts-db/src/accounts_hash.rs:660-725 | several levels treat a prefix of whole chunks on its own |
| Merkle.LevelsOfOneChunk | accounts-db/src/accounts_hash.rs:660-725 | a chunk that fits becomes the one hash of its lower levels |
| Merkle.RootOfLevels | accounts-db/src/accounts_hash.rs:564-589 | with enough hashes for one level more, hashing several levels first does not change the root |
| MerkleReducer.ComputeMerkleRootLoop | accounts-db/src/accounts_hash.rs:525-562 | the loop computes the root of the one-level-at-a-time definition |
| MerkleReducer.Pull | accounts-db/src/accounts_hash.rs:640-658 | refetching when a slice is exhausted, every pull is the hash at the overall index |
| MerkleReducer.HashGroups | accounts-db/src/accounts_hash.rs:701-720 | the two inner loops hash one level of the next square of hashes, short last groups included |
| MerkleReducer.HashThreeLevels | accounts-db/src/accounts_hash.rs:699-725 | the three nested hashers give the hash of two levels of the chunk |
| MerkleReducer.CalculateThreeLevelChunks | accounts-db/src/accounts_hash.rs:564-589 | three levels exactly with at least fanout^4 hashes, a pass limit of at least three and a level count of at least three, where given |
| MerkleReducer.HashChunks | accounts-db/src/accounts_hash.rs:618-727 | a pass leaves one or three levels of the served hashes, however they are sliced |
| MerkleReducer.ComputeMerkleRootFromSlices | accounts-db/src/accounts_hash.rs:593-755 | without a level count the root, with one that many levels, for every fanout, list, pass limit and slicing |
| CumulativeHashes.New | accounts-db/src/accounts_hash.rs:395-420 | offsets locate every hash of the sources, empty sources skipped |
| CumulativeHashes.FindIndex | accounts-db/src/accounts_hash.rs:427-433 | the offset whose source contains the index |
| CumulativeHashes.Find | accounts-db/src/accounts_hash.rs:439-453 | source, index within it, and its length |
| CumulativeHashes.GetSlice | accounts-db/src/accounts_hash.rs:456-462 | a non-empty run of the flattened sources from the index on |
| CumulativeHashes.GetData | accounts-db/src/accounts_hash.rs:340-368 | the same, capped by the buffer |
| CumulativeHashes.FromFiles | accounts-db/src/accounts_hash.rs:317-331 | dropping empty files changes nothing of the flattened hashes |
| AccountsHash.BinCalculatorIsMonotone | accounts-db/src/pubkey_bins.rs:19-36 | for every legal bin count the calculator is monotone and in range |
| AccountsHash.BinsAreEqualShares | accounts-db/src/pubkey_bins.rs:19-36 | every bin is the same share of the key space |
| AccountsHash.DeDupAccounts | accounts-db/src/accounts_hash.rs:795-858 | for every bin count the flattened files are the hashes of the table of all items, zero-lamport accounts treated as asked, and the total is its balance or a panic |
| AccountsHash.RootOfFiles | accounts-db/src/accounts_hash.rs:1197-1208 | the root of the files' hashes, whatever the read buffer and wherever the files end |
| AccountsHash.RestOfHashCalculation | accounts-db/src/accounts_hash.rs:1190-1215 | the result is the root of the table's hashes, zero-lamport accounts treated as asked, and its balance, whatever the bin count and the read buffer |
| AccountsHash.CalculateHash | accounts-db/src/accounts_hash.rs:492-504 | the root and count of hashes held in vectors |
| AccountsHash.OnlyLastWritesCount | accounts-db/src/accounts_hash.rs:1115-1121 | items that agree on every key's last write have the same accounts hash |
| SlotLists.LatestSlot | accounts-db/src/accounts_index.rs:1345-1382 | the two backward loops find the last entry with the greatest visible slot |
| SlotLists.GetNewestRootInSlotList | accounts-db/src/accounts_index.rs:1535-1552 | the greatest allowed alive root in the list |
| SlotLists.PurgeOlderRootEntries | accounts-db/src/accounts_index.rs:1901-1936 | what is kept, and that exactly the stored entries below the bound and not at the newest root are reclaimed |
| SlotLists.PurgePartitions | accounts-db/src/accounts_index.rs:1901-1936 | kept and reclaimed entries are the old ones; the reclaimed are exactly those not cached, below the bound and not at the given root |
| SlotLists.ReclaimedExactly | accounts-db/src/accounts_index.rs:1901-1936 | an entry is reclaimed if and only if it is stored, below the bound, and not at the greatest alive root of the list up to the clean root, or at slot 0 if there is none |
| SlotLists.CleanIsInvisible | accounts-db/src/accounts_index.rs:1901-1986 | cleaning up to m is unseen at every root from m on, if and only if the version seen is not an uncached unrooted slot below m |
| ScanProtocol.BaseKeeps | accounts-db/src/accounts_index.rs:803-830 | every step keeps roots, registered counts, scanned forks, slot lists and clean bounds consistent |
| ScanProtocol.EditsExactly | accounts-db/src/accounts_index/in_mem_accounts_index.rs:619-698 | which versions of a pubkey every write, clean, flush, purge and packing leaves |
| ScanProtocol.CleanLeaves | accounts-db/src/accounts_db.rs:2432-2444 | a clean goes up to the proposed root or the least registered one, and leaves of a pubkey what is cached, at or above that, or at its newest root |
| DeadPubkeys.FoundIsDead | accounts-db/src/accounts_db.rs:2879-2898 | what a clean records of a pubkey whose newest rooted version has no lamports is all any scan can see of it up to there |
| DeadPubkeys.StaysDead | accounts-db/src/accounts_db.rs:2879-3110 | that stays so between the finding and the purge, whatever writers, scans, other cleans and shrinks do |
| DeadPubkeys.TakeStaysDead | accounts-db/src/accounts_db.rs:3109-3110 | in particular when another clean or shrink purges the same pubkey first |
| DeadPubkeys.StepKeeps | accounts-db/src/accounts_index.rs:803-1008 | every step keeps the whole invariant |
| ScanProtocol.CleanBoundIsSafe | accounts-db/src/accounts_db.rs:2432-2444 | a clean that starts now is bounded by the root of every scan |
| ScanStability.DeadSeen | accounts-db/src/accounts_db.rs:3109-3110 | purging a pubkey found dead goes unseen, or the version seen has no lamports and nothing is seen afterwards |
| ScanStability.BeginsWith | accounts-db/src/accounts_index.rs:871-890 | a scan begins with the newest version at an alive root or, if the greatest root is among its ancestors, at one of these |
| ScanStability.WritesAreRead | accounts-db/src/accounts_index.rs:871-890 | a bank whose ancestors have the greatest root reads what is written on its fork |
| ScanStability.StepIsUnseen | accounts-db/src/accounts_index.rs:831-945 | the version a scan of a bank not removed sees of a pubkey stays the same at every step of anybody, if and only if the step does not purge it for want of lamports, and does not make slot 0 the first root with a version that was hidden |
| ScanStability.RemovedStays | accounts-db/src/accounts_db.rs:5690-5703 | once a scan's bank is marked as removed it stays marked until the scan ends |
| ScanStability.RemovedExactly | accounts-db/src/accounts_index.rs:992-1009 | the check at the end of a scan fails exactly if the bank was removed before the scan or during it |
| ScanStability.RunKeeps | accounts-db/src/accounts_index.rs:803-991 | the invariant holds along every run |
| ScanStability.ScanIsStable | accounts-db/src/accounts_index.rs:803-1008 | once there is a root, along every run a scan that ends without its bank having been removed, which is what it checks, saw every version with lamports as when it began, and every other exactly until it was purged |
| ScanStability.StableFromStart | accounts-db/src/accounts_index.rs:803-1008 | the same in every run of the index from its beginning |
| ScanStability.ScanSeesExactly | accounts-db/src/accounts_index.rs:803-830 | with or without a root at its start, what a scan sees after a run: it is the same if and only if the version was neither purged nor revealed by rooting slot 0, or first revealed and then purged |
| SlotEdits.StoredKeeps | accounts-db/src/accounts_db.rs:6360-6448 | a flush changes where a version is kept, not which version a reader sees |
| SlotEdits.MovedKeeps | accounts-db/src/ancient_append_vecs.rs:850-863 | a version packed into another slot past no other version of the pubkey is still what readers of both slots see |
| SlotEdits.WithoutOthers | accounts-db/src/accounts_index.rs:1315-1337 | purging slots other than that of the version seen goes unseen |
| ScanStability.SkipUnseen | accounts-db/src/accounts_db.rs:6300-6358 | the versions a cleaning flush drops are ones no scan sees |
| ScanStability.EndScanNeverPanics | accounts-db/src/accounts_index.rs:983-991 | the count a scan lowers when it ends is always there |
| ScanLimits.CleanBoundIsExact | accounts-db/src/accounts_index.rs:803-808 | a clean up to m is invisible to a scan at r for every list if and only if no alive roots a <= r < b <= m exist |
| ScanLimits.UnboundedCleanBreaksScan | accounts-db/src/accounts_index.rs:1901-1936 | a run in which a clean without a bound takes the version a scan saw |
| ScanLimits.RootlessScanIsUnstable | accounts-db/src/accounts_index.rs:803-830 | a run in which a scan begun without a root, of a bank without slot 0, sees a version appear |
| ScanLimits.ZeroLamportsAreTaken | accounts-db/src/accounts_db.rs:2879-3110 | a run in which a clean takes a version without lamports a scan saw |
| BankForks.LinkedReachesRoot | runtime/src/bank.rs:4742-4750 | from a descendant of the root, `parents` reaches exactly the line down to the root |
| BankForks.StepKeeps | runtime/src/bank.rs:2663-2690 | making banks, and squashing them one root at a time, keeps what is known of ancestors and roots |
| BankForks.AncestorsTellDescent | accounts-db/src/accounts_index.rs:831-945 | in every run, between the roots of a squash too, a bank descends from the greatest root exactly when that root is among its ancestors, and then its ancestors up to it are rooted |
| BankForks.RootedUpTo | accounts-db/src/accounts_index.rs:831-870 | what a bank has up to a root the squash has reached is rooted once the roots up to it are added |
| BankForks.MaxRootTellsDescent | accounts-db/src/accounts_index.rs:831-870 | the step behind it, for every reachable state |
| BankForks.PathAscends | runtime/src/bank.rs:2663-2676 | a squash adds its roots in ascending order, and they are what `parents` reaches |
| BankForks.RootsComeInOrder | runtime/src/bank.rs:2663-2676 | each root a squash adds is above the one before and not older than the root |
| BankForks.SquashRoots | runtime/src/bank.rs:2663-2690 | a whole squash roots the bank and all that `parents` reaches from it, cuts its link and makes it the root |
| ForkedScans.IndexStepIsDisciplined | accounts-db/src/accounts_index.rs:831-945 | in every state of banks and index together, `add_root` sees roots in order and a scan of any bank has its ancestors up to the greatest root rooted |
| ForkedScans.StepKeeps | runtime/src/bank.rs:2663-2690 | every step keeps the forks and the index agreed on the roots |
| ForkedScans.IndexRuns | accounts-db/src/accounts_index.rs:803-1008 | what the index does along any such run is a run scan stability applies to |
| ForkedScans.ScanBeginsOnFork | accounts-db/src/accounts_index.rs:831-945 | the scan of a bank begins with the newest version among the alive roots and, if the bank descends from the greatest root, its line from there on |
| ForkedScans.BankScanIsStable | accounts-db/src/accounts_index.rs:831-1008 | along every run of banks and index, the scan of a bank not removed sees every version with lamports as when it began, and every other exactly until it is purged |
| ForkedScans.StableFromSnapshot | accounts-db/src/accounts_index.rs:831-1008 | in particular in every run from a snapshot |
| RollingBitFields.RollingBitField.constructor | accounts-db/src/rolling_bit_field.rs:99-111 | an empty set |
| RollingBitFields.RollingBitField.Insert | accounts-db/src/rolling_bit_field.rs:138-201 | adds the key to the set; what callers then observe is that set if and only if the key is accepted |
| RollingBitFields.LosesMember | accounts-db/src/rolling_bit_field.rs:138-201 | calls after which a key is a member and is not found |
| RollingBitFields.RollingBitField.InOrderIsAccepted | accounts-db/src/accounts_index.rs:2010-2022 | keys added in order always are |
| RollingBitFields.RollingBitField.Remove | accounts-db/src/rolling_bit_field.rs:204-227 | removes the key and says whether it was there |
| RollingBitFields.RollingBitField.Purge | accounts-db/src/rolling_bit_field.rs:234-259 | the window then starts at its least key |
| RollingBitFields.RollingBitField.ObservedIsMembers | accounts-db/src/rolling_bit_field.rs:261-280 | `contains` answers for exactly the members |
| RollingBitFields.RollingBitField.GetAll | accounts-db/src/rolling_bit_field.rs:335-344 | every member once |
| RollingBitFields.RollingBitField.Min | accounts-db/src/rolling_bit_field.rs:123-136 | the least member |
| RollingBitFields.RollingBitField.GetPrior | accounts-db/src/rolling_bit_field.rs:319-333 | the greatest member below the bound, if and only if slot 0 is not what matters |
| RollingBitFields.MissesPrior | accounts-db/src/rolling_bit_field.rs:319-333 | calls after which slot 0 is not found |
| RootsTrackers.RootsTracker.AddRoot | accounts-db/src/accounts_index.rs:2010-2022 | a root in order is added; out of order the assertion fails and nothing changes |
| RootsTrackers.RootsTracker.CleanDeadSlot | accounts-db/src/accounts_index.rs:2035-2044 | the slot goes, the greatest root ever added stays |
| RootsTrackers.RootsTracker.BeginScan | accounts-db/src/accounts_index.rs:803-830 | registers the greatest root |
| RootsTrackers.RootsTracker.EndScan | accounts-db/src/accounts_index.rs:983-991 | undoes one registration |
| RootsTrackers.RootsTracker.MinOngoingScanRoot | accounts-db/src/accounts_index.rs:1339-1341 | the least registered root |
| DuplicateRemoval.StableSortSorts | accounts-db/src/accounts_index.rs:1678-1680 | the sort orders the keys |
| DuplicateRemoval.StableSortKeepsLast | accounts-db/src/accounts_index.rs:1678-1680 | being stable, it keeps each key's last update last |
| DuplicateRemoval.Compact | accounts-db/src/accounts_index.rs:1683-1708 | the backwards pass leaves the last item of every run of equal keys at the back, never overwriting an unread item |
| DuplicateRemoval.RemoveOlderDuplicatePubkeys | accounts-db/src/accounts_index.rs:1672-1711 | what is kept is the table the batch leaves; with the duplicates it is the whole batch; none are returned exactly when nothing was removed |
| IndexIterator.VisitedBinsSuffice | accounts-db/src/accounts_index.rs:510-543 | every key in range is in one of the bins visited |
| IndexIterator.VisitedBinsAreNeeded | accounts-db/src/accounts_index.rs:510-543 | and only bins between those of the bounds are visited |
| IndexIterator.Items | accounts-db/src/accounts_index/in_mem_accounts_index.rs:230-248 | the keys of a bin in range, each once |
| IndexIterator.CollectChunk | accounts-db/src/accounts_index.rs:590-612 | sorted, the first thousand keys left or all of them in order; unsorted, all |
| IndexIterator.AccountsIndexIterator.Next | accounts-db/src/accounts_index.rs:590-619 | the next chunk and where the walk then stands; it ends exactly when nothing is left in range |
| IndexIterator.ScanAll | accounts-db/src/accounts_index.rs:1049-1080 | the walk terminates; while others change the bins, no key is listed twice, only keys that were there are, and every key in range that was there throughout is; sorted listings ascend |
| IndexIterator.QuietScanIsExact | accounts-db/src/accounts_index.rs:486-619 | if nobody changes the index, the listing is exactly the keys in range |
| CheckedScans.SeesTheSame | accounts-db/src/accounts_index.rs:803-1008 | at every moment of a scan whose bank is not removed by its end it sees what it saw first, or nothing where that had no lamports and was purged |
| CheckedScans.DoScanAccounts | accounts-db/src/accounts_index.rs:1028-1072 | the pubkeys the walk lists, each with what latest_slot finds when its list is read |
| CheckedScans.ScanReportsExactly | accounts-db/src/accounts_index.rs:779-1072 | with every bin and every list read at any moment of the scan, exactly the pubkeys in range seen with lamports at the start are reported, once each and in that version; one without lamports exactly if it was listed and not purged by its lookup |
| CheckedScans.BankScanReportsExactly | accounts-db/src/accounts_index.rs:779-1072 | the same for the scan of a bank in every run of banks and index from a snapshot |
| CheckedScans.BankScanReportsItsFork | accounts-db/src/accounts_index.rs:779-1072 | from a snapshot: of the versions with lamports exactly the newest on the bank's fork when the scan began are reported, of the pubkeys in range |
| CheckedScans.DoCheckedScanAccounts | accounts-db/src/accounts_index.rs:779-1009 | an error exactly if the bank was removed, and otherwise that report; with lamports, exactly the newest versions the bank may read when the scan begins |
| AccountStorages.StepKeeps | accounts-db/src/account_storage.rs:170-198 | between the reads and writes of a shrink its old store is in the map until the swap, and its new store is published from the insertion to the end |
| AccountStorages.ShrinkAssertionsHold | accounts-db/src/account_storage.rs:170-290 | no assertion of a shrink or of its drop can fail |
| AccountStorages.LookupFinds | accounts-db/src/account_storage.rs:53-71 | a lookup never ends empty-handed for a store available in every state since its first read |
| AccountStorages.ReturnsWhatWasBrought | accounts-db/src/account_storage.rs:53-290 | whatever happens, a lookup returns a store with the id that the slot had when it began or that was inserted, reopened or shrunk to since |
| AccountStorages.SwapPutsNewStore | accounts-db/src/account_storage.rs:262-290 | after the swap the new store itself is in the map until the slot is reopened, removed or shrunk again |
| AccountStorages.RemovedIsNotFound | accounts-db/src/account_storage.rs:53-71 | of a slot just removed a lookup returns nothing |
| AccountStorages.NewStoreIsFound | accounts-db/src/account_storage.rs:53-71 | the new store is found by every lookup that starts after it is published: the very store, or one it was reopened as since |
| AccountStorages.OldStoreIsFound | accounts-db/src/account_storage.rs:53-71 | the old store, as it then is in the map, is found by every lookup whose first read precedes the swap |
| AccountStorages.InterleavedReturns | accounts-db/src/account_storage.rs:53-71 | wherever the second and third read fall among the others' steps, the lookup returns the very store they find, or none |
| AccountStorages.FoundExactly | accounts-db/src/account_storage.rs:53-71 | a lookup that missed at first finds the store wherever its other reads fall, if and only if the store is available throughout |
| AccountStorages.ShrunkAgainIsMissed | accounts-db/src/account_storage.rs:53-71 | a second shrink that swaps before the lookup's last read: an interleaving that misses |
| AccountLocks.LockTable.TryLockAccounts | accounts-db/src/account_locks.rs:24-47 | all locks or none, and all exactly when every key can be locked |
| AccountLocks.LockTable.UnlockAccounts | accounts-db/src/account_locks.rs:53-61 | releases one by one |
| AccountLocks.DuplicateFinder.HasDuplicates | accounts-db/src/account_locks.rs:134-155 | exact in both branches, and leaves its set empty |
| AccountLocks.DuplicateFinder.ValidateAccountLocks | accounts-db/src/account_locks.rs:116-127 | too many exactly above the limit, loaded twice exactly with a repeated key within it, and otherwise valid |
| AccountLocks.LockAllEffect | accounts-db/src/account_locks.rs:83-89 | what locking a validated transaction does to each key |
| AccountLocks.UnlockAllEffect | accounts-db/src/account_locks.rs:91-112 | what unlocking it does |
| AccountLocks.LocksUnlessConflict | accounts-db/src/account_locks.rs:24-47 | a transaction gets its locks if and only if it conflicts with no holder |
| AccountLocks.RepresentsUnique | accounts-db/src/account_locks.rs:14-18 | the table is a function of who holds what |
| AccountLocks.RunsFromEmpty | accounts-db/src/account_locks.rs:24-112 | in every run write locks and read counts are those of the holders, who do not conflict; without holders the table is empty |
| AccountLocks.LockAccounts | accounts-db/src/accounts.rs:561-610 | the batch, transaction by transaction, with validation errors passed on |
| AccountLocks.UnlockAccounts | accounts-db/src/accounts.rs:613-629 | unlocks exactly what was locked |
| AccountLocks.LockBatchRepresents | accounts-db/src/accounts.rs:596-610 | a batch adds the valid transactions that got their locks, and no others |
| AccountLocks.LockBatchIsRight | accounts-db/src/accounts.rs:596-610 | every transaction of a batch gets its validation error, or its locks if and only if it conflicts with no holder and no earlier transaction that got its own, or else `AccountInUse` |
| AccountLocks.BatchRoundTrip | accounts-db/src/accounts.rs:561-629 | locking a batch and unlocking it with its results restores the table |
| RentPartition.PartitionWidth | accounts-db/src/accounts_partition.rs:216-217 | 2^64 divided by the count, without overflow |
| RentPartition.UnitsTile | accounts-db/src/accounts_partition.rs:195-308 | the units tile the key space without gap or overlap |
| RentPartition.OneUnit | accounts-db/src/accounts_partition.rs:195-308 | every pubkey is in exactly one unit |
| RentPartition.PartitionCoversItsUnits | accounts-db/src/accounts_partition.rs:111-121 | a partition covers exactly the units of its end indexes, if and only if it is not (n, n, N) with n > 0 |
| RentPartition.AdjustedDivision | accounts-db/src/accounts_partition.rs:317-346 | the adjusted division is the plain one |
| RentPartition.InverseExactly | accounts-db/src/accounts_partition.rs:317-346 | it inverts the ranges exactly below N * width and at the greatest prefix |
| RentPartition.ListsSufficeExactly | accounts-db/src/accounts_partition.rs:370-385 | no pubkey is told a partition past the lists, if and only if the greatest ordinary prefix is not |
| RentPartition.EpochListsSuffice | accounts-db/src/accounts_partition.rs:370-385 | which holds for every count up to 2^32 |
| RentPartition.HugeCountsNeedMore | accounts-db/src/accounts_partition.rs:370-385 | and fails for 2^63 + 1 |
| RentPartition.RentPayingAccountsByPartition.AddAccount | accounts-db/src/accounts_partition.rs:380-385 | adds to the pubkey's list; the index is in range whenever the lists suffice |
| RentPartition.GetPartitions | accounts-db/src/accounts_partition.rs:154-189 | the partitions of a slot after its parent are proper, and their end indexes are exactly those due, in order and once, if and only if the slot is smooth |
| RentPartition.CollectsWhatIsDue | accounts-db/src/accounts_partition.rs:154-189 | they collect exactly the indexes due, in order and once, if and only if the slot is smooth |
| RentPartition.ChainCollectsInOrder | accounts-db/src/accounts_partition.rs:154-189 | along a smooth chain from genesis every cycle's indexes are collected in order, each once |
| RentPartition.TimesIsCount | accounts-db/src/accounts_partition.rs:111-121 | partitions cover a pubkey once for every end index that is its unit, and once for every empty partition whose one pubkey it is |
| RentPartition.ChainCoversPubkey | accounts-db/src/accounts_partition.rs:154-308 | how often a smooth chain collects each pubkey: once per whole cycle, once in the present one if reached, and the last pubkey once more for every hop over a cycle's first slot |
| BufferedReaders.BufferedReader.AdvanceOffset | accounts-db/src/buffered_reader.rs:127-135 | the position moves by the advance |
| BufferedReaders.BufferedReader.SetRequiredDataLen | accounts-db/src/buffered_reader.rs:139-141 | sets what the next read must make available |
| BufferedReaders.BufferedReader.ReadIntoBuffer | accounts-db/src/file_io.rs:38-73 | fills the buffer or stops at the last valid byte, however short the reads |
| BufferedReaders.BufferedReader.ReadMoreBuffer | accounts-db/src/file_io.rs:10-32 | leftover bytes move to the front and the file's next bytes follow |
| BufferedReaders.BufferedReader.Read | accounts-db/src/buffered_reader.rs:149-172 | succeeds if and only if the requirement can be met by buffer and file; stale only if nothing was required |
| BufferedReaders.BufferedReader.GetOffsetAndData | accounts-db/src/buffered_reader.rs:183-188 | the valid file bytes at the sum of all advances, with the right offset if and only if not stale |
| BufferedReaders.ShowsStaleOffset | accounts-db/src/buffered_reader.rs:127-188 | calls after which the offset shown is wrong |
| AccountsCaches.StepKeeps | accounts-db/src/accounts_cache.rs:66-97 | every atomic step keeps counters and additions under way equal, up to wrapping, to the data held and the data written |
| AccountsCaches.QuietIsExact | accounts-db/src/accounts_cache.rs:35-97 | in every run, when no store is under way, each slot's size, its write counters and the total are exact, removed but referenced slots included |
| AccountsCaches.AllDroppedIsZero | accounts-db/src/accounts_cache.rs:35-41 | when all slot caches are dropped the total is zero |
| AccountsCaches.RemovedCanBeDropped | accounts-db/src/accounts_cache.rs:35-41 | in every run, once a slot is removed its cache can be dropped as soon as no store to it is under way |
| CacheCounters.NeverWrapsExactly | accounts-db/src/accounts_cache.rs:66-97 | no order of the additions under way wraps a counter if and only if every counter has room for all that go up and for all that go down |
| CacheCounters.RoomInTermsOfData | accounts-db/src/accounts_cache.rs:78-93 | for a slot: no more growth under way than data held, and data held plus shrinkage under way within a word |
| CacheCounters.CanWrap | accounts-db/src/accounts_cache.rs:78-93 | a run after which some order wraps |
| CacheCounters.StoreIsSafe | accounts-db/src/accounts_cache.rs:66-97 | a whole store from a quiet state wraps nothing and leaves a quiet state |
| CacheCounters.DropIsSafe | accounts-db/src/accounts_cache.rs:35-41 | what a drop subtracts is part of the total |
| CacheCounters.SequentialNeverWraps | accounts-db/src/accounts_cache.rs:35-119 | along every run of whole stores, removals and drops no addition or subtraction wraps, and afterwards sizes, total and `total_bytes` are exact |
| BlockhashQueues.RunTracks | accounts-db/src/blockhash_queue.rs:113-131 | after every run entries carry their latest index, so indexes are distinct and at most the last, every hash young enough has one, and there are at most max_age + 1 |
| BlockhashQueues.RunHolds | accounts-db/src/blockhash_queue.rs:113-131 | after every run the queue holds a hash if and only if it was registered and no registration since it expired found the queue at its age |
| BlockhashQueues.NoneStaleExactly | accounts-db/src/blockhash_queue.rs:71-75 | after every run the queue is free of hashes past its age if and only if none outlives it |
| BlockhashQueues.StaleExactly | accounts-db/src/blockhash_queue.rs:113-131 | a registration, whatever the queue holds before it, leaves a stale entry if and only if one is expired while the queue is shorter than its age |
| BlockhashQueues.RunDropsStale | accounts-db/src/blockhash_queue.rs:113-131 | with no hash registered twice there are no stale entries |
| BlockhashQueues.RepeatsLeaveStale | accounts-db/src/blockhash_queue.rs:71-75 | with one registered over and over, another stays however old |
| BlockhashQueues.BlockhashQueue.RegisterHash | accounts-db/src/blockhash_queue.rs:113-131 | the queue of the log with the hash appended |
| BlockhashQueues.BlockhashQueue.GenesisHash | accounts-db/src/blockhash_queue.rs:96-107 | gives the hash index 0 at any time; as the first call it is the queue of the log with a genesis hash |
| BlockhashQueues.BlockhashQueue.IsHashValidForAge | accounts-db/src/blockhash_queue.rs:78-111 | for every age up to max_age, true if and only if the latest registration is at most that many registrations old |
| BlockhashQueues.BlockhashQueue.IsHashValid | accounts-db/src/blockhash_queue.rs:71-75 | true exactly of the hashes registered and not swept since; right if and only if the hash does not outlive the queue's age |
| LargestAccounts.LoadLargestAccounts | accounts-db/src/accounts.rs:251-299 | exactly the largest accounts with lamports at, or not at, the addresses, by lamports and then pubkey in descending order |
| LargestAccounts.LargestUnique | accounts-db/src/accounts.rs:251-299 | there is only one such list |
| LargestAccounts.ScanOrderDoesNotMatter | accounts-db/src/accounts.rs:267-292 | so the answer does not depend on the order of the scan |
| PublishOrder.FindDirectlyCircular | ci/order-crates-for-publishing.py:110-115 | finds two packages that depend on each other exactly when there are such |
| PublishOrder.Round | ci/order-crates-for-publishing.py:139-149 | splits the waiting packages into those with no waiting dependency and the rest |
| PublishOrder.RoundProgresses | ci/order-crates-for-publishing.py:139-149 | what is taken extends a duplicate-free order in which every package follows its dependencies |
| PublishOrder.RoundTakesOne | ci/order-crates-for-publishing.py:130-137 | in an acyclic graph every round takes a package |
| PublishOrder.RoundKeepsCycles | ci/order-crates-for-publishing.py:139-149 | packages on a cycle wait for ever |
| PublishOrder.OrderPackages | ci/order-crates-for-publishing.py:110-152 | an order is found if and only if the workspace is acyclic, within n * n rounds, and then it is publishable |

## Left out

- Files, memory maps and I/O errors: files are sequences and every read succeeds. After a failed read `BufferedReader` has moved its bytes but not its ranges; that path is not modelled.
- Rayon: parallel maps and folds are taken in order.
- Metrics, logging, timers, and the hash functions themselves.
- `AccountsHasher`: `max_inclusive_num_pubkeys`, which only sizes a file, and the overflow of fanout^4 in `usize` for fanouts above 2^16.
- DeDupAccountsInParallel: a panic of the checked sum does not stop the loop; it is remembered and decides the outcome.
- ScanProtocol: the secondary indexes. The check for a removed bank is taken together with the end of the registration; it comes later in the code, when the mark can only have been added. Which of the pubkeys found dead are spared (`calc_delete_dependencies`, the filter for incremental snapshots) is left open.
- ScanProtocol: taken as guarantees, because flushes, cleans, shrinks and packing run one after the other in the background service: a flush that skips a pubkey has written it from a later root; a shrunk slot is a root, and what is cached of a pubkey it drops is newer or on an abandoned fork; a pubkey is not packed between being found dead and being purged. Packed slots are an epoch old, hence older than any scan.
- BankForks: banks are values named by slots, not reference-counted objects; which banks are dropped is left to the guarantees of `ScanProtocol`.
- AccountStorages: the maps are values in a state machine over their atomic accesses; a slot shrunk twice at once, or removed under a shrink, which the callers exclude, is not a step.
- DoScanAccounts: lists the pubkeys before it looks them up, where the code looks up each chunk as it comes; the moments of the reads are free, so the order does not show. The abort flag is not modelled.
- IndexIterator: a bin is its set of keys; the entries that travel with them, and holding ranges in memory, are not modelled.
- LoadLargestAccounts: the library heap is a list kept in order; the scan is the sequence it delivers.
- RemoveOlderDuplicatePubkeys: the library's stable sort is a stable insertion sort; the final drain of the vector is the returned slice.
- AccountsCaches: the count of repeated writes, and the set of unflushed roots.
- `lock_accounts_with_results`, which passes earlier errors through the same loop.
- `get_partition_from_slot_indexes` and the multi-epoch cycles, whose correct use depends on callers.
- GenesisHash: a genesis hash after the first registration is described but not tracked in the log; the bank sets it first and once.
- `BlockhashQueue`: fees and timestamps.
- `account_info.rs`, `bucket_map_holder.rs`, `accounts_index_storage.rs`, the decoders and the build tooling: easy members, timers, or thin wrappers.
