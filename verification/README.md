# Verification of the immutable ledger

A Dafny model of the two cores of the repository, with the properties they are meant to
have proved for every input, every run and every interleaving.

**The ledger** (`ledger/`). A versioned sparse Merkle store: a copy-on-write tree stored
16-ary and hashed binary, commits that mark what they retire, a pruner that deletes marked
records blindly, proofs, verified reads, a history chain written by a second pass of the same
commit, a structural diff, and a resumable export with its restore.

**The SQL layer** (`sqlledger/`). An order-preserving key codec, the translation of column
ranges to key intervals, a derived keyspace kept beside the ledger, scans that merge a
transaction's buffer, statement editors, savepoints and optimistic commits.

## How to read the model

- Hashes and keyed hashes are terms (`Hashing.Digest`): injective, with disjoint ranges per
  kind. The keyed path of a key is a function parameter. Where two keys could share a path,
  the assumption is stated where it is needed: for the reserved head key of a batch, and for
  the SQL rows at hand (`RowsInLedger.Apart`).
- A path is 64 nibbles. A leaf holds a commitment and the version that wrote its value.
  `SparseMerkle.SparseHash` is the reference: the plain binary sparse Merkle hash of a map.
- `Runs.Ledger` is the disk with the history of committed versions. `Runs.Next` lists its
  steps: commit, prune (complete or stopped after any chunk) and pin. The methods of
  `LedgerStore.Store` are proved to be such steps.
- Record keys are typed instead of byte strings. Backends may fail with an I/O error unless
  they are `reliable`; a contract that allows an error says so through that flag.
- On the SQL side a row is a sequence of optional values in the codec's normalised form. The
  ledger appears there as the map from row references to rows; `RowsInLedger` proves that the
  contents of the ledger core follow that map.
- `Transactions.World` holds committed rows, the version and every session.
  `Transactions.Next` lists the steps of an interleaving. Locked sections are atomic.
- Write-sets are immutable values keyed by table and primary key. A refused statement is assumed to
  be discarded by the engine: `Transactions.Next` has no step that closes one, and what is
  proved about unique indexes rests on that.

## What the code does not do

Some promises of the documentation, or natural readings of it, do not hold of the code. Each
is settled by lemmas that say exactly when they hold.

- The descent of a read checks hashes but not depth. With foreign records it
  can index past the path, if and only if the root commits to two paths that agree with the
  read path up to the last bit (`Integrity.OutOfRangeIff`).
- The `done` result of `SnapshotLeaves` is documented as telling whether the listing is complete.
  It does for a positive limit (`Snapshots.DoneIffNoneLeft`). With a limit below one a nonempty tree is never
  done (`Snapshots.NoRoomNeverDone`).
- A store opened without the chain refuses to reopen once a restore has brought a head leaf in;
  `LedgerStore.OpenLatest` states every refusal.
- The commit documentation says a failed COMMIT is rolled back. When only the derived write
  fails the ledger has already committed (`Sessions.CommitTxn`).
- After such a failure the store goes on, and the next completed commit marks the keyspace as
  current although entries are missing (`SqlStorage.LostDerivedWrite`). When a
  commit leaves the keyspace exact is settled by `Derived.ExactAfterCommitIff`.
- Statements outside a transaction commit without a second look at the rows they read. One that
  writes over a row changed meanwhile can leave an index entry behind
  (`Agreement.StaleDirectUpdate`). The keyspace stays in agreement over a run if and only if every
  commit writes or unsets all entries of the rows it finds (`Agreement.KeyspaceAgreesIff`).
- Rebuilding the keyspace clears the scan space but not the index space, so entries of rows that
  changed stay behind (`Reconciling.StaleEntryStays`); `Reconciling.CrashReconcileExactIff` says
  exactly when none do. Such an entry can make a unique check refuse a value that is free
  (`Reconciling.StaleEntryRefuses`); a value it calls free is free, as long as the transaction has
  not been overtaken (`UniqueChecks.CheckUnique`).
- A transaction takes one ledger version, as documented, when it changes rows; otherwise none
  (`Transactions.NoLostUpdate`).
- Unique indexes can end with duplicates in two situations, each shown by a run
  (`Uniqueness.FreedTwiceDuplicates`, `Uniqueness.NetNoOpDuplicates`); a commit keeps an index free
  of duplicates if and only if neither occurs (`Uniqueness.CommitUniqueIff`).
- A scan inside a transaction that has been overtaken can yield a key whose read fails
  (`Lookups.OvertakenScanFails`), if and only if the key dangles (`Lookups.ScanFailsIff`).

## Model

| member | source | states |
|---|---|---|
| SparseMerkle.SparseHashInjective | ledger/node.go:203-244 | Two leaf sets with the same sparse Merkle hash at the same depth hold the same path-to-commitment map. |
| SparseMerkle.SparseHashOfCommitments | ledger/node.go:203-244 | The hash depends on nothing but the path-to-commitment map: value versions leave no trace. |
| SparseMerkle.HashShape | ledger/node.go:210-219 | Empty hashes to the placeholder, one leaf to its leaf hash, more to an inner node over the two bit halves, and conversely the hash's kind tells how many leaves there are. |
| StoredTree.RangeHash | ledger/node.go:220-244 | Every aligned slot range of a node folds to the plain binary hash of the leaves it covers, lone inner children included. |
| StoredTree.NodeHashIsSparseHash | ledger/node.go:203-244 | The 16-slot fold of a node is the binary sparse Merkle hash of all leaves below it, at every depth. |
| StoredTree.TreeHashIsSparseHash | ledger/node.go:203-244 | The hash of a stored tree is the binary sparse Merkle hash of its contents. |
| Records.FoldSlots | ledger/node.go:220-244 | The counting, recursive slot fold computes the specified range hash. |
| Records.CountPresent | ledger/node.go:222-233 | Counts occupied slots up to two and finds the first; exact about none, one and many. |
| Records.LoadNode | ledger/store.go:841-867 | Returns a node record only if it decodes and re-hashes to the expected hash; missing and altered records are told apart. |
| Records.Backend.WriteBatch | ledger/backend.go:37-46 | A batch is atomic: all of it in order, or nothing. |
| Records.Backend.Get | ledger/backend.go:37-46 | A point read returns the stored record or reports an I/O error. |
| Records.Backend.Scan | ledger/backend.go:37-46 | A range read returns distinct keys of the range, at most limit, and all of them when fewer. |
| Proofs.CommonPrefixBits | ledger/proof.go:66-79 | The result is the exact number of leading bits two paths share. |
| Proofs.Verify | ledger/proof.go:85-124 | Accepts exactly the proofs with at most 256 siblings, a terminal leaf that shares as many leading bits, and a fold equal to the root; and returns the statement they make. |
| Proofs.ProofSound | ledger/proof.go:85-124 | Whatever proof is accepted against the root of a map, its statement (present with that commitment, or absent) is true of the map. |
| Proofs.ProofComplete | ledger/proof.go:230-322 | For every map and path the tree's own proof is accepted and states the map's answer. |
| Proofs.SiblingsFold | ledger/proof.go:230-322 | The siblings of a path fold back to the subtree hash, number at most the remaining bits, and the terminal leaf shares that many bits with the path. |
| Proofs.OccupiedSlots | ledger/proof.go:262-267 | Lists the occupied slots of a range: none, exactly one, or several. |
| Proofs.DescendNode | ledger/proof.go:257-310 | The halving descent inside a node collects exactly the siblings of the path there and stops at an empty range, a lone leaf or the next node. |
| Proofs.ReverseInPlace | ledger/proof.go:313-316 | Swapping ends reverses the collected siblings. |
| Proofs.CollectSiblings | ledger/proof.go:230-311 | The descent over stored nodes terminates with exactly the path's siblings and terminal leaf. |
| Proofs.ProvePath | ledger/proof.go:230-322 | On a store-written tree the prover returns exactly the proof of its contents, or an I/O error. |
| Updates.GroupEnd | ledger/store.go:1055-1061 | The updates that share a nibble form a maximal contiguous slice. |
| Merging.SortEntries | ledger/store.go:594-596 | The sorted list holds every update once, in strictly ascending path order. |
| Merging.MergeLeaf | ledger/store.go:1004-1023 | Merging updates over a resident leaf gives its contents overridden by the updates; an identical rewrite keeps the old value record. |
| Merging.InsertsOf | ledger/store.go:971-980 | Into an empty subtree the inserts are listed and deletes fall away. |
| Building.CommitAcc.StaleNode | ledger/store.go:227-233 | A node written by this commit is forgotten again; an older one gets its mark. |
| Building.CommitAcc.PutLeaf | ledger/store.go:1156-1172 | Stores the leaf node at the prefix and emits its value once if this commit wrote it. |
| Building.BuildFromPairs | ledger/store.go:1121-1151 | Terminates with the canonical tree of the given leaves, and the accumulator gains exactly its records. |
| Applying.RefsTellApart | ledger/store.go:956-961 | Equal child references mean equal contents, so comparing references detects every change. |
| Applying.ResolveNode | ledger/store.go:982-1001 | A reference resolves to its node from the pending set or from storage. |
| Applying.ApplyToLeaf | ledger/store.go:1003-1049 | Folding updates into a leaf keeps it untouched, removes it, replaces it or splits it, with exact accounting. |
| Applying.ApplyChildren | ledger/store.go:1051-1073 | Folds each nibble group into its child; changed is reported exactly when some group's contents changed. |
| Applying.CloseNode | ledger/store.go:1075-1117 | An emptied node vanishes, a lone leaf rises, anything else is rewritten; the old node is retired once. |
| Applying.TakeLeaf | ledger/store.go:1178-1198 | Takes a leaf over, dropping its pending record or marking its stored one. |
| Applying.ApplySubtree | ledger/store.go:966-1118 | For every sorted duplicate-free update list the result is the copy-on-write successor for the overridden contents (the old reference itself when nothing changed), and pending, values and stale move by exactly the records added and retired. |
| CopyOnWrite.RewritesCanonical | ledger/store.go:966-1118 | The successor of a canonical tree is the canonical tree of the new contents. |
| CopyOnWrite.RewritesUnique | ledger/store.go:966-1118 | Old tree, new contents and version determine the successor: batching and order do not. |
| CopyOnWrite.RewritesEvolves | ledger/store.go:966-1118 | Every record of the successor was written by this commit or belonged to the old tree. |
| Flushing.SecondPass | ledger/store.go:629-641 | A second fold over the tree the first one built keeps the record accounting exact. |
| Flushing.BuildBatch | ledger/store.go:680-697 | The write batch holds exactly the new nodes and values, one mark per retired record, the root and the checkpoint. |
| Flushing.FlushCommits | ledger/store.go:677-716 | Applying that batch to the disk is a commit: new records present, retired ones marked, nothing else changed. |
| Batches.Dedupe | ledger/store.go:551-566 | Refuses a batch in which some key starts with the system prefix; otherwise keeps the last operation per path. |
| Batches.HistoryKeyReserved | ledger/audit.go:48-54 | The key of the chain head starts with that prefix. |
| Batches.LastWins | ledger/store.go:551-566 | The operation on a path that no later one names decides what the batch asks of it. |
| Batches.PrepareUpdates | ledger/store.go:576-596 | Every insert gets the commitment of its own value, and the update list is sorted and complete. |
| LedgerStore.FoldDecides | ledger/store.go:604-606 | The root reference is unchanged exactly when the batch changes no contents. |
| LedgerStore.Store.Fold | ledger/store.go:598-606 | The first pass from the current tree: a no-op exactly when contents are unchanged, otherwise a committable version. |
| LedgerStore.Store.AppendHistoryLink | ledger/store.go:629-641 | Puts the new link into the reserved leaf, keeping the version committable. |
| LedgerStore.Store.ComputeBatch | ledger/store.go:547-623 | Reserved keys are refused; a batch is a no-op exactly when the requested contents equal the current ones; otherwise tree, root and accounting are those of the requested contents (with the link when chained). |
| LedgerStore.Store.PreviewBatch | ledger/store.go:647-656 | Returns the pair the same batch would commit: the sparse hash of the requested contents, or the current pair; a batch naming the chain head or any other system key is refused. |
| LedgerStore.Store.PutBatch | ledger/store.go:664-673 | One commit step with exactly the requested contents, or no change at all; a batch naming the chain head or any other system key is refused; errors change nothing; the result is what a preview promises; a chained store stays chained, and an unchained one never gets a head leaf. |
| LedgerStore.Store.Flush | ledger/store.go:677-716 | Memory swings to the new version only after the atomic write succeeded. |
| Runs.DeadStaysDead | ledger/store.go:718-728 | A record that left the tree never comes back in a later version. |
| Runs.DiesOnce | ledger/store.go:227-233 | In any history a record is taken out of reach by at most one commit. |
| Runs.MarkedWhenItDies | ledger/store.go:1029-1033 | Over any run a step writes a record's mark if and only if it is the commit at which the record dies. |
| Runs.MarkedOnce | ledger/store.go:227-233 | Over any run a record is marked at most once, also when a prune has consumed the mark since. |
| Runs.LiveIsUnmarked | ledger/store.go:1029-1033 | A record some version from the mark on still needs is never marked. |
| Runs.CommitKeeps | ledger/store.go:677-716 | A commit keeps: retained versions stored, marks true, every record live or marked. |
| Runs.PruneReadable | ledger/store.go:718-728 | Blind deletion of marked targets takes nothing a version at or above the horizon needs, even when stopped after any chunk. |
| Runs.PruneKeeps | ledger/store.go:729-807 | A prune, complete or cut short, keeps the whole ledger invariant. |
| Runs.PruneLeavesLiveTree | ledger/store.go:718-728 | A complete prune up to the current version, with no pin before it, leaves exactly the live tree's node and value records. |
| Runs.PruneReaches | ledger/store.go:729-737 | A complete prune reaches the version asked for, or the pin if that comes first. |
| Runs.RunInvariant | ledger/store.go:677-807 | Every state reachable by commits, pins and prunes satisfies the invariant. |
| Runs.HistoryOnlyGrows | ledger/store.go:677-716 | Committed versions are never rewritten. |
| Pruning.PruneStale | ledger/store.go:744-778 | Deletes marks up to the horizon with their targets, chunk by chunk; on success none is left; at any stop only such records are gone. |
| Pruning.PruneRoots | ledger/store.go:781-804 | Removes the roots of versions before the horizon; with the stale pass done this completes the prune. |
| LedgerStore.Store.Prune | ledger/store.go:729-807 | Without a pin below it, a request past the current version is refused and changes nothing; otherwise a prune step, complete on success: every version before the one asked for, or before a lower pin, is reported missing, no mark up to it is left, and the horizon is there or further. |
| LedgerStore.Store.RetainRecent | ledger/store.go:811-816 | Prunes to version minus window, clamped at zero: that many versions behind the current one stay retained, and without a lower pin all earlier ones are gone. |
| LedgerStore.Store.PinVersion | ledger/snapshot.go:110-112 | Only the pin changes. |
| Reading.WalkTree | ledger/store.go:918-951 | The descent terminates on any storage and returns the specified answer or an I/O error. |
| Reading.ReadValueRecord | ledger/store.go:900-916 | A value record is returned only if it re-derives the leaf's commitment at this path. |
| Reading.WalkStored | ledger/store.go:918-951 | On a store-written tree the descent returns exactly the contents' answer, present or absent. |
| Reading.LoadRootChild | ledger/store.go:888-898 | Resolves a root hash at a version; the placeholder is the empty tree. |
| Reading.RetainedVersionsRead | ledger/store.go:718-728 | Over every run, every version at or above the horizon reads, for every path, the contents it was committed with. |
| Reading.WalkRemnant | ledger/store.go:918-951 | On what a prune has left of a tree the descent returns the contents' answer or reports a record as missing. |
| Reading.ReadsNeverLie | ledger/store.go:525-539 | Over every run, however its prunes were cut short, a read of any version returns what was committed or that it is missing. |
| Reading.PrunedVersionsMissing | ledger/store.go:718-728 | After a complete prune every version before the one asked for and before the pin is reported missing. |
| LedgerStore.Store.Get | ledger/store.go:506-509 | Returns the current contents' value of the key. |
| LedgerStore.Store.GetAt | ledger/store.go:525-539 | Future versions are refused; any other returns the value it was committed with, or fails for an I/O error or, below the horizon only, as missing. |
| LedgerStore.Store.RootAt | ledger/store.go:513-518 | A retained version's recorded root is the sparse hash of its contents. |
| LedgerStore.Create | ledger/store.go:257-274 | On an empty backend the result is the initial ledger with version 0 and the placeholder root, linked, with no head leaf. |
| LedgerStore.OpenLatest | ledger/store.go:310-371 | On any storage the result is what the checkpoint, the root node it names and the head leaf say, or the first error among them. On the disk of an intact ledger a chained history opens at its newest version with its head; a chained store without its head leaf, an unchained one with such a leaf and a chain asked for but absent are each refused with their own error. |
| LedgerStore.InitHistory | ledger/store.go:310-337 | The chain mode is the checkpoint's if the head leaf agrees with it and the caller's wish with both; otherwise the matching refusal. |
| LedgerStore.OpeningCases | ledger/store.go:310-371 | The outcomes of opening an intact disk, case by case: chained or not, head leaf present, absent or malformed, chain asked for or not. |
| LedgerStore.Reopen | ledger/history_test.go:109-136 | A valid store, chained or not, always reopens: same version, root, contents and chain head. |
| LedgerStore.OpeningIntact | ledger/store.go:310-371 | On the disk of an intact ledger opening finds exactly the newest committed version and its head, or refuses for the stated reason. |
| Integrity.WalkSound | ledger/store.go:918-951 | On arbitrary storage a returned value is the one the root commits to for that path; an index past the path's end is reached only next to a neighbouring leaf. |
| Integrity.OutOfRangeIff | ledger/store.go:918-951 | Some storage consistent with the root makes the descent index past the path's end if and only if the root commits to two paths that differ from the read path at most in the last bit. |
| Integrity.FlagNotHashed | ledger/node.go:220-244 | With its sibling slot occupied, a slot's leaf flag does not influence the node hash. |
| Chain.ChainExtends | ledger/audit.go:15-28 | Storing the next link over the previous head and root extends the chain and yields the lineage's head. |
| Chain.LinkInjective | ledger/audit.go:15-28 | Equal links come from equal heads, roots and versions. |
| Audit.VerifyHistory | ledger/audit.go:116-136 | Passes exactly when the roots on disk fold from the anchor on to the live head, and never without the chain or from a version still to come; missing and mismatching cases are told apart. |
| Audit.NoAuditFromNowhere | ledger/audit.go:117-122 | Without the chain, or from a future anchor, an audit is refused. |
| Audit.AuditIffLineage | ledger/audit.go:109-136 | On any storage the audit passes if and only if the anchor is the true head there and every stored root it walks is the lineage's root; over true roots a wrong anchor is reported as corrupted. |
| Audit.RelinkPins | ledger/audit.go:116-136 | Recomputed links reach the true head only along the true lineage. |
| Audit.RetainedAnchorsAudit | ledger/audit.go:30-45 | Whatever was pruned, an audit from an anchor at or above the horizon passes. |
| Audit.PrunedAnchorsFail | ledger/audit.go:114-115 | After a complete prune an audit from before the version asked for and before the pin fails with a missing record. |
| Audit.RootPinsHistory | ledger/audit.go:23-28 | Two chained histories that agree on one root agree on its version and on the contents of every version up to it. |
| Audit.RootsAgreeIffContents | ledger/store.go:966-1118 | Two versions have equal roots if and only if they commit to the same contents, whatever the batches, their order or the deletions. |
| Audit.HistoryHeadAt | ledger/audit.go:90-107 | The head recorded at any version of a chained store is the fold of all earlier roots; below the horizon the answer is that or a missing record, and a version without a head leaf is corrupted. |
| Diff.SkipIsSound | ledger/audit.go:213-224 | Regions with equal hashes hold no difference, so skipping them loses nothing. |
| Diff.DiffChildren | ledger/audit.go:217-264 | Each path is collected on both sides, or skipped on both because both commit to the same value; it fails only for an I/O error or a record that is gone. |
| Diff.CollectedIsDiff | ledger/audit.go:184-206 | Filtering relocated leaves and the history leaf out of the collection gives exactly the difference. |
| Diff.CollectPuts | ledger/audit.go:186-198 | Reads the value of each new or rewritten leaf; relocated ones and the history leaf are left out. |
| Diff.CollectDeletes | ledger/audit.go:199-206 | Adds a deletion for each old leaf that is gone. |
| Diff.ChangesAt | ledger/audit.go:156-211 | Lists once each, in strictly ascending path order, exactly the paths at which version v and version v - 1 commit to different values, with the new value or as deleted. Pruned versions, also those of an interrupted prune, give that answer or are reported missing. |
| Diff.ChangesMinimal | ledger/audit.go:140-155 | A path is listed if and only if its commitment changed, with the new value or as gone; the head leaf never is. |
| Diff.ChangesReplay | ledger/audit.go:156-211 | Applying the extracted changes to the old contents gives the new contents, the history leaf aside. |
| Snapshots.RemainingLists | ledger/snapshot.go:48-108 | The descent with its nibble skipping lists exactly the leaves after the resume point, in path order, each once. |
| Snapshots.CollectLeaves | ledger/snapshot.go:48-99 | Appends the first leaves of that list up to the limit and reports exhaustion exactly when all of it fitted. |
| Snapshots.SnapshotLeaves | ledger/snapshot.go:29-44 | For any version a chunk is the first max later leaves as committed, with done; a version that is pruned, even in part, gives that answer or is reported missing. |
| Snapshots.DoneIffNoneLeft | ledger/snapshot.go:21-28 | For a positive limit, done is reported if and only if no later leaf remains, and a chunk that is not done is full. |
| Snapshots.NoRoomNeverDone | ledger/snapshot.go:48-51 | With a limit below one a nonempty tree never reports done, even past its last leaf. |
| Snapshots.ExportListsAll | ledger/snapshot.go:21-44 | Iterating from the last path of each chunk visits every leaf exactly once in path order. |
| Restoration.ExportExists | ledger/snapshot.go:21-44 | With a positive limit the iteration ends: every contents has a whole export from every resume point. |
| Restoration.ExportAll | ledger/store_test.go:416-431 | Calling the export until it is done terminates and, unless a read fails, returns the full sorted listing of the version. |
| Restoration.RestoredRoot | ledger/snapshot.go:6-14 | A full listing restored onto nothing commits to the same values and has the same root. |
| Restoration.RestoreReproducesRoot | ledger/snapshot.go:6-14 | So does a whole chunked export. |
| Restoration.CopyVersion | ledger/store_test.go:408-457 | Exporting a retained version and restoring it into a store that holds nothing leaves that store valid with the source's root and commitments; a chained source also hands over its head. |
| LedgerStore.LastLeafWins | ledger/snapshot.go:117-121 | Of several restored leaves with one path the last one counts. |
| LedgerStore.DedupeLeaves | ledger/snapshot.go:118-121 | The last value per path wins. |
| LedgerStore.Store.RestoreLeaves | ledger/snapshot.go:117-169 | One commit of the contents overridden by the leaves, without a chain link, or no change; the cached head becomes the restored one. |
| Snapshots.PinnedStaysReadable | ledger/snapshot.go:110-112 | No prune takes a pinned version away. |
| ByteStrings.IncBytes | sqlledger/index.go:121-130 | Fails exactly on all-0xFF strings; otherwise a string lies between b and the result if and only if b is a prefix of it. |
| KeyCodec.IntOrder | sqlledger/codec.go:144-152 | Sign-flipped big-endian integers compare like the integers, are distinct, and decode back. |
| KeyCodec.FloatOrder | sqlledger/codec.go:160-180 | Encoded floats compare by the totalOrder of section 5.10 of IEEE 754-2008 on their bit patterns, are distinct, and decode back. |
| KeyCodec.WordOrder | sqlledger/codec.go:154-158 | Big-endian words compare like the numbers and decode back. |
| KeyCodec.AppendEscaped | sqlledger/codec.go:307-316 | The loop appends the escaped, terminated form. |
| KeyCodec.EscapedOrder | sqlledger/codec.go:303-316 | Escaped strings compare like the strings, whatever follows them. |
| KeyCodec.CellOrder | sqlledger/codec.go:281-301 | One encoded column followed by anything compares first by value, then by what follows. |
| KeyCodec.EncodeKeyCol | sqlledger/codec.go:281-301 | Appends the key form of a value of the column's kind and refuses any other. |
| Tables.TupleOrder | sqlledger/index.go:41-62 | For any column kinds, concatenated columns compare column by column with NULL first, then by what follows. |
| Tables.TuplePrefixFree | sqlledger/index.go:41-62 | An encoded tuple is a prefix of a key if and only if the key's tuple is that very tuple. |
| Tables.TupleInjective | sqlledger/index.go:41-62 | Encoded tuples with suffixes coincide only if tuples and suffixes do. |
| Tables.EncodeIndexCols | sqlledger/index.go:41-62 | The key part of an index entry: one marked slot per column; reports NULLs and refuses a value of the wrong kind. |
| Tables.EncodePK | sqlledger/store.go:357-374 | Encodes the primary key, refusing NULL and wrong kinds. |
| Tables.ScanKeyInjective | sqlledger/store.go:154-159 | Different rows have different scan keys. |
| Tables.IndexKeyInjective | sqlledger/index.go:66-83 | Index keys coincide only for equal columns and equal primary key. |
| RowCodec.EncodeRow | sqlledger/codec.go:326-364 | Writes every column in schema order, refusing a wrong width or kind. |
| RowCodec.DecodeRow | sqlledger/codec.go:368-425 | Decodes column by column, reporting the first error and refusing trailing bytes. |
| RowCodec.RowRoundTrip | sqlledger/codec.go:318-425 | What the encoder writes decodes to the same row. |
| RowCodec.DecodedIsEncoded | sqlledger/codec.go:368-425 | Whatever decodes has the columns' kinds, and encoding it again gives the bytes back if and only if no length was spelled with needless bytes. |
| RowCodec.RowBytesInjective | sqlledger/txn.go:309-315 | Rows with equal stored bytes are equal. |
| Ranges.LowerBound | sqlledger/index.go:302-328 | The start key cuts the keys under the prefix exactly at the lower bound; a cut is refused if and only if it is of another kind or above everything. |
| Ranges.UpperBound | sqlledger/index.go:330-358 | The end key cuts them exactly at the upper bound and lets nothing outside the prefix in; a refused cut has another kind or nothing below it. |
| Ranges.BoundedColumn | sqlledger/index.go:293-360 | A key is in the interval if and only if it extends the prefix by a value in the column range; a refused range has a cut of another kind or admits no value. |
| Ranges.RangeBounds | sqlledger/index.go:221-285 | The interval lies inside the key space, and a key is in it if and only if its exact columns and its first bounded column are in range, NULL markers and primary-key mode included. A refused range is stuck at its first column that is not exact: a cut there has another kind, or nothing is in range. |
| Ranges.PointsConsumed | sqlledger/index.go:241-272 | Leading columns asked for by value, and the column after them, are all decided by the interval. |
| Ranges.RangeIsSuperset | sqlledger/index.go:202-206 | Every row matching the whole range has its key in the interval. |
| Derived.OwnerUnique | sqlledger/index.go:16-29 | Derived entries of different rows never share a key, whatever the rows hold. |
| Derived.IndexOps | sqlledger/index.go:66-83 | One operation per index, adding or retracting the row's key. |
| Derived.BuildRowOps | sqlledger/table.go:625-663 | A delete, an insert, an update and a net no-op become exactly their ledger and keyspace operations. |
| Derived.ScanOpsEffect | sqlledger/table.go:625-663 | After the operations the new row's entries are present, other old entries of the row are gone, and nothing else changed. |
| Derived.BatchEffect | sqlledger/txn.go:258-274 | The same for a whole batch of distinct rows, key by key. |
| Derived.BatchKeepsExact | sqlledger/store.go:340-354 | A batch based on the committed rows keeps the derived keyspace exact. |
| Derived.BatchKeepsCover | sqlledger/store.go:340-354 | It also keeps a keyspace that is exact in the scan space and complete in the index space. |
| Derived.ExactAfterCommitIff | sqlledger/store.go:343-354 | Whatever a commit's changes were based on, it leaves the keyspace exact if and only if every key it does not write was empty where a changed row owned it and exact elsewhere. |
| Derived.StaysExactIff | sqlledger/table.go:599-620 | From an exact keyspace a commit leads to an exact one if and only if each change writes or unsets every entry of the committed row it replaces. |
| Derived.RowOpsMakeChanges | sqlledger/table.go:625-663 | The ledger operations of a batch make exactly its changes. |
| SqlStorage.SqlStore.Commit | sqlledger/store.go:343-354 | A ledger failure changes nothing; a derived failure leaves the ledger committed and the keyspace as it was; success writes both with the version marker. |
| SqlStorage.ClearScanSpace | sqlledger/store.go:258-279 | Removes scan-space entries only, and on success all of them. |
| SqlStorage.LostDerivedWrite | sqlledger/store.go:343-354 | When the derived write of an insert failed, the next completed commit leaves the marker at its own version and the keyspace inexact. |
| Reconciling.DecodeLeaf | sqlledger/store.go:291-304 | A leaf's value is a row of a catalogued table, something to skip, or an error, by tag, length, table and row bytes. |
| Reconciling.LeafMeansPayload | sqlledger/store.go:291-303 | A leaf taken for a row was written as that row, byte for byte unless a length is spelled with needless bytes. |
| Reconciling.ListingExports | sqlledger/store.go:281-304 | When the ledger's contents mirror the rows, every leaf of the full listing decodes and the decoded rows are exactly the committed rows. |
| Reconciling.Rebuild | sqlledger/store.go:281-329 | Reads the ledger chunk by chunk, writes every required entry over what is there, then the marker; when cut short every entry is an old or a required one and the marker is old. |
| Reconciling.ReconcileScanSpace | sqlledger/store.go:248-329 | Does nothing when the marker matches; otherwise restores the scan space exactly and makes the index space contain every required entry, or keeps the old marker so that the next open runs it again. |
| Reconciling.CrashReconcileExactIff | sqlledger/store.go:243-329 | After a crash between the two writes the reconciled keyspace is exact if and only if every index entry of the old rows is still required. |
| Reconciling.StaleEntryStays | sqlledger/store.go:258-279 | A deleted row's index entry survives: concrete input. |
| Reconciling.ReconciledTraceable | sqlledger/store.go:243-329 | A reconciled keyspace has every required entry, and whatever else its index space holds is still the entry of a row, stored or not, under its primary key, if it was so before. |
| Reconciling.StaleEntryRefuses | sqlledger/table.go:502-575 | With such an entry left behind, a statement is refused a unique value that no row holds: concrete input. |
| Keyspaces.Keyspace.Scan | ledger/backend.go:37-46 | An ascending front of the range: limit entries, or the whole range if shorter. |
| Keyspaces.ResumeAfter | sqlledger/table.go:146-147 | A key is at or after last followed by a zero byte exactly when it is after last. |
| Overlay.MergeOverlay | sqlledger/txn.go:446-479 | The two-index loop computes the specified merge. |
| Overlay.MergedListsView | sqlledger/txn.go:446-479 | The merge lists, sorted and without duplicates, the committed entries without the masked ones, overridden by the adds. |
| Overlay.BuildOverlay | sqlledger/txn.go:384-442 | Adds are the in-range entries of pending rows in key order; masks are the in-range entries they replace and do not re-add. |
| Overlay.ViewIsCommitted | sqlledger/txn.go:373-442 | For every committed keyspace, buffer and range, the view through the overlay at a key is what the keyspace holds there after the buffer's operations. |
| Scanning.ScanIter.Refill | sqlledger/table.go:203-220 | Chunked reading loses and repeats nothing. |
| Scanning.ScanIter.Next | sqlledger/table.go:201-266 | Yields the head of what remains of the merged stream, or the end; an I/O error consumes nothing. |
| Scanning.CollectRange | sqlledger/table.go:133-152 | The chunks gathered are the whole range in order. |
| Scanning.NewReverseScanIter | sqlledger/table.go:132-159 | Materialises exactly the merged sequence. |
| Scanning.ReverseIter.Next | sqlledger/table.go:168-175 | Yields it from the end. |
| Scanning.ScanShowsCommit | sqlledger/txn.go:20-24 | The sequence both iterators walk is the one a scan would yield after applying the buffer's operations. |
| Scanning.ScanResolves | sqlledger/table.go:272-286 | On an exact keyspace every scanned entry leads to a row of the table with exactly that key. |
| Lookups.LookupBounds | sqlledger/index.go:221-285 | For a table and index the bounds lie inside its key space and cut it exactly at the range. |
| Lookups.PointsDecide | sqlledger/index.go:221-285 | A range of single values, except perhaps in its last column, is matched by exactly the rows with every asked column in range. |
| Lookups.FullScanBounds | sqlledger/table.go:80-92 | A full scan is the range without conditions over the primary space. |
| Lookups.ViewOfTxn | sqlledger/txn.go:494-504 | What a scan sees under a key is what a read through the transaction returns. |
| Lookups.ScanAnswersRange | sqlledger/txn.go:20-24 | Inside a transaction that has not been overtaken a lookup yields exactly the keys of the matching rows the transaction sees, buffered or committed. |
| Lookups.ScanFailsIff | sqlledger/txn.go:494-504 | Whatever has been committed since, a scan yields a key whose read fails if and only if the transaction deletes the key and the committed row there has an entry in range other than that of the row it found. |
| Lookups.ScanAlwaysReads | sqlledger/txn.go:494-504 | While nothing else has committed, every yielded key is read, buffer included. |
| Lookups.OvertakenScanFails | sqlledger/txn.go:494-504 | Once overtaken a scan can yield a key whose read fails: concrete input. |
| Lookups.OpenLookup | sqlledger/index.go:401-440 | The iterator will yield exactly the keys of the matching visible rows, each once, in the order of their entries; a range refused although its cuts have the right kinds is matched by no row. |
| Lookups.RefusedAnswersNothing | sqlledger/index.go:293-360 | A range whose cuts have the right kinds is refused only when the empty answer is the right one. |
| Lookups.OpenReverse | sqlledger/table.go:105-111 | The same keys from the other end, with the same refusals. |
| UniqueChecks.UniqueConflict | sqlledger/index.go:99-117 | Two scanned entries decide: exactly whether another committed row has the value on an exact keyspace; on a reconciled one, where a no is still right, exactly whether an entry of the value carries another primary key. |
| UniqueChecks.CheckUnique | sqlledger/table.go:502-575 | On an exact keyspace it passes exactly when, for every unique index, the value is free: no committed conflict and no pending one, or a committed conflict some pending row gives up; NULL is exempt. On a reconciled keyspace a pass still means that for a buffer based on the committed rows, and the answer is exactly that of the entries. |
| UniqueChecks.ConflictShows | sqlledger/index.go:99-117 | In a keyspace that covers the rows every committed conflict shows as an entry; in an exact one nothing else does. |
| UniqueChecks.SameValueIff | sqlledger/index.go:38-64 | A row has a value in an index unless a column is NULL, and rows have the same value if and only if they have the same columns. |
| UniqueChecks.UniqueMeansColumns | sqlledger/table.go:499-501 | An index is free of duplicates if and only if no two rows of its table agree in its columns without a NULL. |
| UniqueChecks.ClearStands | sqlledger/txn.go:323-371 | A claim with no entry in its way stands if the keyspace covers the rows; in an exact one only such claims do, and a unique index has no more entries of a value than one chunk shows. |
| UniqueChecks.RevalidateRow | sqlledger/txn.go:323-371 | A refusal means an entry of the value is in the way, on an exact keyspace a committed row. A pass means no committed row outside the write-set, or kept by it, has the value: on an exact keyspace with a duplicate-free index, and on any covering keyspace where one chunk holds the entries of the value. |
| Transactions.FoldSet | sqlledger/table.go:344-372 | Writing in a statement and then folding is writing to the folded buffer, keeping the row the transaction first saw. |
| Transactions.VisibleFolded | sqlledger/table.go:344-372 | A statement sees what the transaction will once the statement has folded into it. |
| Transactions.CommitLeavesSeen | sqlledger/txn.go:252-284 | Committing leaves a row as the transaction sees it, if and only if it is not one the transaction inserted and deleted while another was committed there. |
| Transactions.NextKeeps | sqlledger/txn.go:20-35 | Every step of every session, and every other commit, keeps the invariant: while the version is unchanged each buffered row is based on the committed one. |
| Transactions.RunKeeps | sqlledger/txn.go:20-35 | The invariant holds in every state of every interleaving. |
| Transactions.NoLostUpdate | sqlledger/txn.go:230-317 | Over any interleaving a successful commit finds every touched row as recorded, leaves it as buffered, changes no other row, and takes one ledger version exactly when rows change. |
| Transactions.RunBases | sqlledger/txn.go:25-31 | Over any interleaving a write-set whose version is still current is based on the committed rows. |
| Transactions.CommitsBased | sqlledger/txn.go:25-31 | So is every write-set at the moment it commits, revalidated or not. |
| Transactions.OvertakenOrCurrent | sqlledger/txn.go:25-31 | Whatever commits, a transaction stays based on the committed rows or its version is left behind for good. |
| Uniqueness.CommitUniqueIff | sqlledger/txn.go:319-371 | Over any interleaving a commit to an index free of duplicates keeps it so if and only if no freed value is claimed twice and no claimed value belongs to a committed row hidden by an inserted and deleted one. |
| Uniqueness.CommitKeepsUnique | sqlledger/txn.go:319-371 | In particular a write-set without net no-ops need only claim freed values once. |
| Uniqueness.RefusedStatementDuplicates | sqlledger/table.go:502-575 | A statement is refused a value only if committing its write-set would leave that value to two rows. |
| Uniqueness.RefusedCommitDuplicates | sqlledger/txn.go:319-371 | So it is with a write-set refused by the re-check at commit. |
| Uniqueness.FreedTwiceDuplicates | sqlledger/table.go:540-569 | A run over a concrete catalogue whose last step is a commit that puts duplicates into the index because a freed value is claimed twice. |
| Uniqueness.NetNoOpDuplicates | sqlledger/txn.go:353-357 | A run whose last commit puts duplicates into the index because a row inserted and deleted in the transaction hides a concurrently committed one. |
| Sessions.ReadRowTxn | sqlledger/txn.go:494-504 | Returns the row visible through the buffer, or an error exactly when none is visible or a read failed. |
| Sessions.ValidatePending | sqlledger/txn.go:295-317 | Passes exactly when the committed row is byte for byte the recorded one, or absent when none was recorded. |
| Sessions.ValidatedIff | sqlledger/txn.go:295-317 | Comparing stored bytes finds a write-set stale if and only if some row it changes is another row now. |
| Sessions.GatherOps | sqlledger/txn.go:245-274 | Skips net no-ops, validates when something else committed, and yields the operations of exactly the effective rows. |
| Sessions.RevalidateUnique | sqlledger/txn.go:323-371 | It passes only if every duplicate-free unique index is compatible with the write-set, on an exact keyspace and on a reconciled one where one chunk holds the entries of each claimed value; on an exact keyspace a refusal names a real conflict. |
| Sessions.CommitTxn | sqlledger/txn.go:230-291 | One ledger commit of exactly the write-set, validated if the version moved, and one derived batch of exactly its effective rows; an exact keyspace stays exact and a covering one covering; every failure but a derived-write failure changes nothing. |
| Sessions.CloseDirect | sqlledger/table.go:599-620 | A statement outside a transaction commits its rows as buffered; an exact keyspace stays exact if and only if the statement accounts for the entries of the rows it finds. |
| Sessions.Session.StartTransaction | sqlledger/txn.go:137-145 | The new transaction is based on the committed state: it sees exactly the committed rows, and committing it at once would move nothing. |
| Sessions.Session.CommitTransaction | sqlledger/txn.go:147-157 | Ends the transaction either way; the ledger moves exactly on success or on a derived-write failure; on success the derived batch is that of the write-set, and a transaction kept current by its session keeps an exact or covering keyspace so. |
| Sessions.FindSavepoint | sqlledger/txn.go:182-188 | Finds the newest savepoint of a name, ignoring case. |
| Sessions.SameNameIff | sqlledger/txn.go:182-188 | Names match if and only if they agree character by character up to letter case. |
| Sessions.Session.CreateSavepoint | sqlledger/txn.go:164-175 | Saves the current buffer last, replacing one of the same name; names stay distinct. |
| Sessions.Session.RollbackToSavepoint | sqlledger/txn.go:177-190 | Restores the named buffer, keeps that savepoint and drops later ones; an unknown name changes nothing. |
| Sessions.Session.ReleaseSavepoint | sqlledger/txn.go:192-205 | Drops the named savepoint and later ones, keeping the buffer. |
| Sessions.DropSavepoint | sqlledger/txn.go:207-214 | Removes the first savepoint of the name, if any. |
| Sessions.RollbackRestores | sqlledger/txn.go:177-190 | Whatever was written and saved under other names since, rolling back restores the saved buffer. |
| Editors.TableEditor.Insert | sqlledger/table.go:383-445 | Each refusal has its reason and each reason its refusal: a read-only transaction, a NULL key, a visible row. With reads that hold and an exact keyspace it succeeds if and only if none applies and the row is free in every unique index of the write-set with it; the row is buffered over what was there and the write-set stays based on the committed rows. |
| Editors.TableEditor.Delete | sqlledger/table.go:447-464 | Refused exactly for a read-only transaction or a NULL key; otherwise buffers the row's removal, remembering it when first touched; a row as the engine read it keeps the write-set based. |
| Editors.TableEditor.Update | sqlledger/table.go:466-497 | Rewrites in place under the same key, or deletes and inserts under a new one; refused exactly for a read-only transaction, a NULL key, a visible row under a new key, or a unique value that is taken; a row as the engine read it keeps the write-set based. |
| Editors.TableEditor.Close | sqlledger/table.go:582-597 | The statement's buffer folds into the transaction's; the write-set in effect does not change and stays based. |
| Editors.TableEditor.DiscardChanges | sqlledger/table.go:376-379 | The write-set in effect and every row the statement sees are the transaction's again, and the write-set stays based. |
| Editors.InsertIsEdit | sqlledger/table.go:383-445 | A successful insert is an edit step of the interleaving model. |
| Editors.RewriteIsEdit | sqlledger/table.go:447-497 | So are a successful delete and update of a row the engine read, even when another session has changed the row since. |
| Editors.BlockedDuplicates | sqlledger/txn.go:319-371 | A write-set the re-check blocks would have put two rows with the same columns into a unique index. |
| Editors.CommitIsStep | sqlledger/txn.go:230-291 | What the commit of a write-set guarantees is a commit step of the model. |
| Agreement.CommitAdvances | sqlledger/txn.go:226-291 | What the commit method guarantees of rows, version, re-checks and keyspace makes it a commit step of a run. |
| Agreement.DirectAdvances | sqlledger/table.go:599-620 | What a statement outside a transaction leaves in rows and keyspace is another commit of such a run. |
| Agreement.KeyspaceAgreesIff | sqlledger/store.go:340-354 | Over any run of sessions and other commits, derived entries and marker agree with the committed rows at every step if and only if every commit accounts for all entries of the rows it finds. |
| Agreement.SessionRetracts | sqlledger/txn.go:226-291 | Every step of a session does, its commits included. |
| Agreement.CommitIsOwn | sqlledger/txn.go:226-291 | A session's commit is never counted among the other commits, since it ends its transaction. |
| Agreement.KeyspaceAlwaysAgrees | sqlledger/txn.go:226-291 | So the keyspace agrees after every step, whatever sessions do, when every other commit does too. |
| Agreement.StaleDirectUpdate | sqlledger/table.go:599-620 | A statement outside a transaction that writes over a row changed since it was read leaves that row's index entry behind: concrete input. |
| Agreement.NothingToReconcile | sqlledger/store.go:248-256 | A store reopened where the keyspace agrees finds its marker current. |
| RowsInLedger.LedgerKeyInjective | sqlledger/store.go:145-152 | Different rows have different logical keys, and none is reserved for the ledger itself. |
| RowsInLedger.DedupedRow | sqlledger/table.go:625-663 | After the ledger keeps the last operation per path, what it asks of a row is what running all row operations in order makes of it. |
| RowsInLedger.LedgerFollowsRows | sqlledger/table.go:625-663 | Contents that hold the rows of a database, given the ledger batch of some row operations, hold exactly the rows those operations lead to. |
| RowsInLedger.NoOpIffRowsStay | ledger/store.go:604-606 | The ledger batch of a set of row operations is a no-op, and takes no version, exactly when the rows end as they were. |
| RowsInLedger.BatchMirrors | sqlledger/table.go:625-663 | Contents that hold every row and no other row of the tables do so after a batch of row operations. |
| RowsInLedger.HeadMirrors | ledger/store.go:608-640 | Writing the chain head leaves the rows in the contents as they are. |
| RowsInLedger.EmptyBacks | sqlledger/store.go:111-127 | A ledger that holds nothing mirrors the empty database. |
| RowsInLedger.CommitRows | sqlledger/store.go:343-349 | Committing row operations to the ledger store leaves its contents holding exactly the resulting rows, moves the version if and only if the rows change, and changes nothing on failure. |

## Left out

- Hash, HMAC and AES-GCM internals, nonces and checkpoint sealing: used as ideal functions; a checkpoint record is taken as authentic.
- Byte encodings of node keys, nodes and proofs (`ledger/node.go`, `ledger/proof.go`): records are typed values, so decoding appears only as a shape check.
- `StampVersion`: it duplicates the root node without a mark, so it is outside the record accounting.
- The node cache, forks and the Pebble adapter: they follow from immutability of records, from `ComputeBatch`, and from the backend contract.
- Prune statistics: counters of deleted records only.
- `Open` at an anchored root and version: it loads and checks as `LedgerStore.OpenLatest` does, and reads the chain mode off the head leaf when there is no checkpoint.
- Exhaustion of the 64-bit version counter: versions are natural numbers in the ledger, and the SQL commit requires one more to fit.
- LedgerStore.Store.PutBatch: on a chained store it requires that no batch key other than a reserved one hashes to the path of the head key, an instance of collision freedom.
- Records.Backend.Scan: the order of keys is not modelled on the ledger side, because the pruner does not depend on it.
- UniqueChecks.CheckUnique: on a reconciled keyspace, and for a transaction that has been overtaken, the answer is tied to the entries only; the commit then looks again.
- UniqueChecks.RevalidateRow: one chunk of 512 entries is read, so nothing is said of a pass where a value has more entries than that.
- Sessions.CommitTxn: rows are taken in arbitrary order instead of sorted by table and key, and unique indexes are rechecked after all rows instead of table by table; only the choice among several conflicts could differ.
- Sessions.FindSavepoint: names are compared by ASCII case folding.
- Agreement.KeyspaceAlwaysAgrees: runs in which a derived write fails are left out; they are the subject of `SqlStorage.LostDerivedWrite` and `Derived.ExactAfterCommitIff`.
- Lookups.ScanAnswersRange: says which keys are yielded for the leading columns that decide the interval; filtering on the remaining columns is the engine's.
- Reconciling.ReconcileScanSpace: the ledger and the derived keyspace are separate objects here and share one backend in the source; the 32 bytes of a chain head are never read as a tagged row.
- Restoration.CopyVersion: the target's version number is not stamped with the source's.
- Editors.TableEditor.Insert: AUTO_INCREMENT counters are not modelled.
- Scanning.ScanIter.Next: stated for a keyspace that does not change while the iterator is in use.
- RowCodec.DecodeRow: lengths are unbounded, so the wrap-around of a huge stored length is not modelled.
- Aliasing of buffered rows between a transaction and its savepoints: buffers are values here, which is what the deep copy in the source achieves.
- Statements outside a session transaction, TRUNCATE, DDL and the catalogue: they appear as other commits, and the first also as `Sessions.CloseDirect`; table definitions are fixed.
- Sessions.CloseDirect: a table dropped while the statement runs is not modelled.
- go-mysql-server integration, type coercion and the narrowing of decoded integers and floats.
- Goroutine-level locking: each locked section is one step.
