# A verified model of the BIP 360 P2MR enforcer

This project models, in Dafny, the parts of the enforcer's validator that carry state machines, loops
and codecs, and proves what they are relied on for:

- **Block-file sync** (`BlockCache`, `BlockFileSync`, `SyncCompleteness`, `FileSync`). Blocks are read from
  disk in any order, reordered through a bounded first-in-first-out cache, connected in batches, and the
  tail behind a rejected block is given back to the stack of missing blocks.
- **The P2MR output index with reorganisations** (`Utxos`, `BlockDiff`, `BlockLoop`, `Prefetch`,
  `Chainstate`, `Validator`). A block's net diff is applied on connect and undone on disconnect, inside
  nested write transactions that are committed or dropped.
- **The sync with the node as a whole** (`NodeSync`). Roll-back to the fork point, missing blocks, block
  files, and fetching the rest in chunks, with the file sync asking the real connect function.
- **The header store** (`BlockHashes`, `HeaderTree`, `BlockHashDbs`). Five coupled tables, their
  invariants, and the two-iterator search for a last common ancestor.
- **Leaf scripts, control blocks and spends** (`LeafScript`, `LeafForms`, `LeafParser`, `Merkle`, `Limits`,
  `Schemes`, `Spend`, `Signer`, `BlockSpends`, `DoubleSpends`, `ChainSpends`, `LiveAndSync`). Parsing with its
  three registers, what every usual form of script parses to, Merkle opening as in BIP 341, "Script
  validation rules", signature elements, the validation of a whole transaction, the signer's side of it, what
  that validation means for blocks and for whole chains, and where a block that arrives live and the same
  block in a sync get different answers.
- **On-disk codecs** (`Obfuscation`, `BlockFiles`, `BlockDirectory`, `BlockFileParser`, `VarInt`,
  `BlockIndex`, `KnownRecords`, `CutRecords`). The block-file framing under an eight-byte key, the directory
  of files, and the block index record in Core's VarInt, with two records of the main chain byte by byte.

How it is built. Behaviour that the source runs in place on objects is a class or a method with a loop
(`BlockCache`, `FileSync`, `WorkingSet`, `BlockHashDbs`, `P2mrUtxoDbs`, `Validator`, `LeafParser`,
`XorReader`, `BlockFileParser`, `BlockDirectoryParser`, `ByteReader`); each is proved equal to a function
on values, and the theorems are about the functions. Arithmetic that can overflow in the source is
written out (`u64` words in `ByteReader.ReadVarInt`, `Low32` for casts to 32 bits, the count returned by
the sync modulo 2^32).

What is assumed. Block hashes, transaction ids, tagged hashes, signature digests, signature verification
and key generation are arbitrary functions or carried values; nothing is assumed injective. Merkle
soundness is therefore stated as "or here are two inputs with the same hash". The index theorems assume,
as BIP 30 makes true, that a block's transaction ids are not those of transactions with unspent outputs,
that a transaction id determines its outputs, that a coinbase spends nothing tracked, and that fetched
extra prevouts are not P2MR (they are asked for only when untracked). The verdict on one transaction is an
arbitrary function of everything the validator hands to it, and of its position; `BlockSpends` and
`ChainSpends` take any verdict that is at least as strict as the P2MR rules of `Spend`. `NodeSync` assumes
that a block hash stands for one block, from whichever source it is read, and that the header sync before
it has stored the node's tip and, for a first sync, all headers down to height 0
(`HeaderTree.FetchedHeadersAreComplete` says when it has). Fetched prevouts are assumed to be from outside
the indexed set and the block, as they are asked for, but not to be complete or right.

What the proofs brought to light, where code and expectation differ (the model follows the code):

- `lib/validator/task/mod.rs:240` checks the tip only when there is one. With no block connected, the
  stored diff of an earlier disconnected block that has a parent is undone again and the tip comes back.
  `Chainstate.DisconnectAgreesExactlyWhen` says exactly when; `Chainstate.StaleTipFromEmpty`
  shows it in a run from an empty database.
- A damaged record or undecodable block during file sync returns an error with the pending batch already
  taken off the stack; the sync over RPC then goes on above a gap (`lib/validator/task/mod.rs:723-741`).
  `SyncCompleteness.ConservedExactlyWhenRead` says, by what the files hold and wherever the damage is, when
  a sync of valid blocks keeps the balance, provided that it is not cancelled, loses no due block from the
  cache and does not give up before. If the balance is not kept, the next block, valid or not, is reported
  as rejected for its parent: `NodeSync.ValidBlockIsRefusedExactlyWhen`.
- `lib/validator/enforcer.rs:363` selects a multi-input transaction for fetching only by inputs in the
  indexed set. One whose only P2MR input was created in the same block is missed; the block is rejected if
  the first element of that input commits to all inputs, and the input can be checked if it commits to its
  own alone. `BlockSpends.UnfetchedExactlyWhen`, `BlockSpends.SameBlockCoInputIsNotFetched`.
- Prevouts are fetched for blocks that arrive live (`lib/validator/enforcer.rs:543`) and not in a sync
  (`lib/validator/enforcer.rs:491-497`). A block with a P2MR spend that commits to all of several inputs, one
  of them an ordinary output of an earlier block, is accepted live and refused in a sync, which then never
  gets past it. `LiveAndSync.SyncAcceptsExactlyWhen`, `LiveAndSync.ForeignBlockGetsBothAnswers`,
  `LiveAndSync.SyncStopsBeforeForeign`.
- A sibling hash that is all zero is taken for the legacy pad when it is the lowest one
  (`lib/validator/pqc/merkle.rs:52`). A script beside it does not open its own root, except by a collision
  of the hashes. `Merkle.PathVerifiesExactlyWhen`, `Merkle.ZeroSiblingFailsExactlyWhen`.
- The comments at `lib/validator/dbs/block_hashes.rs:103-118` ask that keys of `header` exist in all other
  tables. They do not: headers are stored before block data (`BlockHashes.HeaderComesBeforeBlock`). The
  invariant that holds is `BlockHashes.StoreInvariant`.
- `lib/validator/parse_block_files.rs:147` expects the Testnet3 magic in Testnet4 files, where Bitcoin Core
  writes 1C 16 3F 28. Such a file is refused at its first frame. `BlockFiles.UnknownMagicIsRefused`.
- At most 301 signature sites fit a leaf script of 10 000 bytes, and 301 are reached.
- A frame written where four bytes of the repeated key equal the network's magic is zero on disk and reads
  as the end of the file. `BlockFiles.RoundTripExactlyWhen` says for which keys this cannot happen.
- A sighash byte `0x00` after a signature of canonical size is accepted as the default type, although the
  comment at `lib/validator/pqc/schemes.rs:54-60` describes only the bare form.
  `Schemes.ElementIsWrittenExactlyWhen`, `Spends.SpelledOutDefaultIsAccepted`.
- Which spent outputs are offered to the digest is decided by the first signature's type alone, so a
  spend whose first signature commits to one input and a later one to all inputs is refused although every
  signature is valid (`lib/validator/pqc/spend.rs:239`). `Spends.AcceptedExactlyWhen` gives the exact
  condition, `Signers.MixedTypesAreRefused` an input.

## Model

| member | source | states |
|---|---|---|
| BlockCaches.FifoStaysBounded | lib/validator/task/block_files.rs:33-68 | insert and remove keep hashes distinct and the size at most `max_size`; the inserted hash is present, the removed one is not |
| BlockCaches.LookupAfterInsert | lib/validator/task/block_files.rs:33-55 | without eviction an insert changes the lookup of its own hash only, and never replaces an entry |
| BlockCaches.LookupAfterRemove | lib/validator/task/block_files.rs:57-68 | a remove changes the lookup of its own hash only |
| BlockCaches.BlockCache.constructor | lib/validator/task/block_files.rs:25-31 | an empty cache |
| BlockCaches.BlockCache.EvictOldest | lib/validator/task/block_files.rs:40-45 | the front of the queue leaves map and queue together |
| BlockCaches.BlockCache.Insert | lib/validator/task/block_files.rs:33-55 | map and deque stay a bounded queue of distinct hashes; the eviction loop ends; the contents are those of a first-in-first-out insert |
| BlockCaches.BlockCache.Remove | lib/validator/task/block_files.rs:57-68 | returns the stored block and takes the entry out of map and queue |
| BlockFileSync.BatchConnectsAPrefix | lib/validator/task/mod.rs:531-625 | a batch connects exactly the blocks before the first rejected one, each judged on what was connected before it, and reports that one |
| BlockFileSync.RejectedPosition | lib/validator/task/block_files.rs:97-100 | the reported block is found in the batch, exactly where connecting stopped |
| BlockFileSync.RejectedBlockIsNext | lib/validator/task/block_files.rs:97-110 | after a rejection the rejected block is the next expected one |
| BlockFileSync.ProcessCachedIsGood | lib/validator/task/block_files.rs:117-150 | draining the cache keeps connected, pending and missing blocks in due order, and ends with the next expected block not in the cache |
| BlockFileSync.LoopIsGood | lib/validator/task/block_files.rs:232-411 | the invariant of the whole loop, for every stream, verdict and cancellation |
| BlockFileSync.SyncConserves | lib/validator/task/block_files.rs:165-412 | conservation: on Ok and on shutdown the stack lost exactly the connected blocks, in due order, and the count is their number |
| BlockFileSync.SyncConnectsOnlyAccepted | lib/validator/task/block_files.rs:82-111 | nothing is connected that the validator did not accept in that very place |
| BlockFileSync.ConservedExactlyWhen | lib/validator/task/block_files.rs:232-411 | what each kind of ending says about the balance: it holds on Ok and shutdown, on a parse failure only when nothing is missing or a multiple of 2000 blocks was taken, never on a connect error |
| BlockFileSync.ParseFailureDropsABlock | lib/validator/task/block_files.rs:255-259 | a two-record stream after which a block is neither missing nor connected |
| BlockFileSync.OldestIsLostExactlyWhenFull | lib/validator/task/block_files.rs:33-55 | a cache of 5000 blocks loses its oldest one to a new one, a smaller one nothing |
| BlockFileSync.GivesUpExactlyWhen | lib/validator/task/block_files.rs:346-386 | once the first missing block was found, the run gives up at the 5000th block in a row that is not the expected one, and at no earlier; before that foreign blocks only fill the cache |
| BlockFileSync.ParseFailsExactlyWhen | lib/validator/task/block_files.rs:255-305 | which items end a round in a parse failure: damaged ones, and undecodable ones unless nothing is missing any more |
| BlockFileSync.CancelIsPolled | lib/validator/task/block_files.rs:232-251 | two cancellations that agree at every 100th item give the same run |
| BlockFileSync.CancelEndsTheRun | lib/validator/task/block_files.rs:232-251 | a cancellation seen there ends the run before another item is read, with the pending batch connected first |
| SyncCompleteness.SyncNeverFails | lib/validator/task/block_files.rs:165-412 | when the validator has an answer for every due block, only an unreadable item ends a sync badly, and then something is still missing whenever something was pending |
| SyncCompleteness.ReadableFilesConserve | lib/validator/task/block_files.rs:165-412 | readable files and no validator error: the balance is kept for every order of blocks, rejection and cancellation |
| SyncCompleteness.RunUpToFirstBad | lib/validator/task/block_files.rs:232-402 | the run takes exactly the due blocks read without a gap before the first unreadable item |
| SyncCompleteness.ConservedExactlyWhenRead | lib/validator/task/block_files.rs:232-402 | with every due block accepted, no cancellation, and no item before the first unreadable one that makes the cache lose a due block or the sync give up: the balance is kept exactly when no item is unreadable, or the due blocks held without a gap before it are all of them or fill whole batches |
| SyncCompleteness.ConservedWithinReach | lib/validator/task/block_files.rs:232-402 | the same with nothing asked of the items when the first unreadable one is among the first 5000 |
| SyncCompleteness.SyncCompletes | lib/validator/task/block_files.rs:232-402 | completeness for streams of any length: every missing block is connected when each is read within 5000 items of its turn |
| SyncCompleteness.ShortStreamsAreNear | lib/validator/task/block_files.rs:76-78 | every stream of at most 5000 items that holds the missing blocks is such a stream |
| FileSyncs.FileSync.HandleBlockBatch | lib/validator/task/mod.rs:531-625 | the batch loop computes the batch function |
| FileSyncs.FileSync.ConnectPendingBlocks | lib/validator/task/block_files.rs:82-111 | updates vectors and counter as the step function says |
| FileSyncs.FileSync.RejectedIndex | lib/validator/task/block_files.rs:97-100 | the search finds the first position of the reported hash |
| FileSyncs.FileSync.RestoreMissing | lib/validator/task/block_files.rs:105-107 | the unconnected tail is pushed back in reverse |
| FileSyncs.FileSync.ProcessCachedBlocks | lib/validator/task/block_files.rs:117-150 | the draining loop computes its step function |
| FileSyncs.FileSync.FinishSync | lib/validator/task/block_files.rs:389-411 | the last pending batch is connected and the count returned |
| FileSyncs.FileSync.ReadItem | lib/validator/task/block_files.rs:255-386 | one round of the main loop |
| FileSyncs.FileSync.TakeExpected | lib/validator/task/block_files.rs:308-338 | an expected block is batched, connected if due, then the cache is drained |
| FileSyncs.FileSync.SyncFromDirectory | lib/validator/task/block_files.rs:165-412 | the whole loop computes the run that the theorems are about |
| Utxos.UndoAfterApply | lib/validator/dbs/p2mr_utxos.rs:32-64 | undo restores an applied diff exactly when no created key hides a surviving one |
| Utxos.P2mrUtxoDbs.DeleteAll | lib/validator/dbs/p2mr_utxos.rs:38-43 | deletes the keys in any iteration order; fails exactly when one is absent |
| Utxos.P2mrUtxoDbs.PutAll | lib/validator/dbs/p2mr_utxos.rs:44-46 | puts the entries in any iteration order |
| Utxos.P2mrUtxoDbs.ApplyDiff | lib/validator/dbs/p2mr_utxos.rs:32-48 | spent entries go, created ones come |
| Utxos.P2mrUtxoDbs.UndoDiff | lib/validator/dbs/p2mr_utxos.rs:51-64 | created entries go, spent ones come back |
| BlockDiffs.ApplyTxInStep | lib/validator/pqc/p2mr_utxo.rs:50-114 | one transaction keeps the working maps in step with plain replay: available is chain less spent plus created, spent within the chain, created outside it |
| BlockDiffs.ApplyTxsInStep | lib/validator/pqc/p2mr_utxo.rs:29-42 | the same at every point of the block loop, for both algorithms |
| BlockDiffs.InStepDiffIsDifference | lib/validator/pqc/p2mr_utxo.rs:17-22 | the recorded diff is the difference of the two sets, nothing more |
| BlockDiffs.ComputedDiffIsDifference | lib/validator/pqc/p2mr_utxo.rs:29-42 | the diff-only algorithm computes the difference that replay makes |
| BlockDiffs.DifferenceApplies | lib/validator/dbs/p2mr_utxos.rs:32-64 | applying a difference never misses a key and gives the new set; undoing it gives the old one |
| BlockDiffs.AcceptedDiffRefinesReplay | lib/validator/pqc/mod.rs:198-245 | the diff of an accepted block, active or not and whatever was fetched, is the diff-only one; it applies to the replayed set and undoes to the chain's |
| BlockDiffs.CreatedAndSpentLeavesNoTrace | lib/validator/pqc/p2mr_utxo.rs:56-69 | an output created and spent in the block is in neither half of the diff |
| BlockDiffs.ReplayStaysP2mr | lib/validator/pqc/p2mr_utxo.rs:87-114 | the tracked set stays P2MR-only |
| BlockDiffs.DryRunAgrees | lib/validator/pqc/mod.rs:93-125 | the dry run accepts exactly what connecting without fetched prevouts accepts |
| BlockLoops.WorkingSet.ApplyTxToValidationAvailable | lib/validator/pqc/p2mr_utxo.rs:50-84 | the input and output loops of the validating form |
| BlockLoops.WorkingSet.ApplyTxToAvailable | lib/validator/pqc/p2mr_utxo.rs:87-114 | the input and output loops of the diff-only form |
| BlockLoops.WorkingSet.SeedCoinbaseOutputs | lib/validator/pqc/mod.rs:156-191 | all coinbase outputs become available, the P2MR ones created |
| BlockLoops.WorkingSet.FillInExtra | lib/validator/pqc/mod.rs:220-224 | fetched prevouts fill gaps and replace nothing |
| BlockLoops.ComputeBlockDiff | lib/validator/pqc/p2mr_utxo.rs:29-42 | the loop over the block computes the diff function |
| BlockLoops.ValidateAndDiffBlockTransactions | lib/validator/pqc/mod.rs:198-245 | the validating loop with its diff |
| BlockLoops.ValidateBlockTransactions | lib/validator/pqc/mod.rs:93-125 | the validating loop without a diff |
| Prefetches.SameBlockOutpoints | lib/validator/enforcer.rs:340-347 | exactly the outpoints created in the block |
| Prefetches.HasChainInput | lib/validator/enforcer.rs:362-367 | whether an input is in the indexed set |
| Prefetches.PrefetchExternalPrevouts | lib/validator/enforcer.rs:331-383 | exactly the inputs of selected transactions that are neither indexed nor created in the block |
| Prefetches.WantedExactlyWhen | lib/validator/enforcer.rs:331-383 | an outpoint is asked for exactly when it is in neither the indexed set nor an output of the block, and a transaction behind the coinbase spends it together with an indexed output or reveals a vault leaf |
| Prefetches.ResolvableExactlyWhen | lib/validator/enforcer.rs:322-383 | a transaction gets all its prevouts exactly when it is selected or all its inputs are local |
| BlockHashes.AncestryLinks | lib/validator/dbs/block_hashes.rs:229-243 | the ancestors of a block are linked by parent hash, one height apart, down to the first absent header |
| BlockHashes.ChainSuffix | lib/validator/dbs/block_hashes.rs:229-243 | the ancestry of an ancestor is the rest of the ancestry |
| BlockHashes.PutHeadersKeepsInvariant | lib/validator/dbs/block_hashes.rs:162-186 | any batch of headers with consistent heights keeps all store invariants |
| BlockHashes.PutBlockInfoKeepsInvariant | lib/validator/dbs/block_hashes.rs:189-224 | storing a block keeps block tables within headers and ancestor-closed, heights explained, and cumulative work the sum along the path |
| BlockHashes.HeaderComesBeforeBlock | lib/validator/dbs/block_hashes.rs:103-118 | a new header keeps the invariant while its key is in none of the block tables, whether or not its parent is stored |
| BlockHashes.FirstHeaderComesBeforeBlock | lib/validator/dbs/block_hashes.rs:162-186 | the first header put into empty tables is one |
| BlockHashStores.AncestorHeaders.Next | lib/validator/dbs/block_hashes.rs:229-243 | the iterator yields the ancestry one by one and then nothing |
| BlockHashStores.BlockHashDbs.PutHeaders | lib/validator/dbs/block_hashes.rs:162-186 | the loop of puts computes the batch function |
| BlockHashStores.BlockHashDbs.PutBlockInfo | lib/validator/dbs/block_hashes.rs:189-224 | three puts, or the error for a missing header or parent with nothing changed |
| BlockHashStores.BlockHashDbs.SkipAncestors | lib/validator/dbs/block_hashes.rs:266-292 | skips to the lower height or says at which depth a header is absent |
| BlockHashStores.BlockHashDbs.FirstMeeting | lib/validator/dbs/block_hashes.rs:293-314 | stepping both iterators from equal heights gives the right answer |
| BlockHashStores.BlockHashDbs.LastCommonAncestor | lib/validator/dbs/block_hashes.rs:248-315 | the result is on both ancestries and every common ancestor is its ancestor; zero exactly when two complete ancestries share nothing; an error only at an absent header, with its depth |
| BlockHashStores.BlockHashDbs.TryGetHeaderInfo | lib/validator/dbs/block_hashes.rs:317-342 | the stored header with its height; the two tables never disagree |
| BlockHashStores.BlockHashDbs.TryGetHeaderInfos | lib/validator/dbs/block_hashes.rs:360-381 | the block and up to the given number of ancestors, newest first, a prefix of the ancestry, each as it is stored and with its height |
| HeaderTree.MeetAtEqualHeight | lib/validator/dbs/block_hashes.rs:262-292 | two ancestries can only meet at equal heights |
| HeaderTree.FirstMeetingIsLast | lib/validator/dbs/block_hashes.rs:293-313 | the first meeting from the top is the last common ancestor |
| HeaderTree.NeverMeetingIsDisjoint | lib/validator/dbs/block_hashes.rs:293-314 | walking to an end without meeting means nothing is common |
| HeaderTree.LastCommonIsUnique | lib/validator/dbs/block_hashes.rs:246-315 | the last common ancestor is unique and does not depend on the order of the arguments |
| HeaderTree.FetchedHeadersAreComplete | lib/validator/task/mod.rs:316-457 | headers fetched link by link from the first block on leave the last one on record with all headers below it |
| Chainstate.RejectionKeepsState | lib/validator/enforcer.rs:202-268 | a rejected block changes at most the header and height tables, an error nothing |
| Chainstate.HeaderIsKeptExactlyWhen | lib/validator/enforcer.rs:202-268 | accepted or rejected, a header stays on record exactly when it was, or the height of its parent is known, and then one above that |
| Chainstate.RejectedForItsPlaceExactlyWhen | lib/validator/task/mod.rs:166-210 | which blocks are rejected for their parent and which for the missing coinbase |
| Chainstate.ConnectAgrees | lib/validator/enforcer.rs:202-316 | after a connect the database agrees with the chain extended by the block, or with the old chain if it was rejected |
| Chainstate.TipMovesExactlyWhen | lib/validator/task/mod.rs:126-149 | a block stored on the tip becomes the tip exactly if there was none or the block adds work |
| Chainstate.StoringFailsExactlyWhen | lib/validator/task/mod.rs:126-149 | storing a block fails exactly when a spent output, its header, its parent's work or the tip's work is missing |
| Chainstate.PutHeadersAgree | lib/validator/dbs/block_hashes.rs:162-186 | a batch of fetched headers leaves the database in agreement with the active chain |
| Chainstate.BatchAgrees | lib/validator/task/mod.rs:531-625 | a batch of blocks extends the agreed chain by exactly those before the first rejected one, and no error occurs |
| Chainstate.UndoTip | lib/validator/dbs/diff.rs:83-87 | disconnecting the tip gives the table and tip of the chain without its last block |
| Chainstate.DisconnectAgreesExactlyWhen | lib/validator/task/mod.rs:224-259 | exactly when a disconnect keeps the database in agreement with the active chain |
| Chainstate.StaleDiffIsUndoneAgain | lib/validator/task/mod.rs:240-247 | two undone blocks and a third disconnect that brings a tip back |
| Chainstate.InactiveIsAccepted | lib/validator/pqc/mod.rs:206-208 | below activation every block on the tip that has a coinbase is accepted |
| Chainstate.StaleTipFromEmpty | lib/validator/task/mod.rs:224-259 | a run from an empty database: two blocks connected and undone, a third disconnect brings back the first as tip with its spent output |
| Chainstate.RunAgrees | lib/validator/enforcer.rs:202-316 | agreement is kept by every run of connects, accepted or not, batches, header batches and disconnects |
| Chainstate.IndexIsReplayOfActiveChain | lib/validator/dbs/p2mr_utxos.rs:32-64 | from an empty database, after every run the P2MR table is the replay of the active chain, the store invariants hold, and the id on record for each of its blocks is that of its coinbase |
| Chainstate.ReturningRestoresTheTable | lib/validator/dbs/diff.rs:77-87 | any run that returns to the same active chain restores table and tip |
| Chainstate.DryRunPredictsConnect | lib/validator/enforcer.rs:601-619 | the dry run of a block on the tip says whether connecting it will accept it |
| Chainstate.ActiveIsAncestry | lib/validator/dbs/block_hashes.rs:229-243 | the active chain is the stored ancestry of its tip |
| Chainstate.CommonAncestorIsOnChain | lib/validator/task/mod.rs:654-670 | a common ancestor of tip and node tip ends a prefix of the active chain |
| Chainstate.MissingLeadsToTip | lib/validator/task/mod.rs:677-685 | the stack of missing blocks is distinct and leads link by link from the node's tip to a child of ours |
| Chainstate.ActiveHeights | lib/validator/dbs/block_hashes.rs:162-186 | block i of the active chain has height i |
| Validators.Dbs.Begin | lib/validator/enforcer.rs:239-243 | a nested write transaction starts as a copy |
| Validators.Dbs.CommitTo | lib/validator/enforcer.rs:166-170 | committing replaces the parent's tables |
| Validators.Validator.PassThrough | lib/validator/task/mod.rs:126-149 | applies a given diff, stores the block and moves the tip if there is more work behind the block |
| Validators.Validator.ConnectBlock | lib/validator/task/mod.rs:166-222 | parent check, coinbase check, then the block |
| Validators.Validator.HandleBlockBatch | lib/validator/task/mod.rs:531-625 | the loop over a batch connects the blocks before the first rejected one and reports that one |
| Validators.Validator.StoreHeaders | lib/validator/task/mod.rs:422-431 | fetched headers are stored in a transaction of their own |
| Validators.Validator.FetchRemaining | lib/validator/task/mod.rs:729-755 | the loop over chunks, each committed up to its first rejected block, computes the function the theorems are about |
| Validators.Validator.ConnectAndCommit | lib/validator/enforcer.rs:202-316 | the header write is kept on a rejection, the nested one dropped |
| Validators.Validator.DisconnectBlock | lib/validator/task/mod.rs:224-259 | no diff: nothing; wrong tip: error; else undo and move the tip to the parent |
| Validators.Validator.DisconnectAndCommit | lib/validator/enforcer.rs:549-564 | the same, committed |
| Validators.Validator.ValidateBlock | lib/validator/enforcer.rs:601-619 | the dry run writes nothing and accepts without a tip |
| Validators.Validator.RollBackToForkPoint | lib/validator/task/mod.rs:647-676 | undoing to the last common ancestor leaves a prefix of the active chain with its own replay |
| Validators.Validator.MissingBlocks | lib/validator/task/mod.rs:677-685 | collects the ancestry of the node's tip down to our tip |
| Validators.Validator.StartSync | lib/validator/task/mod.rs:647-690 | roll-back and missing blocks together leave what the sync theorems start from, or an error and nothing changed |
| NodeSync.MissingIsPath | lib/validator/task/mod.rs:647-685 | after the roll-back the missing blocks, oldest first, are a path of stored headers from our tip to the node's |
| NodeSync.NextIsDecided | lib/validator/task/mod.rs:166-222 | on the path the next block becomes the tip exactly if the rules at its height accept it on the replay of the blocks before it; no other reason rejects it and no error occurs |
| NodeSync.LaterIsRejected | lib/validator/task/mod.rs:175-206 | any later block of the path is rejected for its parent |
| NodeSync.BatchOnPath | lib/validator/task/mod.rs:531-625 | a batch connects the blocks of the path up to the first one rejected for its contents |
| NodeSync.FetchOnPath | lib/validator/task/mod.rs:729-755 | fetching in chunks does the same for the rest of the path, or stops when interrupted |
| NodeSync.FetchInterruptedExactlyWhen | lib/validator/task/mod.rs:729-755 | valid blocks are fetched to the end exactly unless a stop is seen before one of the chunks of 50 they make |
| NodeSync.ErrorEndsFetching | lib/validator/task/mod.rs:729-755 | an error in a chunk drops the chunk and ends the sync |
| NodeSync.FetchBeyondGap | lib/validator/task/mod.rs:729-751 | fetching from a later block than the next connects nothing and reports that block, for its parent |
| NodeSync.FilesOnPath | lib/validator/task/block_files.rs:165-412 | whatever the files hold, the database follows a prefix of the path; off the stack and not connected are only dropped blocks, and then some are still missing |
| NodeSync.SyncOnPath | lib/validator/task/mod.rs:629-763 | files, then fetching: a prefix of the path, all of it valid, is connected; it is the whole path or ends before a block rejected for its contents, unless the file sync dropped blocks; then the next one is reported for its parent |
| NodeSync.SyncReachesNodeTip | lib/validator/task/mod.rs:629-763 | with roll-back and missing blocks: the database agrees with the fork point's chain extended by missing blocks, a sync that reports success has reached the node's tip, and a block is refused for its parent exactly when blocks were dropped |
| NodeSync.ValidBlockIsRefusedExactlyWhen | lib/validator/task/mod.rs:704-751 | with valid blocks, no interruption, and no item before the first unreadable one that makes the cache lose a due block or the sync give up: a valid block is reported as rejected exactly when the unreadable item stands behind due blocks that are neither all nor whole batches; else all are connected |
| LeafScripts.ParseConcat | lib/validator/pqc/leaf_script.rs:147-219 | two scripts that parse and fit the limit together parse as one, site lists appended |
| LeafScripts.WalkExtends | lib/validator/pqc/leaf_script.rs:161-208 | leftover pushes, earlier sites and a stale last push do not change what a script adds |
| LeafScripts.ParsedSitesArePaidFor | lib/validator/pqc/leaf_script.rs:104-216 | key sizes, signature-check opcodes, no push feeds two sites, keys fit the script: at most 301 sites |
| LeafScripts.BoundIsReached | lib/validator/pqc/leaf_script.rs:147-219 | a script with 301 sites |
| LeafScripts.AddSitesAppends | lib/validator/pqc/leaf_script.rs:123-140 | sites are added for all keys in order, or for none of a bad batch |
| LeafForms.PushedIsDecoded | lib/validator/pqc/leaf_script.rs:161-173 | a push in any of its four forms is read as the data pushed and no further |
| LeafForms.SingleCheckParses | lib/validator/pqc/leaf_script.rs:178-193 | a key in any form of push, followed by OP_CHECKSIG, OP_CHECKSIGVERIFY or OP_CHECKSIGADD, parses to exactly one site with this key and this check when the key has 32 or 1312 bytes, and to the size error otherwise |
| LeafForms.MultiCheckParses | lib/validator/pqc/leaf_script.rs:123-206 | OP_0, any pushes, a count from 1 to 16 and OP_CHECKMULTISIG or OP_CHECKMULTISIGVERIFY parse to exactly the last keys counted, in the order they were pushed, each under this check; too few pushes are an error with both numbers |
| LeafForms.OpcodeAfterScript | lib/validator/pqc/leaf_script.rs:194-216 | behind any script that parses, two opcodes change nothing, a count is left dangling, OP_SUBSTR and all others are errors |
| LeafForms.PushAfterScript | lib/validator/pqc/leaf_script.rs:161-173 | behind any script that parses, a push adds no site and one that is cut short is an error |
| LeafForms.CheckNeedsItsPush | lib/validator/pqc/leaf_script.rs:113-121 | a single check takes a key only from a push right before it |
| LeafForms.MultiCheckNeedsItsCount | lib/validator/pqc/leaf_script.rs:181-187 | a multisig check needs a count, behind any script |
| LeafForms.SingleCheckTakesOneSignature | lib/validator/pqc/leaf_script.rs:222-235 | a leaf with one check takes exactly one signature, any other number is an error with both numbers |
| LeafForms.SingleCheckForgetsCount | lib/validator/pqc/leaf_script.rs:113-121 | a count before a single check is forgotten |
| LeafForms.SingleCheckForgetsPushes | lib/validator/pqc/leaf_script.rs:113-121 | earlier pushes are gone after a single check, so that a multisig check finds none |
| LeafForms.MultiCheckKeepsEarlierPushes | lib/validator/pqc/leaf_script.rs:123-140 | a multisig check leaves the pushes before its keys to the next one |
| LeafForms.MultiCheckLeavesNoKey | lib/validator/pqc/leaf_script.rs:123-140 | a multisig check leaves no key to a single check |
| LeafForms.LimitsOfScripts | lib/validator/pqc/leaf_script.rs:147-160 | the empty script, more than 10 000 bytes, and a script without a check each have their error |
| LeafParsers.LeafParser.PushSingleSigSite | lib/validator/pqc/leaf_script.rs:113-121 | one site with a key of a known size, or the size error |
| LeafParsers.LeafParser.PushMultisigSites | lib/validator/pqc/leaf_script.rs:123-140 | the last keys of the buffer become sites, the others stay |
| LeafParsers.LeafParser.OnPush | lib/validator/pqc/leaf_script.rs:164-173 | a push in the registers, an empty one clearing the last push |
| LeafParsers.LeafParser.OnOpcode | lib/validator/pqc/leaf_script.rs:174-206 | one opcode on the registers computes the step that the theorems about all scripts and opcodes are about, errors included |
| LeafParsers.ParseLeafScript | lib/validator/pqc/leaf_script.rs:147-219 | the loop over the instructions computes the parse function |
| Merkle.BranchIsSymmetric | lib/validator/pqc/merkle.rs:79-95 | a branch hash does not tell left from right |
| Merkle.SmallerNodeFirst | lib/validator/pqc/merkle.rs:79-95 | of two nodes the one that is smaller at the first byte where they differ is hashed first, whichever side it is on |
| Merkle.Extract | lib/validator/pqc/merkle.rs:79-108 | from any path that hashes to the root of a tree, computes the leaf's place in the tree or a collision |
| Merkle.LeafFoldsToRoot | lib/validator/pqc/merkle.rs:79-95 | every leaf of every tree opens its root |
| Merkle.AcceptedPathIsInTree | lib/validator/pqc/merkle.rs:98-108 | soundness: an accepted control block opens a leaf at exactly that path, or exhibits a collision |
| Merkle.EveryLeafVerifies | lib/validator/pqc/merkle.rs:52-108 | completeness, unless the lowest sibling is zero |
| Merkle.ControlBlockDecodesExactlyWhen | lib/validator/pqc/merkle.rs:52-76 | a control block gives back its path exactly when the first sibling is not zero |
| Merkle.PathVerifiesExactlyWhen | lib/validator/pqc/merkle.rs:52-108 | for any siblings, a script opens the root its path hashes to exactly when the lowest sibling is not zero or makes no difference |
| Merkle.ZeroSiblingNeedsCollision | lib/validator/pqc/merkle.rs:52-108 | a script behind a zero sibling verifies with its path only by a collision, which is computed |
| Merkle.ZeroSiblingFailsExactlyWhen | lib/validator/pqc/merkle.rs:52-108 | for every hash and script, a script beside a zero sibling fails to open its root unless one given pair of inputs collides |
| Merkle.PadIsEquivalentExactlyWhen | lib/validator/pqc/merkle.rs:52-76 | padded and plain layouts give the same result, errors included, exactly when the branch does not itself start with a zero node |
| Merkle.RejectedControlBlocks | lib/validator/pqc/merkle.rs:52-108 | a control byte other than 0xc1 and a length that is not one byte and whole nodes each have their error, for every script and root |
| Merkle.RecomputeRoot | lib/validator/pqc/merkle.rs:79-95 | the loop over 32-byte chunks computes the fold |
| Schemes.FromConsensus | lib/validator/pqc/schemes.rs:61-77 | a byte stands for a type exactly when it is that type's byte |
| Schemes.AnyoneCanPayIsTheHighBit | lib/validator/pqc/spend.rs:174-197 | a type commits to its own input alone exactly when its byte has the high bit |
| Schemes.LowDigitsAreTheOutputs | lib/validator/pqc/schemes.rs:61-77 | the low digits of the byte say which outputs are signed |
| Schemes.ElementRoundTripExactlyWhen | lib/validator/pqc/schemes.rs:61-77 | stripping and parsing an appended element gives back signature and type, for exactly these signatures |
| Schemes.ElementIsWrittenExactlyWhen | lib/validator/pqc/schemes.rs:189-207 | appending what was read gives the element back, except for a spelled-out default byte |
| Schemes.StripIsFinal | lib/validator/pqc/schemes.rs:189-207 | stripping is idempotent; a type other than the default was cut off |
| Schemes.ClassifiedExactlyWhen | lib/validator/pqc/schemes.rs:80-97 | the widened size classes are disjoint and classification is membership |
| Schemes.SchemesBySize | lib/validator/pqc/schemes.rs:80-97 | 64 bytes, 2416 to 2424 and 7852 to 7860 without the sighash byte stand for the three schemes, other sizes for none |
| Schemes.KeysBySize | lib/validator/pqc/schemes.rs:99-130 | keys have 32, 1312 and 32 bytes |
| Schemes.SighashByteIsCutExactlyWhen | lib/validator/pqc/schemes.rs:189-207 | a last byte is cut off exactly behind 64, 2420 or 7856 bytes and when it is one of seven |
| Schemes.AppendKeepsClass | lib/validator/pqc/schemes.rs:80-97 | a sighash byte never changes the class of a canonical signature |
| Spends.OutputRoundTrip | lib/validator/pqc/p2mr_output.rs:22-41 | output scripts and roots are in bijection |
| Spends.SignedIsTrulySigned | lib/validator/pqc/schemes.rs:131-187 | with the prevouts the first element selects, a check passes exactly when the element signs the outputs really spent under its own type, and is not one over all inputs behind a first one over its own |
| Spends.AcceptedExactlyWhenAuthorised | lib/validator/pqc/spend.rs:62-129 | with given prevouts an input is accepted exactly when the leaf opens the output and every key it checks has signed, in order, within the limits |
| Spends.WitnessLimits | lib/validator/pqc/spend.rs:62-105 | for a P2MR output, which sizes of stack, leaf and signatures are refused with which error |
| Spends.WitnessIsNeeded | lib/validator/pqc/spend.rs:62-86 | a known P2MR output needs a witness, and a witness for another output or for no input has its error |
| Spends.AcceptedExactlyWhen | lib/validator/pqc/spend.rs:174-256 | an input is accepted exactly when its keys have signed the outputs really spent and no element over all inputs stands behind a first one over its own |
| Spends.UnverifiableExactlyWhen | lib/validator/pqc/spend.rs:239-254 | a spend cannot be checked exactly when its first element commits to all of several inputs and a prevout is unknown |
| Spends.NoSpendGoesUnchecked | lib/validator/pqc/spend.rs:207-258 | in an accepted transaction every input spending a known P2MR output is signed for over the outputs really spent, whatever the other inputs |
| Spends.SpelledOutDefaultIsAccepted | lib/validator/pqc/schemes.rs:54-77 | with a default byte put behind a bare signature of canonical size an input is accepted exactly when it was without it and one byte more fits the weight limit |
| Spends.AcceptedInputByInput | lib/validator/pqc/spend.rs:207-258 | a transaction is accepted exactly when each input is |
| Spends.CommittedOutputsAreTrue | lib/validator/pqc/spend.rs:174-197 | the outputs the digest commits to are the ones really spent: the input's own, or all |
| Spends.GoneOutputIsRefused | lib/validator/pqc/spend.rs:220-229 | a tracked output that was already spent cannot be spent again |
| Spends.ValidateP2mrInputSpend | lib/validator/pqc/spend.rs:62-129 | the loop over sites and signatures, errors in order |
| Spends.PrevoutsForP2mrInput | lib/validator/pqc/spend.rs:174-197 | one prevout, or all of them in input order, or none if one is unknown |
| Spends.ValidateSpends | lib/validator/pqc/spend.rs:207-258 | the loop over the inputs |
| Signers.ChecksigLeafParses | lib/validator/pqc/signer.rs:125-143 | a single-key leaf exists exactly for keys of a known size and parses to that key |
| Signers.HybridLeafParses | lib/validator/pqc/leaf_script.rs:331-341 | a hybrid leaf parses to its two keys in witness order |
| Signers.SingleLeafOpensOnly | lib/validator/pqc/signer.rs:146-165 | the one-byte control block opens the leaf's own root and no other |
| Signers.LeafBytes | lib/validator/pqc/signer.rs:125-143 | the leaves byte by byte, for both key sizes and for the hybrid of two keys |
| Signers.SameDigest | lib/validator/pqc/spend.rs:174-197 | signer and validator arrive at the same message for every sighash type |
| Signers.SignedElement | lib/validator/pqc/signer.rs:182-187 | the appended element is a signature by the key under the type it was made for |
| Signers.TotalValueGrows | lib/validator/pqc/signer.rs:205-214 | the total of the outputs grows by the value of each |
| Signers.SignedSpendPays | lib/validator/pqc/signer.rs:199-260 | a signed spend has exactly the outputs asked for, the one input, version 2 and lock time 0, and pays no more than the spent output holds |
| Signers.SignedHybridPays | lib/validator/pqc/signer.rs:398-455 | so does the spend with two signatures |
| Signers.SpendIsBuiltExactlyWhen | lib/validator/pqc/signer.rs:199-260 | a spend is built exactly with enough entropy, outputs within the spent value, a key of a known size and a library that signs; too little entropy and too much spent each have their error |
| Signers.HybridIsBuiltExactlyWhen | lib/validator/pqc/signer.rs:398-455 | the same for the spend with two signatures, where the values are looked at before any key is made |
| Signers.SignedSpendAcceptedExactlyWhen | lib/validator/pqc/signer.rs:199-260 | every signed spend, for each scheme and type, is accepted exactly when it spends its own leaf's output or no P2MR output |
| Signers.SignedHybridAcceptedExactlyWhen | lib/validator/pqc/signer.rs:398-455 | the same for the spend with two signatures |
| Signers.MixedTypesAcceptedExactlyWhen | lib/validator/pqc/spend.rs:239-255 | a hybrid spend with valid signatures of any two types is accepted exactly when the second commits to its input alone if the first does |
| Signers.MixedTypesAreRefused | lib/validator/pqc/spend.rs:239-255 | one such spend, truly authorised and refused |
| Signers.SignP2mrSpend | lib/validator/pqc/signer.rs:199-260 | the builder computes the spend the theorems are about, outputs, witness and failures included |
| Signers.SignHybridSpend | lib/validator/pqc/signer.rs:398-455 | the hybrid builder likewise |
| BlockSpends.StateIsInStep | lib/validator/pqc/mod.rs:198-245 | before each transaction of an active block the available P2MR outputs are those of the replay so far |
| BlockSpends.AcceptedTxByTx | lib/validator/pqc/mod.rs:226-242 | an active block is accepted exactly when every transaction passes in the state the loop reaches it with |
| BlockSpends.PresentExactlyWhen | lib/validator/pqc/mod.rs:198-245 | whatever was fetched, an input's prevout is there at its transaction exactly when it is indexed, created in the block or fetched |
| BlockSpends.AcceptedBlockIsAuthorised | lib/validator/pqc/mod.rs:198-245 | every output of the chain that an accepted active block takes out was spent by an input signed for with a leaf of that output |
| BlockSpends.AvailableExactlyWhen | lib/validator/pqc/mod.rs:198-245 | when everything asked for was fetched, a prevout is there at its transaction exactly when it is indexed, created in the block or was asked for |
| BlockSpends.UnfetchedExactlyWhen | lib/validator/enforcer.rs:331-383 | exactly which P2MR spends cannot be checked although everything asked for was fetched |
| BlockSpends.UnverifiableBlockIsRejected | lib/validator/pqc/mod.rs:226-238 | a block with an input that fails the P2MR rules is rejected |
| BlockSpends.SameBlockCoInputIsNotFetched | lib/validator/enforcer.rs:362-370 | a block for which nothing is fetched: rejected under every cryptography if the first element commits to all inputs, checkable if not |
| DoubleSpends.SpentSoFarExactlyWhen | lib/validator/pqc/p2mr_utxo.rs:50-84 | before each transaction the record of outputs spent in the block holds exactly those that an earlier transaction found in the replay and spent |
| DoubleSpends.SecondSpendIsRefusedExactlyWhen | lib/validator/pqc/spend.rs:219-232 | a second spend of a tracked output fails exactly if it carries a witness; without one the input is not looked at |
| DoubleSpends.DoubleSpendIsRejected | lib/validator/pqc/mod.rs:198-245 | no enforcing verdict accepts an active block that spends a tracked output twice with witnesses |
| ChainSpends.EverySpendIsAuthorised | lib/validator/enforcer.rs:202-316 | from an empty database, after every run, whatever a block of the active chain at or above activation took out of the table was spent by its owner, with the witness that block carries and the prevouts fetched in the step that connected it |
| LiveAndSync.SyncRefusesForeign | lib/validator/enforcer.rs:491-497 | without fetched prevouts no enforcing verdict accepts an active block with a P2MR spend that commits to all of several inputs, one of them from outside set and block |
| LiveAndSync.InputBothWays | lib/validator/pqc/spend.rs:207-258 | an input passes in a sync exactly when it passes live and is not such a spend |
| LiveAndSync.SyncAcceptsExactlyWhen | lib/validator/pqc/mod.rs:198-245 | for the P2MR rules, a block is accepted without fetched prevouts exactly when it is accepted with them and has no such spend |
| LiveAndSync.AcceptedForeignWasSelected | lib/validator/enforcer.rs:331-383 | a block with such a spend is accepted live only if the transaction was selected for fetching |
| LiveAndSync.ForeignBlockGetsBothAnswers | lib/validator/enforcer.rs:536-545 | one block that is accepted live and refused in a sync |
| LiveAndSync.ConnectWithoutFetchedExactlyWhen | lib/validator/task/mod.rs:166-222 | the same equivalence for connecting a block on the tip of an agreeing database |
| LiveAndSync.SyncStopsBeforeForeign | lib/validator/task/mod.rs:629-763 | a sync never connects such a block nor reports success with one ahead, whatever files and node deliver |
| Obfuscations.MaskedTwice | lib/validator/parse_block_files.rs:112-127 | the key taken off what was put under it gives the bytes back, at every offset |
| Obfuscations.XorByBit | lib/validator/parse_block_files.rs:117-122 | every binary digit of the result is one exactly when the operands differ there |
| Obfuscations.MaskedByBit | lib/validator/parse_block_files.rs:112-127 | each byte of a file is combined with the key byte at its place modulo eight |
| Obfuscations.XorZero | lib/validator/parse_block_files.rs:204-217 | only equal bytes cancel |
| Obfuscations.KeyWindowIsCyclic | lib/validator/parse_block_files.rs:118-122 | only eight different key windows exist |
| BlockFiles.PaddingIsZeroOnDisk | lib/validator/parse_block_files.rs:202-221 | the test for padding holds exactly when the four bytes on disk are zero |
| BlockFiles.NextIsFrame | lib/validator/parse_block_files.rs:186-278 | a written frame is found whole where it stands, unless it is zero on disk; a foreign magic is an error |
| BlockFiles.FoundBlockAdvances | lib/validator/parse_block_files.rs:186-278 | a found block lies within the file and its frame is passed |
| BlockFiles.ImageIsReadUpToFirstHidden | lib/validator/parse_block_files.rs:281-293 | a file of any frames with any padding reads back in order, with offsets, up to the first hidden frame |
| BlockFiles.AllBlocksStopsWhere | lib/validator/parse_block_files.rs:281-293 | whatever a file holds: all its blocks in turn up to the end, or how many there were before the one that fails, and its error |
| BlockFiles.UnknownMagicIsRefused | lib/validator/parse_block_files.rs:144-151 | a file as Core writes it for a network whose magic the parser does not know is refused at its first frame |
| BlockFiles.MagicsAgreeExactlyWhen | lib/validator/parse_block_files.rs:29-32 | the parser's magic of a network is the one Core writes exactly when the network is not Testnet4 |
| BlockFiles.OtherNetworkIsNamed | lib/validator/parse_block_files.rs:223-246 | a frame with the magic Core writes for another network the parser knows is answered by naming that network |
| BlockFiles.BrokenFrames | lib/validator/parse_block_files.rs:249-277 | frames of more than 4 000 000 or fewer than 80 bytes, or cut short, each give their error and leave the reader at a known place |
| BlockFiles.FileEndsBeforeFrame | lib/validator/parse_block_files.rs:186-256 | a file that ends within a magic is at its end, one that ends within a size is damaged |
| BlockFiles.RoundTripExactlyWhen | lib/validator/parse_block_files.rs:202-293 | for all lists of blocks and paddings a file with the magic that Core writes for the network reads back exactly when the parser knows that magic and no window of the key is it |
| BlockFiles.ReportedOffsetYieldsTheBlock | lib/validator/parse_block_files.rs:176-278 | from every reported offset, that very block is next and the rest follows |
| BlockDirectories.DirectoryResumes | lib/validator/task/block_files.rs:188-204 | sent to the file number and adjusted position of an index entry, the parser delivers that block, the rest of its file and all later files, in order |
| BlockDirectories.StreamOfFiles | lib/validator/parse_block_files.rs:430-456 | files are read one after another, each whole, until a number is missing |
| BlockDirectories.FoundBlockMovesOn | lib/validator/parse_block_files.rs:430-456 | every block takes the parser forward, so iterating ends |
| BlockDirectories.NumberSetWhileOpen | lib/validator/parse_block_files.rs:403-456 | a file number set while a file is open opens nothing: position and blocks are those of the open file, and the numbered file is passed over |
| BlockFileParsers.XorReader.Read | lib/validator/parse_block_files.rs:112-127 | however much a read returns, it is the plain bytes from the offset on, and nothing else in the buffer changes |
| BlockFileParsers.XorReader.ReadRaw | lib/validator/parse_block_files.rs:113-115 | some of the bytes at the file's position, at least one unless at the end |
| BlockFileParsers.XorReader.ApplyKey | lib/validator/parse_block_files.rs:117-122 | the loop takes the key off in place |
| BlockFileParsers.XorReader.ReadExact | lib/validator/parse_block_files.rs:193-197 | any chunking fills the buffer with the same bytes, or fails at the end of the file |
| BlockFileParsers.XorReader.Seek | lib/validator/parse_block_files.rs:129-135 | file position and key offset move together |
| BlockFileParsers.BlockFileParser.NextBlock | lib/validator/parse_block_files.rs:186-278 | the parser computes the frame function, errors and offset included |
| BlockFileParsers.BlockFileParser.ReadAfterMagic | lib/validator/parse_block_files.rs:249-277 | size limits, header and transactions in the source's order of checks |
| BlockFileParsers.BlockFileParser.AllBlocks | lib/validator/parse_block_files.rs:281-293 | the loop ends and collects the blocks, or fails with the index of the failing one |
| BlockFileParsers.BlockFileParser.SetOffset | lib/validator/parse_block_files.rs:176-179 | the reader is at the given offset |
| BlockFileParsers.BlockDirectoryParser.constructor | lib/validator/parse_block_files.rs:371-401 | an all-zero key file means no key |
| BlockFileParsers.BlockDirectoryParser.SetFileNumber | lib/validator/parse_block_files.rs:403-405 | only the file number changes |
| BlockFileParsers.BlockDirectoryParser.GetOrInitParser | lib/validator/parse_block_files.rs:411-423 | opens the numbered file unless one is open |
| BlockFileParsers.BlockDirectoryParser.SetOffset | lib/validator/parse_block_files.rs:425-428 | positions in the open or newly opened file |
| BlockFileParsers.BlockDirectoryParser.NextBlock | lib/validator/parse_block_files.rs:430-456 | the loop over files computes the next block of the directory |
| VarInts.VarIntIsBijective | lib/validator/parse_block_files.rs:473-507 | the accepted byte strings are exactly the encodings of 64-bit values, each of one value |
| VarInts.ReadEncoded | lib/validator/parse_block_files.rs:473-507 | every 64-bit value reads back, every larger one is refused as invalid |
| VarInts.TwoDigits | lib/validator/parse_block_files.rs:473-507 | one and two bytes: the first of two counts from one |
| VarInts.ShortEncodings | lib/validator/parse_block_files.rs:471-507 | the one- and two-byte encodings that Core's description of the format lists |
| VarInts.LongEncodings | lib/validator/parse_block_files.rs:471-507 | and the three- and five-byte ones |
| VarInts.ByteReader.ReadVarInt | lib/validator/parse_block_files.rs:473-507 | the loop on 64-bit words never wraps and computes the decoding |
| VarInts.ByteReader.ReadExact | lib/validator/parse_block_files.rs:509-513 | the next bytes, or the end of input |
| VarInts.U32IsBijective | lib/validator/parse_block_files.rs:515-519 | four little-endian bytes and 32-bit numbers are in bijection |
| BlockIndexes.IndexRoundTrip | lib/validator/parse_block_files.rs:617-668 | every record whose fields fit their types reads back as Core wrote it |
| BlockIndexes.FlagsAreBits | lib/validator/parse_block_files.rs:536-556 | bit 8 of the status stands for data, bit 16 for undo data, whatever the other bits |
| BlockIndexes.RecordReadsBack | lib/validator/parse_block_files.rs:617-668 | a record written with file, data and undo positions as the bits of its status ask reads them back in that order |
| BlockIndexes.FrameStartsEightBefore | lib/validator/parse_block_files.rs:604-614 | the adjusted position is eight less, and there is none below eight |
| BlockIndexes.NarrowingCutsOff | lib/validator/parse_block_files.rs:617-643 | a status or file number above 32 bits is read as its remainder |
| CutRecords.VarIntOnPrefix | lib/validator/parse_block_files.rs:473-507 | a number is read from a stream exactly when the stream holds all of its bytes; otherwise it is cut short |
| CutRecords.CutRecordIsRefused | lib/validator/parse_block_files.rs:617-668 | every strict prefix of a record, wherever it ends, is refused as cut short |
| KnownRecords.DownloadedBlock | lib/validator/parse_block_files.rs:1051-1080 | the record of block 135401, byte by byte, with any two hashes: all thirteen fields |
| KnownRecords.HeaderOnlyBlock | lib/validator/parse_block_files.rs:1011-1049 | the record of block 293374, of which only the header is there |
| BlockIndexes.DeserializedIsWellTyped | lib/validator/parse_block_files.rs:617-668 | every accepted record has fields that fit, present exactly as its status says |
| BlockIndexes.DeserializedIsWrittenExactlyWhen | lib/validator/parse_block_files.rs:623-643 | accepted bytes are what Core writes for the result exactly when the casts to 32 bits cut nothing off |
| BlockIndexes.DeserializeIndex | lib/validator/parse_block_files.rs:617-668 | field by field off the stream, the first failing read is the result |
| BlockIndexes.ReadOptionalField | lib/validator/parse_block_files.rs:633-643 | a field is read only when the status has it |

## Left out

- The verdict on one transaction inside a block loop is an arbitrary function in `BlockDiff` and `Chainstate`; only its P2MR part is modelled (`Spend`), and `BlockSpends` and `ChainSpends` join the two.
- The time budget for post-quantum verification, which depends on the clock.
- The tapscript interpreter and vault covenants: an arbitrary test in `Prefetch`, part of the arbitrary verdict elsewhere.
- Mempool acceptance (`accept_tx`), which shares the per-transaction check.
- RPC, REST and ZMQ clients and servers, events, logging, the wallet. Which headers to download is left out; storing a batch of them is not.
- `NodeSync` is about functions; the file sync and the database run as separate classes (`FileSync`, `Validator`), each proved equal to its function.
- LMDB itself: each table is a map, a nested write transaction a copy that is committed or dropped. Database errors other than a missing key are not modelled.
- LevelDB, and copying it; the block index record is read from its bytes.
- I/O errors of file reads other than the end of the file. Files do not change while they are read.
- File sync takes the parser's items as a given stream; the stream a directory yields is modelled in `BlockDirectory`.
- Transactions are not decoded; whether a block's transaction data decodes is part of the stream.
- Cumulative work and block heights are unbounded; 256-bit and 32-bit overflow is not modelled.
- Output indexes are unbounded; the cast to 32 bits cannot cut anything off in a block of legal size.
- Sums of output values are unbounded; the source adds 64-bit amounts.
- The tapscript sighash digest is an arbitrary function of the transaction without witnesses, the input, the spent outputs it commits to, the leaf and the type.
- The leaf version check, which cannot fail for the one version in use.
- Key generation and signing are arbitrary functions; only that generated keys sign what verification accepts is assumed.
- The start of a file sync at the genesis block, which needs no index entry and begins at file 0.
- Status flags other than "has data" and "has undo", which nothing here reads.
