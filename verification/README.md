# A verified model of the validator monitor

The monitor follows an Authority Round chain. In every cycle it asks the validator contracts for new
epochs, tells its *primary oracle* up to which height the epochs are complete now, fetches new blocks up
to that height, stores them, and passes each one to its reporters: one lists steps in which nobody
proposed, one derives from those which validators are offline, and one lists blocks of one proposer in
one step. Each of these parts keeps a compact, incrementally updated or pruned state. This project models
the parts as they are and proves

* that each compact state agrees with a naive definition over the *whole* history (all epochs ever added,
  all blocks ever seen, all skips ever reported), and
* that the parts, wired together as the monitor wires them, meet each other's demands in every run: the
  oracle is never asked about a height it does not know, skips reach the offline reporter in order, an
  inserted branch is always new, the equivocation reporter always finds its own block.

| file | part |
|---|---|
| `Basics` | outcomes, errors, addresses, hashes, blocks |
| `PrimaryOracle` | the pruned staircase of epochs against a scan of all epochs ever added |
| `Node` | the node: a fixed tree of blocks of all forks, and a canonical tip that may change with every call |
| `ContractEpochs`, `EpochCycles`, `EpochFetcher` | the fetchers of contract epochs, the dropping of stale ones, the known height |
| `ContractAnswers` | which entry of a contract an oracle answers with |
| `DefinitionRanges` | the chain specification's multi list, its ranges and static epochs |
| `SkipReporter`, `OfflineReporter`, `Detection` | missed steps, the sliding window, how soon an idle validator is reported |
| `BlockDB`, `BlockSync`, `BlockFetcher` | the block table and the resumable forward and backward sync |
| `EquivocationReporter` | blocks of one proposer in one step |
| `Monitor` | the cycle: the wiring of all parts and its invariant |
| `Guarantees` | what the invariant of the running monitor means for its reports |

## How the program is modelled

* Classes whose methods update fields are Dafny classes with those fields. Ghost fields record the history
  (`added`, `seen`, `events`, `cycles`); `Valid()` ties the real fields to a definition over that history.
* Every exception and failed assertion is a `Failure` with its own error. Any of them ends the process, so
  claims about a state are claims about operations that succeed; which errors can occur is stated as well.
* The node is a fixed tree of blocks (a child is numbered one more than its parent). `tip`, `visible` and
  `selected` are arbitrary functions of the number of calls made so far, so the canonical chain, what the
  contracts list and what the initial block resolves to may be different at each call.
* `Progresses` states what is expected of the node and the contracts: block numbers never shrink, a contract
  lists strictly increasing heights and only appends to them, and what it appends after some call starts
  above the block number of that call. Nothing else is expected of them, and only statements that need it
  require it.
* The proposer of a block is the address recovered from its signature; a block's hash identifies it.

## Where the code differs from its description

* Fetching a contract's epochs bit by bit does not always yield what fetching them at once would. A new
  height is compared with the latest known *start*, which has been raised to the height at which the contract
  is entered. A change listed after the first fetch and at or below that height is lost.
  `ContractEpochs.RoundsEqualOneFetch` proves exactly when both agree, `ContractEpochs.EarlyChangeIsLost`
  gives an instance where the oracle then answers the outdated validators, and
  `Guarantees.AnswersFollowContract` says which entry the running monitor answers with in either case.
* The description of `_remove_epochs_rendered_irrelevant` (src/monitor/validators.py:236-244) says that an epoch
  of the 5th range starting at 10 is removed when one of the 4th range starting at 9 is added. The code, and
  the model, remove only epochs of *lower* ranges than the added one: `PrimaryOracle.LaterRangeStays` is that
  very instance, and the contract of `PrimaryOracle.PrimaryOracle.RemoveEpochsRenderedIrrelevant` says exactly
  which epochs go.

## Worth knowing

* The offline window is closed at both ends: a skip exactly at the cutoff still counts
  (`OfflineReporter.EvictionMovesWindow`).
* The maximum reorg depth does not protect the head, which backward syncs put at the known height itself. If the
  head is replaced, and the chain then grows by more than the reorg depth before the next blocks are fetched, the
  forward sync builds on a block that is not stored and ends the process. As long as deep blocks are not replaced
  this is the only way for a forward sync to fail (`BlockFetcher.BlockFetcher.SyncForwardsToTarget`). What counts
  is the canonical block numbered like the head, not the head: both may be stored
  (`BlockFetcher.SiblingOfHeadMayBeStored`).

## Model

| member | source | states |
|---|---|---|
| PrimaryOracle.ScanPicksTheEpochInCharge | src/monitor/validators.py:179-198 | the naive answer is the greatest (definition index, start) among all started epochs, the last added among equals; nothing exactly when no epoch has started |
| PrimaryOracle.InChargeIsUnique | src/monitor/validators.py:179-198 | at most one epoch of a history is in charge of a height |
| PrimaryOracle.DominatedIsInvisible | src/monitor/validators.py:212-234 | adding an epoch that starts where a later range already rules changes no answer |
| PrimaryOracle.LaterEpochsAreInvisible | src/monitor/validators.py:200-210 | any number of epochs starting above a height leave its answer alone |
| PrimaryOracle.AddStairKeepsStaircase | src/monitor/validators.py:200-263 | after every addition starts strictly increase and definition indices never decrease |
| PrimaryOracle.AddStairAnswers | src/monitor/validators.py:200-263 | one addition to the pruned staircase moves the answer at every height exactly as it moves the scan of all epochs |
| PrimaryOracle.LaterRangeStays | src/monitor/validators.py:236-263 | an epoch of the 5th range at 10 survives the addition of one of the 4th range at 9 |
| PrimaryOracle.StaircaseRefinesScan | src/monitor/validators.py:179-263 | for every history and height the pruned staircase answers like the scan of everything ever added |
| PrimaryOracle.PrimaryOracle.GetValidators | src/monitor/validators.py:179-198 | answers with the validators of the one epoch in charge among all epochs ever added; without any epoch, above the known height and below every start it fails with the error of that case, and only then |
| PrimaryOracle.PrimaryOracle.GetPrimary | src/monitor/validators.py:174-177 | the validators of the epoch in charge take turns by step number; the modulus is never zero and the errors are those of the look-up, each exactly in its case |
| PrimaryOracle.PrimaryOracle.IsRelevant | src/monitor/validators.py:212-234 | relevant unless the last epoch started before stems from a later range |
| PrimaryOracle.PrimaryOracle.AddEpoch | src/monitor/validators.py:200-210 | the epoch joins the history and dictionary and sorted list represent the staircase of that history; fails exactly without validators and then changes nothing |
| PrimaryOracle.PrimaryOracle.RemoveEpochsRenderedIrrelevant | src/monitor/validators.py:236-263 | removes exactly the consecutive later epochs of lower ranges, keeping list and dictionary in step |
| ContractEpochs.NewEpochsAreUnseen | src/monitor/validators.py:313-335 | once caught up, a fetch takes only entries that were not listed before |
| ContractEpochs.NewEpochsCarryEntries | src/monitor/validators.py:313-335 | every epoch taken has the validators of a listed entry and starts at its height or, if that is higher, at the enter height; every entry above the latest known start is taken |
| ContractEpochs.FetchCatchesUp | src/monitor/validators.py:304-342 | a fetch catches up with all it was shown |
| ContractEpochs.RoundsEqualOneFetch | src/monitor/validators.py:304-342 | fetching in rounds equals one fetch at the end if and only if every height appended after the first non-empty round exceeds the enter height |
| ContractEpochs.EarlyChangeIsLost | src/monitor/validators.py:313-332 | a concrete contract whose change before its enter height is lost, so that the oracle answers outdated validators |
| EpochCycles.StaleIsOutdated | src/monitor/validators.py:380-408 | all that a stale fetcher could still return is dominated by an epoch the oracle has already |
| EpochCycles.StaleMeans | src/monitor/validators.py:380-408 | a first fetcher is stale exactly when it was asked at or above the earliest epoch of the next fetcher that has one |
| EpochCycles.RunsCorrespond | src/monitor/validators.py:365-408 | at every cycle the fetchers left are a suffix of those of a run that drops none, and both histories answer alike |
| EpochCycles.PoppingIsInvisible | src/monitor/validators.py:365-408 | after any run of cycles the oracle answers every height as if no fetcher had been dropped |
| EpochCycles.NewEpochsAreAboveKnown | src/monitor/validators.py:304-342 | every epoch fetched later starts above the last fetch height |
| EpochCycles.KnownHeightGrows | src/monitor/validators.py:410-422 | the last fetch height never falls from cycle to cycle, although fetchers are dropped |
| EpochCycles.OneFetcherRemains | src/monitor/validators.py:376-408 | the last fetcher is never dropped |
| ContractAnswers.RangeDecides | src/monitor/validators.py:179-263 | where no epoch of a later range has started, the epochs of a range alone decide the answer as soon as one of them has started |
| ContractAnswers.KeepingFetchesInRounds | src/monitor/validators.py:365-374 | over any run of cycles each contract's fetcher goes through its own rounds: the epochs of its range are exactly those it took |
| ContractAnswers.LastTakenAnswers | src/monitor/validators.py:304-342 | of the entries a fetcher took, the last one at or below a height answers there |
| ContractAnswers.EntryIsShown | src/monitor/validators.py:410-422 | every entry of a contract that starts at or below a known height of its range was shown in the last cycle, even if its fetcher had been dropped |
| EpochFetcher.ContractEpochFetcher.FetchNewEpochs | src/monitor/validators.py:304-342 | every entry above the latest known start yields one epoch with the validators listed for it, clamped to the enter height, and nothing else does; updates the fetcher's fields accordingly; fails exactly for unordered heights |
| EpochFetcher.FetchersFor | src/monitor/validators.py:353-359 | each contract range has a new fetcher of its address, enter height and index, no other range has one, and they follow the order of the ranges |
| EpochFetcher.EpochFetcher.constructor | src/monitor/validators.py:350-359 | starts the run over all contract ranges, before its first cycle |
| EpochFetcher.CreateEpochFetcher | src/monitor/validators.py:346-359 | refuses exactly the ranges that leave gaps, else all fetchers are new and stand before their first cycle |
| EpochFetcher.EpochFetcher.FetchNewEpochs | src/monitor/validators.py:365-374 | performs one cycle of the run: returns what all fetchers newly see, keeps the run's state, returns only epochs above the previous known height and never lowers it; afterwards everything up to the block number at the start of the cycle is known, and nothing beyond the one at its end |
| EpochFetcher.EpochFetcher.PopFirstFetcherIfStale | src/monitor/validators.py:380-408 | drops the first fetcher exactly when it was asked at or above the earliest epoch of the next fetcher that has one |
| EpochFetcher.EpochFetcher.RemoveStaleFetchers | src/monitor/validators.py:376-378 | ends, and leaves the fetchers from the first one on that is not stale |
| EpochFetcher.EpochFetcher.SetLastFetchHeight | src/monitor/validators.py:410-422 | the block number without fetchers; 0 while one has not been asked; otherwise the fetch height of one of them, and none has a lower one |
| DefinitionRanges.SortingIsStable | src/monitor/validators.py:90-94 | sorting orders the entries by height, loses none and keeps the order of equal heights |
| DefinitionRanges.GetValidatorDefinitionRanges | src/monitor/validators.py:85-131 | the i-th range carries exactly the list or address of the i-th sorted entry and ends where the next one begins; an error exactly without an entry for height 0 or with an empty list |
| DefinitionRanges.ValidateValidatorDefinitionOrder | src/monitor/validators.py:134-139 | succeeds exactly for ranges without gaps |
| DefinitionRanges.RangesAreComplete | src/monitor/validators.py:85-139 | the ranges of every valid multi list begin at 0, connect and never end, so the order check passes |
| DefinitionRanges.RangesPartitionHeights | src/monitor/validators.py:85-139 | every height lies in exactly one range |
| DefinitionRanges.GetStaticEpochs | src/monitor/validators.py:148-165 | one epoch per static range with its index, or an error when ranges do not connect |
| DefinitionRanges.StaticRangeAnswers | src/monitor/validators.py:148-165 | whatever contracts contribute, an oracle answers a static range's heights with that range's list |
| DefinitionRanges.StaticOracleAnswers | src/monitor/validators.py:148-210 | with static ranges only, every known height is answered with the list of the one range it lies in |
| SkipReporter.StepAccounting | src/monitor/skip_reporter.py:71-130 | every step between the first and the latest is exactly one of proposed in time, open, missed, with one height |
| SkipReporter.CountedMeans | src/monitor/skip_reporter.py:71-83 | a block counts unless it is a genesis block or no block so far had both a number and a step |
| SkipReporter.MissedMeans | src/monitor/skip_reporter.py:85-130 | a step is missed exactly when it lies above the first one and no block up to the first one beyond its grace period carries it; its height is that of the first block above it |
| SkipReporter.BlockSplitsPending | src/monitor/skip_reporter.py:85-105 | how one more block, arriving in any order, turns pending steps into missed and open ones; no miss is ever taken back |
| SkipReporter.MissesComeInOrder | src/monitor/skip_reporter.py:88-130 | whatever is missed later has a greater step than all that was missed before |
| SkipReporter.SkipReporter.OnBlock | src/monitor/skip_reporter.py:71-105 | the proposals reported so far are exactly the missed ones of all blocks seen, once each and in the order of their steps; each blames whom the oracle names; fails only with the oracle's error for a newly missed proposal |
| SkipReporter.SkipReporter.UpdateOpenSkippedProposals | src/monitor/skip_reporter.py:107-112 | opens exactly the steps strictly between the latest and the new one |
| SkipReporter.SkipReporter.RemoveOpenSkippedProposalsWithStep | src/monitor/skip_reporter.py:114-120 | closes the proposed step and no other |
| SkipReporter.SkipReporter.GetMissedProposals | src/monitor/skip_reporter.py:122-130 | exactly the open proposals beyond their grace period, each once and in the order of their steps |
| OfflineReporter.EvictionMovesWindow | src/monitor/offline_reporter.py:145-162 | cutting off what bisection finds leaves exactly the skips from the cutoff on, and the subtracted lengths account for the rest |
| OfflineReporter.WindowMeans | src/monitor/offline_reporter.py:129-162 | the naive window holds exactly the validator's skips at or after the cutoff, and its time is their total length |
| OfflineReporter.OneReportPerOfflineValidator | src/monitor/offline_reporter.py:106-127 | a validator is reported if and only if it exceeded the rate at some of its skips, and never twice |
| OfflineReporter.OfflineReporter.OnSkip | src/monitor/offline_reporter.py:106-127 | running lists and sums equal the naive windows over all skips ever; reports exactly a validator not reported before whose time in the window that ends now exceeds the allowed rate, with exactly the steps in that window; fails if and only if the validator is not reported yet and the skip is out of order, unknown to the oracle or without a window, with the error of the first of these |
| OfflineReporter.OfflineReporter.UpdateOfflineIntervals | src/monitor/offline_reporter.py:129-143 | adds the step with the number of validators in charge of its height to its validator's list and sum only; fails if and only if it does not come after the list's last step or the oracle fails, in this order |
| OfflineReporter.OfflineReporter.ClearOutdatedOfflineIntervals | src/monitor/offline_reporter.py:145-162 | all lists lose exactly what lies before the window, all sums the lengths of that |
| OfflineReporter.OfflineReporter.IsOffline | src/monitor/offline_reporter.py:164-166 | offline when the window time's share of the window exceeds the allowed rate; fails exactly for an empty window |
| Detection.WindowTimeIsBounded | src/monitor/offline_reporter.py:129-162 | with n constant distinct validators nobody's window time ever exceeds W + n |
| Detection.SkipsAreConsecutive | src/monitor/skip_reporter.py:71-130 | the skips of a validator that never proposes are n steps apart without a gap |
| Detection.DetectedByNumberOfSkips | src/monitor/offline_reporter.py:106-166 | a validator that never proposes is offline by its (W / n + 1)th skip for every allowed rate up to 1 |
| Detection.DetectedBySteps | src/monitor/skip_reporter.py:71-130 | the same in steps, from blocks in any order to the verdict |
| BlockDB.EnsureBranch | src/monitor/db.py:62-70 | succeeds exactly when each block is the parent of the next |
| BlockDB.FiledHas | src/monitor/db.py:117-130 | storing a branch adds its blocks, keeps all others and adds nothing else |
| BlockDB.BlockDB.InsertBranch | src/monitor/db.py:117-130 | stores a connected branch of new, distinct blocks completely, otherwise nothing and the right error |
| BlockSync.InsertKeepsSync | src/monitor/block_fetcher.py:79-97 | storing and passing on an insertable branch keeps: a tree grown from the one initial block, each block delivered once, its parent before it, the head delivered last |
| BlockSync.AncestorsAreStored | src/monitor/block_fetcher.py:79-97 | all ancestors of a stored block down to the initial block are stored and were delivered |
| BlockSync.ChainDeliveredInOrder | src/monitor/block_fetcher.py:173-206 | on a single chain delivery order is number order without gaps |
| BlockFetcher.BlockFetcher.RunCallbacks | src/monitor/block_fetcher.py:74-77 | passes on the blocks in order, each with the table as stored at that moment |
| BlockFetcher.BlockFetcher.InsertBranch | src/monitor/block_fetcher.py:79-97 | each error exactly in its case: a base that is not stored, blocks that are not linked, a block that is known; blocks above the initial one keep the sync invariant; nothing happens for no blocks or on an error |
| BlockFetcher.BlockFetcher.InsertFirstBlock | src/monitor/block_fetcher.py:99-119 | stores exactly one block: the selected one unless it is less than the reorg depth below the latest, else the canonical one at that depth; its number is the initial one |
| BlockFetcher.BlockFetcher.SyncForwards | src/monitor/block_fetcher.py:173-192 | passes on exactly the blocks above the head that were canonical when asked for, up to both limits or the first missing one; each error has its cause, and a block can only be known already if one above the head was delivered; on a fixed chain it cannot fail |
| BlockFetcher.DeepBlocksConnect | src/monitor/block_fetcher.py:170-192 | if deep blocks are not replaced, blocks fetched one by one up to the forward target form one chain on the canonical block below them |
| BlockFetcher.BlockFetcher.SyncForwardsToTarget | src/monitor/block_fetcher.py:140-157 | syncs forwards as many blocks as the limit, the cap and the reorg depth below the latest allow, neither more nor, as long as they exist, fewer; if deep blocks are not replaced, it fails if and only if there is something to fetch and the canonical block numbered like the head is not stored |
| BlockFetcher.DeliveredUpToHead | src/monitor/block_fetcher.py:173-206 | on a fixed chain all its blocks from the initial one to the head have been passed on |
| BlockFetcher.SiblingOfHeadMayBeStored | src/monitor/block_fetcher.py:83-88 | a state in sync whose head is off the canonical chain while the canonical block of its number is stored |
| BlockFetcher.BlockFetcher.GetBlockByNumber | src/monitor/block_fetcher.py:208-222 | the canonical block of that number or the latest one; an error if there is none or it lies below the initial block |
| BlockFetcher.BlockFetcher.GetBlockByHash | src/monitor/block_fetcher.py:208-222 | the block of that hash; an error if unknown or below the initial block |
| BlockFetcher.BlockFetcher.FetchBranch | src/monitor/block_fetcher.py:224-263 | the branch starts at the target and grows parent by parent until its base is stored or the limit is used up; it stays linked and disjoint from the table |
| BlockFetcher.BlockFetcher.CompleteBranch | src/monitor/block_fetcher.py:203-204 | storing a completed branch cannot fail, as none of its blocks is known; its blocks are passed on from the base to the head |
| BlockFetcher.BlockFetcher.SyncBackwards | src/monitor/block_fetcher.py:194-206 | counts exactly the blocks it adds; below the limit no branch stays in progress; a result of 0 means the target was stored already |
| BlockFetcher.BlockFetcher.FetchAndInsertNewBlocks | src/monitor/block_fetcher.py:121-168 | whatever the canonical chain does between calls: sync invariant, conservation of fetched blocks, result within the limit, height cap; a result of 0 means no branch is in progress and the target is stored; capped syncs keep the head on top, so no forward block is ever known already; a replaced head below the forward target ends the process; on a fixed chain without a branch in progress all blocks at least the reorg depth below the latest are passed on as far as cap and limit allow |
| BlockFetcher.BlockFetcher.RunUntilSynced | src/monitor/block_fetcher.py:121-206 | on a fixed chain any batch sizes deliver exactly the blocks from the initial one (selected, but at least the reorg depth below the latest) to the cap or the tip in order, with at most one productive call per block |
| EquivocationReporter.EquivocationReporter.OnBlock | src/monitor/equivocation_reporter.py:27-46 | if another stored block has its proposer and step, reports exactly all stored blocks of that proposer and step, otherwise nothing; fails exactly if the block itself is not stored |
| EquivocationReporter.OwnBlockIsThere | src/monitor/equivocation_reporter.py:37-38 | driven by the block fetcher the reporter always finds its own block |
| EquivocationReporter.ReportsAreSound | src/monitor/equivocation_reporter.py:27-46 | a report has at least two members and lists exactly the blocks of one block's proposer and step that were stored when that block was passed on; all of them are still stored |
| EquivocationReporter.EquivocationsAreReported | src/monitor/equivocation_reporter.py:27-46 | for any two stored blocks of one proposer and step there is a report, made for the last such block, that lists exactly all stored blocks of that proposer and step |
| Monitor.AnswersAreFinal | src/monitor/main.py:231-235 | epochs above the known height change no answer up to it |
| Monitor.AttributionIsFinal | src/monitor/main.py:231-235 | all blame and all set sizes behind the offline state stay what the oracle answers |
| Monitor.MissedHeightIsKnown | src/monitor/main.py:189-196 | the height of a missed proposal never exceeds the cap that blocks were fetched with |
| Monitor.OnlyEarlyHeightsFail | src/monitor/validators.py:174-198 | an oracle asked for a known height fails only if no epoch rules from the genesis block on |
| Monitor.App.constructor | src/monitor/main.py:293-315 | all parts start empty and new, share one node and one table, and agree with each other before the first block |
| Monitor.App.InitializePrimaryOracle | src/monitor/main.py:272-291 | static epochs and a first cycle establish the wiring's invariant and leave only fetchers there were before; everything up to the block number at the start is known; fails only if a contract lists an epoch without validators |
| Monitor.App.UpdateEpochs | src/monitor/main.py:231-235 | the oracle gets exactly the run's new epochs and the height they are known up to, which is between the block numbers before and after; new epochs start above the previous one |
| Monitor.App.PassOn | src/monitor/main.py:340-346 | skip reporter, offline reporter and equivocation reporter stay in step with the calls; skips never reach the offline reporter out of order, unknown heights are never asked for |
| Monitor.App.PassOnSkips | src/monitor/skip_reporter.py:92-102 | in-order skips keep the offline state that of the naive windows; nothing but an empty window can fail |
| Monitor.App.PassOnAll | src/monitor/block_fetcher.py:74-77 | every block stored since the last cycle reaches all reporters once and in order |
| Monitor.App.FetchBlocks | src/monitor/main.py:189-196 | blocks fetched up to the oracle's height keep the invariant, even those of a branch begun in an earlier cycle |
| Monitor.App.RunCycle | src/monitor/main.py:189-196 | a cycle asks the contracts once more, keeps the whole invariant and all answers up to the known height, accounts for every fetched block and has its target stored when there was none; afterwards everything up to the block number at its start is known; the only errors that can end it, among which a known block is not, and unlinked blocks only if deep ones are replaced |
| Monitor.App.RunCycles | src/monitor/main.py:180-187 | the same over any number of cycles, with the sum of fetched blocks accounted for and the block number at the start known after one; the run can go on |
| Monitor.Start | src/monitor/main.py:127-170 | from the multi list to a monitor whose invariant holds, with every object new and the block number at the start known; the two list errors exactly in their cases |
| Monitor.StartAndRun | src/monitor/main.py:127-187 | from the multi list through any number of cycles: the invariant holds, and the number of blocks stored or in progress is exactly the sum of what was fetched |
| Guarantees.AnswersAsIfNoneWereDropped | src/monitor/main.py:231-235 | the running monitor's oracle answers every height as if all contracts were asked in all cycles |
| Guarantees.AnswersRespectRanges | src/monitor/main.py:272-291 | the running monitor's oracle never answers from a range entered later, and on static ranges with exactly their lists |
| Guarantees.AnswersFollowContract | src/monitor/main.py:231-235 | at a known height of a contract's range the running monitor's oracle answers with the validators of the last entry listed at or below it, unless that entry lies at or below the enter height and was not listed yet when the first entries were seen; then with the last of those |
| Guarantees.SilentContractDoesNotAnswer | src/monitor/main.py:231-235 | while a contract lists nothing at or below a known height of its range, only an earlier range can answer there |
| Guarantees.MissedHeightsAreAboveInitial | src/monitor/skip_reporter.py:71-112 | every missed proposal's height lies above the initial block |
| Guarantees.IdleValidatorIsReported | src/monitor/main.py:340-346 | completeness: with constant validators above the initial block, one that never proposes has exactly one offline report after a grace period and W / n + 1 rounds |
| Guarantees.IdleValidatorIsReportedBySkips | src/monitor/main.py:340-346 | the same in skips: its report is among those sent up to its (W / n + 1)th reported skip |
| Guarantees.WindowTimesAreBounded | src/monitor/offline_reporter.py:129-166 | at no skip of the running monitor does any validator's window time exceed W + n |
| Guarantees.ReportsAreJustified | src/monitor/main.py:340-346 | soundness: every step in an offline report was missed and was the reported validator's turn according to the oracle |
| Guarantees.StoredEquivocationsAreReported | src/monitor/main.py:340-346 | for any two stored blocks of one proposer and step the running monitor has sent a report that lists exactly all stored blocks of that proposer and step |
| Guarantees.SyncedUpToKnownHeight | src/monitor/main.py:189-213 | after a cycle without new blocks every block from the initial one to the known height has reached the reporters |

## Left out

- RPC transport, retries, waiting for a synced node, sleeping, signals, the command line, watching the chain specification, and writing logs and report files: input and output.
- Recovery of proposers from signatures, RLP encoding and hashing (src/monitor/blocks.py): a block carries its proposer and its hash.
- SQLAlchemy sessions, pickling and restarts: the table is a map and a cycle's commit is atomic. Reports that are written twice because the process ended before a commit are outside the model.
- State of version 1 and its upgrade: the model starts from a fresh state.
- `get_sync_status` and `_save_sync_start`: they only compute a displayed progress.
- The resolvers of src/monitor/blocksel.py: the initial block they resolve to is an input that may differ with each call.
- Shape checks of `validate_validator_definition` beyond the genesis entry and empty lists: entries are parsed already.
- src/report_validator: a thin command line over contract calls.
- Monitor.App.PassOnAll: the callbacks are run after a fetch from the log of calls it made, not inside it. Each entry of the log holds the table of stored blocks of its moment, so every callback gets what it got in the program; only the interleaving with further calls to the node is not modelled.
- Monitor.App.PassOn: all validators to blame for one block are looked up before the first of them is passed to the offline reporter, which differs only when a look-up ends the process.
- OfflineReporter.OfflineReporter.IsOffline: the skip rate is compared as a fraction, without the rounding of floating-point division.
- EquivocationReporter.EquivocationReporter.OnBlock: a report is the set of hashes; the order in which the database lists them is not modelled.
- EpochFetcher.ContractEpochFetcher.FetchNewEpochs: a contract's heights and the validators for each height are read in one call.
- Node.Node: the node serves every block of its tree by hash, also those of abandoned forks; a fork that the node has never had, or has forgotten, is a hash outside the tree and leads to the error for a missing block.
