# Verified model of Hathor consensus

This project models the consensus of the Hathor full node and the smaller algorithms around it, and
proves what they promise for all inputs and all runs. Dafny checks everything:
`dafny verify dfyconfig.toml`.

## What is modelled

Hathor keeps one growing DAG. Transactions and blocks point back in time to their parents and to what
they spend. Consensus decides which of them are executed. It stores its decisions incrementally and
finds what to update by walks that prune; the model shows that these walks agree with plain global
definitions.

- `Graph`, `Traversal`: reachability in the DAG and the timestamp-ordered walk with pruning.
- `Ledger`, `Voidance`: what `voided_by` has to say, and pushing a hash to the right and taking it back.
- `Confirmation`: the full DAG, with the edges from blocks to what they confirm, against the bare one along
  which voidance spreads.
- `TransactionConsensus`, `Arrival`, `Settlement`, `TransactionLedger`: accumulated weights, conflicts,
  arrivals. The class `TransactionLedger` is the state machine; every operation keeps its invariant:
  `voided_by` is exactly the self-voided vertices among a vertex and its ancestors, `conflict_with` is
  exactly the pairs that share an input, every voided transaction with conflicts carries its own hash,
  one of each conflicting pair is voided, and everything a block confirms is executed.
- `BlockTree`, `BlockScore`, `BlockConsensus`, `NanoRoots`, `BlockLedger`: chains, scores, first blocks,
  reorgs and state roots. The class `BlockLedger` is the state machine; its invariant makes valid
  blocks, tips, scores, `first_block` and roots exact in every reachable state.
- `NodeLedger`: both together. Blocks that leave or join the best chain push or take back their hash, and
  the class `Node` keeps the two ledgers in agreement over whole runs.
- `NanoExecution`, `NanoChain`: the status and voidance of the nano contract calls of one block, and the
  replay of a block from the root of its parent.
- `MarkerFilters`: soft-void, execution-fail and consensus-fail markers, and what is inherited past the filters.
- `Mempool`, `VertexRemoval`: finding and removing what a reorg made invalid.
- `TopologicalSort`, `FillerSlots`, `FillerSteps`, `Filler`: the DAG builder.
- `EventQueue`: event ids and groups, with restarts and the load phase.
- `Rewards`, `DifficultyWindow`, `CompactTarget`: rewards, the block window behind a weight, targets.
- `FeatureSettings`, `FeatureStates`, `BitSignaling`: signal bits.
- `DatabaseFile`: the export file.
- `Wrappers`: options and lists without repetition.

## How the code is represented

- Timestamps strictly increase along every edge, as verification demands. `weight_to_work` is a
  positive natural per vertex. The work of execution is a function: of the parent root and the block
  for roots, of the step, the state and the call for one block.
- A walk is evaluated before its visits are acted on. This changes nothing, because no visit changes
  an edge or the pruning answer of a vertex that is still to come.
- `conflict_with`, parents and inputs are sets where the source keeps lists without repetition; the
  tips cache is a list.
- A method result `ok` is false where the source raises or asserts, and in the consensus also where it
  would go on to void a block: when a push reaches one, because a confirmed transaction is voided.
  The condition is exact for a requested check, for a block that leaves the best chain, and for a
  newcomer whose parents and inputs are executed. Accumulated weights count the confirming blocks, so a
  confirmed transaction falls only to a rival of at least its weight with all that work.
- Voidance spreads along the DAG without the edges that leave blocks, weights along the full DAG.
  Since every confirmed transaction is executed, a walk from a voided transaction meets no block and
  both agree there.
- The checks of conflicts that a push or a removal asks for are collected and run after it, as separate
  steps of the state machine. The invariant holds between any two steps, in any order of checks.
- Weights of voided descendants are refreshed after a push instead of during it.

## Where the code does not do what one might expect

- Pushing the hash of a block through several spenders trips the assertion in
  `hathor/consensus/transaction_consensus.py:493` when two spenders share a descendant;
  `AddBlockVoidedBy` gives the exact condition.
- The mempool clean-up removes more than the invalid transactions below the tips: a voided transaction
  beside them goes too if it breaks a rule. `OnlyBelowTips` says exactly when it does not happen.
- The description of the settings check says a bit is reused only after the timeout of the feature that
  had it. A feature that is locked in keeps signaling until its minimum activation height, so two
  accepted features can signal one bit together; `DistinctBitsExactly` gives the exact condition.
- A soft-voided vertex that also failed its execution would leak the soft-void marker to its children.
  It cannot arise, because a voided call is never run; `Consistent` in `MarkerFilters` carries this.
- Nano contract calls end in the asserted shapes for every runner only in a funds-topological order.
- Removing vertices leaves child entries in storage, under the hash of a removed vertex, exactly when one
  removed vertex is the parent of another (`EntriesLeft`). When such a parent is stored again it has
  a child that does not exist; `RemoveAndStoreAgain` gives the exact condition and
  `RemovedParentComesBack` an input.
- An event manager that is stopped and started again without a new process, on a node that must reload,
  keeps its old last event and from then on every event is refused: `Start`, `HandleEvent` and
  `StartTwiceWhileLoading`.

## Model

| member | source | states |
|---|---|---|
| `Traversal.WalkFrom` | hathor/transaction/storage/traversal.py:144-156 | the heap loop, which forgets a vertex when it pops it, still queues no vertex twice; visits come in timestamp order, stay inside every closed set and follow all unpruned neighbours |
| `Traversal.WalkWithin` | hathor/transaction/storage/traversal.py:130-156 | a walk that visits its roots ends with a set closed under unpruned neighbours, each vertex once and in timestamp order |
| `Traversal.WalkSkippingRoots` | hathor/transaction/storage/traversal.py:130-156 | a walk from several skipped roots: whatever the order of the roots, the neighbours of every root and of every unpruned visit are visited or are roots |
| `Traversal.Walk` | hathor/transaction/storage/traversal.py:159-192 | a pruned walk visits exactly the vertices that a path from a root reaches without leaving a pruned vertex |
| `Voidance.SumWork` | hathor/transaction/base_transaction.py:703-752 | the running sum over the walk is the work of all visited vertices, or, with a stop value, stops above that value and not above the full sum |
| `Voidance.AccumulatedWeight` | hathor/transaction/base_transaction.py:703-752 | the accumulated weight is the work of the vertex and of everything to its right in the given DAG, confirming blocks included when that is the full one; with a stop value the comparison against that value is still the true one |
| `Voidance.AddVoidedBy` | hathor/consensus/transaction_consensus.py:457-511 | pushing a hash adds it on exactly the descendants, every descendant with conflicts also voids itself, the assertion on line 493 holds if and only if no descendant carried the hash, and the conflicts of exactly the demoted transactions are handed back |
| `Voidance.VoidInside` | hathor/consensus/transaction_consensus.py:500-505 | the nested `mark_as_voided` of a visited descendant only adds its own hash to its own descendants and keeps the outer push on track |
| `Voidance.PrunedWalkMissesNothing` | hathor/consensus/transaction_consensus.py:389-395 | a walk that stops at vertices already free of a hash still reaches every vertex that carries it |
| `Voidance.RemoveVoidedBy` | hathor/consensus/transaction_consensus.py:371-411 | removing a hash clears it from all descendants although the walk prunes, changes no other hash, and asks for a check of exactly the vertices left voided by themselves alone |
| `Voidance.AddBlockVoidedBy` | hathor/consensus/block_consensus.py:711-739 | voiding a block pushes its hash through all spenders; the pushes succeed if and only if every spender is already covered or shares no descendant with the earlier ones |
| `Voidance.SharedDescendant` | hathor/consensus/transaction_consensus.py:493 | the assertion is reachable: two spenders of one block with a common descendant |
| `Voidance.DemotedByExactly` | hathor/consensus/block_consensus.py:711-739 | the conflicts handed back when a block is voided are those of exactly the executed transactions that come after a spender of it other than themselves |
| `Voidance.RemoveBlockVoidedBy` | hathor/consensus/block_consensus.py:741-770 | un-voiding a block removes its hash from every vertex of the ledger although each walk prunes at what an earlier spender cleared, and asks for exactly the checks one unpruned removal would ask for |
| `Ledger.ExactAfterPush` | hathor/consensus/transaction_consensus.py:457-511 | after a push `voided_by` is again exactly the self-voided vertices among a vertex and its ancestors |
| `Ledger.ExactAfterClear` | hathor/consensus/transaction_consensus.py:371-411 | after a removal `voided_by` is again exactly the self-voided vertices among a vertex and its ancestors |
| `TransactionConsensus.NeverBothExecuted` | hathor/consensus/transaction_consensus.py:288-297 | no two conflicting transactions are both executed |
| `TransactionConsensus.Reweigh` | hathor/consensus/transaction_consensus.py:503-505 | after a transaction is voided the stored weight of each of its descendants with conflicts is the true accumulated weight in the full DAG |
| `TransactionConsensus.MarkAsVoided` | hathor/consensus/transaction_consensus.py:413-423 | a transaction with conflicts gets its own hash on all descendants, and stored weights stay exact where they have to be |
| `TransactionConsensus.MarkAllAsVoided` | hathor/consensus/transaction_consensus.py:350-353 | voiding a list of rivals one after the other voids exactly the union of what each would void and asks for the conflicts of what fell; only for members of the list themselves does the order matter |
| `TransactionConsensus.ContestExecuted` | hathor/consensus/transaction_consensus.py:334-348 | the comparison with executed rivals, on weights refreshed only as far as needed, decides as the true weights do; a tie is a tie with an executed rival |
| `TransactionConsensus.Outweighed` | hathor/consensus/transaction_consensus.py:322-332 | whether a rival in a list has a larger stored weight |
| `TransactionConsensus.Contest` | hathor/consensus/transaction_consensus.py:308-348 | lost, tied or won, stated on true accumulated weights of executed rivals and of rivals voided by themselves only |
| `TransactionConsensus.NoRivalIsAncestor` | hathor/consensus/transaction_consensus.py:299-357 | a transaction that is not outweighed never descends from a rival, so voiding the rivals cannot void it |
| `TransactionConsensus.CheckConflicts` | hathor/consensus/transaction_consensus.py:299-357 | nothing changes unless the transaction is voided by itself alone and is not outweighed; otherwise every rival becomes self-voided and the transaction is executed, or stays voided on a tie, and the requested checks are those of what fell and of what was freed; refused exactly when a confirmed transaction would be voided; the ledger invariants are kept |
| `TransactionConsensus.Prevail` | hathor/consensus/transaction_consensus.py:350-357 | all rivals void themselves and, without a tie, exactly the own hash of the winner disappears |
| `TransactionConsensus.OverturnsChallenged` | hathor/consensus/transaction_consensus.py:488-491 | a check would void a confirmed transaction only if that has a rival of at least its weight |
| `TransactionConsensus.VoidRivals` | hathor/consensus/transaction_consensus.py:350-353 | all rivals are voided and the contender is untouched |
| `TransactionConsensus.MarkAsWinner` | hathor/consensus/transaction_consensus.py:359-369 | the winner is executed, only its own hash disappears, and exactly what it leaves voided by itself alone is checked again |
| `Arrival.MarkInputsAsUsed` | hathor/consensus/transaction_consensus.py:62-106 | `spent_outputs` holds exactly who spends each output and `conflict_with` exactly the pairs that share an input |
| `Arrival.ConflictsSymmetric` | hathor/consensus/transaction_consensus.py:89-106 | `conflict_with` is symmetric and never reflexive |
| `Arrival.ExactAfterArrival` | hathor/consensus/transaction_consensus.py:176-226 | the union of what parents and inputs carry, plus the own hash, is exactly the self-voided ancestors of the newcomer |
| `Confirmation.MeetsBlock` | hathor/consensus/transaction_consensus.py:482-491 | a walk to the right meets a block exactly when a block comes after the vertex |
| `Confirmation.UnconfirmedReaches` | hathor/transaction/base_transaction.py:730-748 | from a vertex that no block confirms, the walk over blocks and transactions reaches nothing more than the walk over transactions |
| `Confirmation.AnchoredGrown` | hathor/consensus/transaction_consensus.py:488-491 | no block is reached by a push as long as nothing confirmed comes after what is newly voided |
| `Arrival.AnchoredAfterTx` | hathor/consensus/transaction_consensus.py:176-226 | a newcomer leaves every confirmed transaction executed |
| `Arrival.AnchoredAfterBlock` | hathor/consensus/block_consensus.py:422-456 | a block that points to blocks and executed transactions confirms executed transactions only, through any path |
| `Arrival.UnionOf` | hathor/consensus/transaction_consensus.py:184-203 | the inherited set is the union over all dependencies |
| `Arrival.AddWork` | hathor/consensus/transaction_consensus.py:206-214 | the newcomer adds its work to exactly the transactions that void it |
| `Arrival.WeightsAfterArrival` | hathor/consensus/transaction_consensus.py:206-214 | a new leaf raises the accumulated weight of exactly its ancestors, by its own work |
| `Settlement.CheckAll` | hathor/consensus/transaction_consensus.py:233-243 | the voiders are checked one after the other, each in the state the one before it left, with the outcome and the requested checks of each; it stops exactly before a confirmed transaction would be voided |
| `Settlement.CheckVoiders` | hathor/consensus/transaction_consensus.py:233-243 | exactly the transactions that void the newcomer are checked; with a single one it is refused exactly when its contest would void a confirmed transaction |
| `Settlement.PastStays` | hathor/consensus/transaction_consensus.py:299-357 | a check changes nothing in the past of the transaction it is about |
| `Settlement.SoleVoiderDecided` | hathor/consensus/transaction_consensus.py:233-262 | when one transaction alone voids all the newcomer points to and no rival outweighs it, with the work of the newcomer counted, it is executed afterwards, or stays voided on a tie, and every rival carries its own hash |
| `Settlement.MarkVoidedRivals` | hathor/consensus/transaction_consensus.py:245-255 | exactly what marking the voided rivals voids becomes self-voided, nobody else changes between executed and voided, no check is asked for, and afterwards every voided transaction with conflicts carries its own hash |
| `Settlement.MarkRivalIfVoided` | hathor/consensus/transaction_consensus.py:245-255 | a voided rival is never confirmed, so the branch for voided rivals with a first block is not taken |
| `Settlement.Settle` | hathor/consensus/transaction_consensus.py:233-262 | the whole course: the checks of all voiders, the marking of voided rivals, the check of the newcomer, and exactly the checks these ask for; it fails only if a confirmed transaction has a rival of at least its weight, and exactly if its own contest would void a confirmed one when it inherits nothing from transactions |
| `Settlement.CheckOwn` | hathor/consensus/transaction_consensus.py:257-262 | the newcomer is voided by itself alone afterwards only if a rival outweighs it or no rival is executed |
| `Settlement.StandingAfterOneMark` | hathor/consensus/transaction_consensus.py:245-255 | marking voided rivals changes nobody else between executed, voided by itself alone and voided by others |
| `Settlement.VoidedAbove` | hathor/consensus/transaction_consensus.py:206-214 | a voided transaction has no path to the newcomer through a block, so adding the work of the newcomer to what voids it keeps weights in the full DAG exact |
| `TransactionLedger.Inherit` | hathor/consensus/transaction_consensus.py:176-231 | the newcomer inherits exactly; weights of what voids it are raised |
| `TransactionLedger.TransactionArrived` | hathor/consensus/transaction_consensus.py:62-262 | a whole arrival keeps exact voidance, exact conflicts, exact weights, one self-voided transaction in each conflicting pair and confirmed transactions executed, and follows the course of the checks; refused only if a confirmed transaction has a rival of at least its weight, exactly when everything it points to is executed, or is voided by one transaction alone and the newcomer has no rivals |
| `TransactionLedger.VoiderIsDecided` | hathor/consensus/transaction_consensus.py:206-262 | what the arrival decides about a transaction that alone voids all the newcomer points to |
| `TransactionLedger.BlockArrived` | hathor/consensus/block_consensus.py:371-420 | an arriving block adds its work to everything it comes after and keeps the same invariants |
| `TransactionLedger.BlockWeights` | hathor/consensus/block_consensus.py:437-443 | its work changes no weight that has to be exact, since nothing voided comes before it |
| `TransactionLedger.BlockVoided` | hathor/consensus/block_consensus.py:711-739 | voiding a block keeps the invariants exactly when its pushes do not collide and no spender of it is confirmed |
| `TransactionLedger.BlockUnvoided` | hathor/consensus/block_consensus.py:741-770 | un-voiding a block keeps the invariants and clears its hash everywhere |
| `TransactionLedger.TransactionRechecked` | hathor/consensus/transaction_consensus.py:299-357 | a check at any later moment keeps the invariants, and is refused exactly when it would void a confirmed transaction |
| `TransactionLedger.ConfirmedIsExecuted` | hathor/consensus/transaction_consensus.py:488-491 | whatever any block comes after is executed |
| `TransactionLedger.ConfirmedPrevails` | hathor/transaction/base_transaction.py:703-752 | a double spend that weighs less than a transaction together with one block that confirms it loses |
| `TransactionLedger.TransactionLedger.constructor` | hathor/consensus/transaction_consensus.py:33-39 | the empty ledger satisfies the invariants |
| `TransactionLedger.TransactionLedger.NewTransaction` | hathor/consensus/transaction_consensus.py:48-262 | every run: the invariants hold after any arrival, the new state and the waiting checks are those of the course of the checks, and a transaction that alone voids all the newcomer points to is decided; refused, with nothing changed, only when a confirmed transaction has a rival of at least its weight, with the exact condition when everything it points to is executed |
| `TransactionLedger.TransactionLedger.NewBlock` | hathor/consensus/block_consensus.py:371-420 | every run: the invariants hold after a block arrives, on or off the best chain, with the transactions it confirms |
| `TransactionLedger.TransactionLedger.Recheck` | hathor/consensus/transaction_consensus.py:299-357 | every run: the invariants hold after a requested check; the new state and the waiting checks are exactly those of the check, on true weights with confirming blocks; refused exactly when it would void a confirmed transaction |
| `TransactionLedger.TransactionLedger.VoidBlock` | hathor/consensus/block_consensus.py:702-739 | every run: voiding succeeds exactly when the spenders are separate and none is confirmed, and then exactly the descendants carry the hash, exactly those with conflicts void themselves, and the conflicts of exactly the demoted transactions wait to be checked |
| `TransactionLedger.TransactionLedger.UnvoidBlock` | hathor/consensus/block_consensus.py:741-770 | every run: the hash is gone everywhere, every other hash stays, and exactly the vertices left voided by themselves alone wait to be checked |
| `BlockTree.ScoreStep` | hathor/consensus/block_consensus.py:800-862 | the plain score of a chain is its parent's score plus the block and the transactions it confirms first |
| `BlockTree.BlockGrown` | hathor/consensus/block_consensus.py:864-882 | chain, confirmed transactions and score of a block never change while the ledger grows, so a stored score stays right |
| `BlockScore.WalkPast` | hathor/consensus/block_consensus.py:822-841 | the walk to the left from one transaction parent stays among blocks and the transactions the block reaches, and follows everything that is not pruned |
| `BlockScore.Tally` | hathor/consensus/block_consensus.py:824-847 | the visited transactions are counted once each, and marked with the block when asked; the `first_block is None` assertion holds for each of them |
| `BlockScore.CountParents` | hathor/consensus/block_consensus.py:811-847 | over all transaction parents exactly the transactions first confirmed by the block are counted and marked |
| `BlockScore.KnownIsPast` | hathor/consensus/block_consensus.py:835-841 | pruning by the timestamp of `first_block` prunes exactly what the chain below already confirmed |
| `BlockScore.ScoreBlockDfs` | hathor/consensus/block_consensus.py:800-862 | the incremental score equals the work of all distinct blocks of the chain plus all transactions they confirm, and with marking `first_block` becomes exact for the new tip |
| `BlockScore.FirstExactNext` | hathor/consensus/block_consensus.py:842-845 | marking the newly confirmed transactions extends exact `first_block` to the next block |
| `BlockConsensus.RemoveFirstBlockMarkers` | hathor/consensus/block_consensus.py:772-798 | the pruned removal takes the marker away from every transaction that has it and from no other |
| `BlockConsensus.FirstExactBefore` | hathor/consensus/block_consensus.py:772-798 | removing the markers of the tip makes `first_block` exact for its parent |
| `BlockConsensus.VoidDownTo` | hathor/consensus/block_consensus.py:606-622 | walking down from a head voids exactly the valid blocks above the fork and moves the valid chain down to it |
| `BlockConsensus.AddVoidedByToMultipleChains` | hathor/consensus/block_consensus.py:606-622 | over all heads the valid chain ends exactly at the fork block |
| `BlockConsensus.RemoveVoidedByFromChain` | hathor/consensus/block_consensus.py:665-675 | un-voiding goes down to the first valid block and makes exactly the chain of the winner valid |
| `BlockConsensus.FindFirstParentInBestChain` | hathor/consensus/block_consensus.py:677-700 | the nearest valid ancestor is found; the genesis is never passed |
| `BlockConsensus.AtMostOneValidHead` | hathor/consensus/block_consensus.py:505-514 | the assertion that at most one head is valid |
| `BlockConsensus.CalculateScore` | hathor/consensus/block_consensus.py:864-882 | the score computed from the nearest valid ancestor is the plain score |
| `BlockConsensus.ExtendBest` | hathor/consensus/block_consensus.py:458-471 | a block alone on the valid head becomes the single best block |
| `BlockConsensus.ResolveBlock` | hathor/consensus/block_consensus.py:472-563 | for a lower, equal or higher score: valid blocks, tips, scores and `first_block` are again exactly those of the best heads, and a reported reorg starts at the newest block that the new chain shares with the valid one, with a single old head with the old best chain |
| `BlockConsensus.ForkOfNew` | hathor/consensus/block_consensus.py:517-563 | the nearest valid ancestor of a new block is the newest block it shares with the valid chain |
| `BlockConsensus.ForkUnique` | hathor/consensus/block_consensus.py:517-563 | which is unique |
| `BlockConsensus.BlockWins` | hathor/consensus/block_consensus.py:520-535 | a strictly higher score leaves one head and one valid chain |
| `BlockConsensus.BlockLoses` | hathor/consensus/block_consensus.py:500-502 | a lower score changes only the new block |
| `BlockConsensus.BlockTies` | hathor/consensus/block_consensus.py:536-543 | on a tie the valid chain ends at the common ancestor of all heads including the new one |
| `BlockConsensus.CommonWithTie` | hathor/consensus/block_consensus.py:606-622 | that end is the lowest common ancestor |
| `NanoRoots.PathToCommon` | hathor/consensus/block_consensus.py:113-126 | on a reorg the blocks to execute are exactly the path above the common block, and their old roots are reset |
| `NanoRoots.PathToRoot` | hathor/consensus/block_consensus.py:127-139 | otherwise exactly the blocks without a root, down to the last one that has one |
| `NanoRoots.ExecutePath` | hathor/consensus/block_consensus.py:141-142 | executing the path oldest first never meets a missing parent root |
| `NanoRoots.ExecuteNanoContracts` | hathor/consensus/block_consensus.py:97-142 | afterwards every valid block's root is the fold of executions along its chain from the empty root |
| `NanoChain.ExecuteBlock` | hathor/consensus/block_consensus.py:221-327 | running the calls of a block gives the state that the fold over its calls defines |
| `NanoChain.RootStep` | hathor/consensus/block_consensus.py:97-142 | a valid block and its parent have roots one execution apart |
| `NanoChain.Replay` | hathor/consensus/block_consensus.py:97-190 | every run: running the calls of a valid block again, from the root of its parent, gives the root it has |
| `NanoRoots.RootsGrown` | hathor/consensus/block_consensus.py:169-190 | roots of old blocks stay right while the ledger grows |
| `BlockLedger.BlockArrived` | hathor/consensus/block_consensus.py:371-563 | one block arrival keeps best chain, scores, first blocks and roots exact, and reports a reorg from the newest block that was valid in the chain of the new one |
| `BlockLedger.TxArrives` | hathor/consensus/block_consensus.py:371-420 | a transaction arrival changes nothing that blocks rely on |
| `BlockLedger.BlockLedger.constructor` | hathor/consensus/block_consensus.py:422-427 | the genesis ledger satisfies the invariant |
| `BlockLedger.BlockLedger.NewTransaction` | hathor/consensus/transaction_consensus.py:48-60 | every run: the block invariant survives transactions |
| `BlockLedger.BlockLedger.NewBlock` | hathor/consensus/block_consensus.py:422-563 | every run: the block is stored, the block invariant survives, the height tip is the old block or the new one as the only tip, and every change of branch is reported from the newest block of the new chain that was valid |
| `BlockLedger.BestChain` | hathor/consensus/block_consensus.py:371-420 | valid blocks are exactly what the chains of all best-scored blocks share, the tips are exactly those blocks, at most one is valid |
| `BlockLedger.FirstBlockIsEarliest` | hathor/consensus/block_consensus.py:835-845 | `first_block` is the earliest valid block that reaches the transaction through transactions, or absent when none does |
| `NodeLedger.Node.constructor` | hathor/consensus/block_consensus.py:422-427 | the node holds the genesis block only and the two ledgers agree |
| `NodeLedger.Node.NewTransaction` | hathor/consensus/transaction_consensus.py:48-262 | every run: the transaction is stored in both ledgers, which keep their invariants and agree on every block and every edge, and what alone voids all it points to is decided; refused, with nothing changed, only when a confirmed transaction has a rival of at least its weight, and exactly so when everything it points to is executed |
| `NodeLedger.Node.NewBlock` | hathor/consensus/block_consensus.py:371-563 | every run: the block is stored in both ledgers with its edges and work, the best chain is exact, the best block and the reported reorg are those of the block ledger, and, unless a newly voided block is stuck, exactly the blocks off the chain void themselves and exactly the transactions with conflicts after a newly voided block start to |
| `NodeLedger.Node.FollowChain` | hathor/consensus/block_consensus.py:606-675 | blocks that left the chain push their hash, blocks that joined it take theirs back, and the transactions that carry their own hash afterwards are exactly known |
| `NodeLedger.Node.VoidAll` | hathor/consensus/block_consensus.py:606-622 | each block that left the best chain pushes its hash and exactly the transactions with conflicts after one of them void themselves; fails only where pushes collide or a spender is confirmed |
| `NodeLedger.Node.UnvoidAll` | hathor/consensus/block_consensus.py:665-675 | each block that joined the best chain takes its hash back, no other hash goes, and exactly the transactions left voided by themselves alone wait to be checked |
| `NodeLedger.Node.Recheck` | hathor/consensus/transaction_consensus.py:299-357 | every run: a check keeps the agreement, has exactly the outcome of the check, and is refused exactly when it would void a confirmed transaction |
| `NodeLedger.Node.ConfirmedIsExecuted` | hathor/consensus/transaction_consensus.py:488-491 | in every reachable state whatever any block comes after is executed |
| `NodeLedger.Node.FirstBlockMeansExecuted` | hathor/consensus/transaction_consensus.py:245-255 | in every reachable state a transaction with a first block is executed |
| `NodeLedger.Node.NoDoubleSpend` | hathor/consensus/transaction_consensus.py:288-297 | in every reachable state no output is spent by two executed transactions |
| `NodeLedger.Node.ExecutedOnBestChain` | hathor/consensus/consensus.py:55-57 | in every reachable state the blocks an executed transaction descends from are on the chain of every best-scored block |
| `NodeLedger.VoidanceInherited` | hathor/consensus/consensus.py:59-61 | the `voided_by` of a vertex is a subset of that of everything that verifies or spends it |
| `NodeLedger.Node.SelfVoidedHasConflict` | hathor/consensus/consensus.py:60-61 | a transaction carries its own hash only if it has conflicts |
| `NodeLedger.BlockHashesExactly` | hathor/consensus/consensus.py:63-64 | a block hash is in `voided_by` exactly when that block is off the best chain and the transaction descends from it |
| `NodeLedger.ExecutedExactly` | hathor/consensus/consensus.py:47-57 | a transaction is executed exactly when no ancestor transaction voids itself and no ancestor block is off the best chain |
| `NanoExecution.ExecuteCalls` | hathor/consensus/block_consensus.py:221-327 | every call ends with the asserted shape of `voided_by` exactly when no call that was run has a failed call on its left; a funds-topological order guarantees it for every runner; the state is the fold of the successful and skipped calls |
| `NanoExecution.UnsortedBreaksShape` | hathor/consensus/block_consensus.py:219-327 | for any other order there is a runner that breaks the final assertion |
| `NanoExecution.FoldedIs` | hathor/consensus/block_consensus.py:221-327 | statuses, failures and final state are a function of the calls, of which were voided beforehand, of the runner and of the state before |
| `NanoExecution.ProgressFail` | hathor/consensus/block_consensus.py:359-369 | a failing call adds its hash to exactly what spends from it |
| `NanoExecution.VoidedAtTurn` | hathor/consensus/block_consensus.py:225-240 | a call is skipped exactly when it was voided beforehand or spends from an earlier failure |
| `MarkerFilters.FilterFailed` | hathor/consensus/consensus.py:252-276 | exactly the marks that are not about failed executions pass; it fails exactly when the execution-fail marker stands without the own hash or the consensus-fail marker is there |
| `MarkerFilters.FilterSoft` | hathor/consensus/consensus.py:227-250 | without soft-voided hashes all pass; otherwise exactly the hashes of other vertices that are neither soft-voided nor voided by a soft-voided one |
| `MarkerFilters.FromParentIsClean` | hathor/consensus/transaction_consensus.py:184-193 | in a consistent state nothing inherited through a parent is a marker or a soft-voided id |
| `MarkerFilters.FromParentExactly` | hathor/consensus/consensus.py:220-276 | a child is voided by exactly those vertices that void its parent and did not fail, and, when something soft-voided voids the parent, are neither the parent, nor soft-voided, nor voided by something soft-voided |
| `MarkerFilters.OrdinaryLoserPasses` | hathor/consensus/consensus.py:245-249 | the loser of an ordinary conflict passes both filters whatever else voids the parent |
| `MarkerFilters.NothingFiltered` | hathor/consensus/consensus.py:220-276 | without soft-voided and failed vertices a child carries all the hashes of its parent |
| `MarkerFilters.SoftMarkerLeaks` | hathor/consensus/consensus.py:220-250 | the exact condition under which the soft-void marker would pass both filters |
| `MarkerFilters.BothMarkersLeak` | hathor/consensus/consensus.py:220-250 | a vertex that is soft-voided and failed would leak it |
| `MarkerFilters.FromParents` | hathor/consensus/transaction_consensus.py:184-193 | the union over parents of what both filters let pass |
| `MarkerFilters.Inherit` | hathor/consensus/transaction_consensus.py:184-204 | what is inherited, exactly; all four assertions hold |
| `MarkerFilters.MarkLedger.Arrive` | hathor/consensus/transaction_consensus.py:184-226 | every run: the marks stay consistent, the arrival assertions hold, and the hashes of the new vertex are exactly those its parents pass on and its inputs carry |
| `MarkerFilters.MarkLedger.AddHash` | hathor/consensus/transaction_consensus.py:494-500 | every run: consistent after a push |
| `MarkerFilters.MarkLedger.RemoveHash` | hathor/consensus/transaction_consensus.py:359-393 | every run: consistent after a removal |
| `MarkerFilters.MarkLedger.FailExecution` | hathor/consensus/block_consensus.py:359-369 | every run: consistent after a failed execution |
| `MarkerFilters.MarkLedger.ClearFailure` | hathor/consensus/block_consensus.py:198-213 | every run: consistent after a reorg takes a failure back |
| `Mempool.MempoolOrigin` | hathor/consensus/consensus.py:340-357 | the pruned walk to the left finds exactly the confirmed transactions that mempool transactions at or below the tips point to |
| `Mempool.LeftmostInvalid` | hathor/consensus/consensus.py:367-383 | pruning at rule breakers loses nothing: what is right of the found ones is what is right of all rule breakers right of the origin |
| `Mempool.MetOrRightOfBad` | hathor/consensus/consensus.py:367-383 | going right from the origin every vertex is visited or is right of a visited rule breaker |
| `Mempool.ComputeInvalid` | hathor/consensus/consensus.py:329-394 | the three walks return exactly the rule breakers right of the origin with everything to their right, newest first |
| `Mempool.DescendantsFirst` | hathor/consensus/consensus.py:385-394 | in the returned order descendants come before ancestors |
| `Mempool.NothingMissed` | hathor/consensus/consensus.py:344-346 | every rule breaker at or below the tips is returned, with everything to its right |
| `Mempool.OnlyBelowTips` | hathor/consensus/consensus.py:329-394 | nothing else is returned, for every set of rules, if and only if each mempool transaction right of the origin is at or below a tip |
| `Mempool.BesideTheTips` | hathor/consensus/consensus.py:329-394 | a ledger where it is not |
| `Mempool.RemovableIsClosed` | hathor/consensus/consensus.py:385-394 | the returned set is closed under children and spenders |
| `VertexRemoval.VertexStore.AddVertex` | hathor/transaction/base_transaction.py:765-771 | a stored vertex is named by its parents and by what it spends; all references agree afterwards exactly when no child entry was left under its hash |
| `VertexRemoval.LinkedAfterAdding` | hathor/transaction/base_transaction.py:765-771 | the same on values |
| `VertexRemoval.VertexStore.RemoveTransactions` | hathor/consensus/consensus.py:278-327 | refuses exactly when a child or spender would stay; otherwise the vertices are gone, parents, inputs, children and spent outputs of all remaining vertices agree, and the child entry left under a removed hash is exactly its removed children |
| `VertexRemoval.EntriesLeft` | hathor/consensus/consensus.py:284-295 | a removal leaves a child entry naming a removed vertex if and only if a removed vertex is a parent of another |
| `VertexRemoval.RemoveAndStoreAgain` | hathor/consensus/consensus.py:278-327 | a removed vertex that is stored again fits in exactly when no child of it was removed with it |
| `VertexRemoval.RemovedParentComesBack` | hathor/consensus/consensus.py:278-327 | three vertices in a row: the later two are removed, the middle one comes back with a child that does not exist |
| `VertexRemoval.StillLinked` | hathor/consensus/consensus.py:284-295 | removing a right-closed set leaves no dangling reference at the remaining vertices |
| `VertexRemoval.SearchLeavesNoGap` | hathor/consensus/consensus.py:304-313 | what the search returns never triggers the gap error |
| `VertexRemoval.CleanMempool` | hathor/consensus/consensus.py:149-163 | search and removal together always succeed, leave the remaining vertices linked, and leave under each removed hash exactly its removed children |
| `TopologicalSort.Prepare` | hathor/dag_builder/builder.py:312-324 | direct and reverse dependencies agree, and the candidates are the nodes without dependencies |
| `TopologicalSort.Release` | hathor/dag_builder/builder.py:337-344 | finishing a node unblocks exactly the nodes that waited for it last |
| `TopologicalSort.Sort` | hathor/dag_builder/builder.py:310-346 | yields nodes after their parents, the nodes they spend from and the nodes they name; all of them exactly when some ranking puts every node above these, and the cycle error in every other case |
| `TopologicalSort.RanksAre` | hathor/dag_builder/builder.py:312-324 | dependencies are acyclic and known exactly when such a ranking exists |
| `TopologicalSort.NoRank` | hathor/dag_builder/builder.py:327-336 | when no candidate is left no ordering exists |
| `TopologicalSort.OrderIsRank` | hathor/dag_builder/builder.py:310-346 | a complete order proves the dependencies acyclic |
| `FillerSlots.NextIndex` | hathor/dag_builder/default_filler.py:57-66 | the first free slot, or a new one |
| `FillerSlots.AddOutput` | hathor/dag_builder/default_filler.py:89-105 | no filled slot is overwritten and every sum grows by the new output |
| `FillerSlots.FindTxIn` | hathor/dag_builder/default_filler.py:89-105 | a fresh output of the issuing node, touching only that node |
| `FillerSlots.CalculateBalance` | hathor/dag_builder/default_filler.py:107-129 | outputs minus inputs for every token, and fails exactly on an empty slot |
| `FillerSteps.BalanceToken` | hathor/dag_builder/default_filler.py:135-143 | one token is brought to its target, no other token moves, and the issuer gives exactly what was missing |
| `FillerSteps.BalanceNode` | hathor/dag_builder/default_filler.py:131-143 | afterwards the balance of every token is the declared one, and every issuer gave exactly what was missing |
| `FillerSlots.BalanceGrown` | hathor/dag_builder/default_filler.py:131-143 | later allocations never change the balance of a finished node |
| `Filler.FillSlots` | hathor/dag_builder/default_filler.py:151-167 | empty slots get one unit, set outputs stay, a node without inputs and outputs gets one output of one native unit unless it is a block; fails exactly on an output of amount zero |
| `FillerSteps.FillBlock` | hathor/dag_builder/default_filler.py:176-218 | the outputs of a block sum to the reward, in a single output when it had none; fails exactly on the listed conditions |
| `FillerSteps.FillToken` | hathor/dag_builder/default_filler.py:238-274 | the native balance of a created token is the declared one minus its deposit; fails exactly on the listed conditions; the dummy gives exactly what was missing |
| `Filler.FillAllSlots` | hathor/dag_builder/default_filler.py:151-167 | every slot of an ordinary node is filled; fails exactly when some output has amount zero |
| `Filler.FillNodes` | hathor/dag_builder/default_filler.py:169-236 | after the second pass all blocks and plain transactions are settled; it cannot fail when every block is within the reward and every spent slot is filled, and then issuers gave exactly what the nodes had to take |
| `Filler.FillTokens` | hathor/dag_builder/default_filler.py:238-274 | after the third pass all tokens have paid and nothing settled has changed; it cannot fail when every token can be paid, and then the dummy gave exactly what the tokens had to take |
| `FillerSteps.CloseDummy` | hathor/dag_builder/default_filler.py:276-289 | the dummy gives back what it took; fails exactly on the two assertions; an unused dummy is removed |
| `Filler.Fill` | hathor/dag_builder/default_filler.py:145-274 | the three loops: what holds of every node afterwards, and, for a description nothing else is wrong with, success and the exact amount the dummy gave |
| `Filler.TokenNeedIs` | hathor/dag_builder/default_filler.py:238-274 | what a token node takes at its turn is known before the pass: from its own slots and what all others draw of its token |
| `Filler.EnoughExactly` | hathor/dag_builder/default_filler.py:276-289 | the dummy can be closed exactly when it gave no more than the genesis amount |
| `Filler.UnitsAndRewards` | hathor/dag_builder/default_filler.py:151-236 | what the first loop gives a node and the second a block is still there at the end |
| `Filler.Run` | hathor/dag_builder/default_filler.py:145-289 | all of the above after the whole pass, and every output that was set keeps its value; a node that had nothing has its native unit and a block that had nothing only its reward; a clean dummy that is kept spends the genesis output and pays out exactly its amount; for a description nothing else is wrong with the pass succeeds if and only if what it needs is not above the genesis amount |
| `Filler.DummyConservesGenesis` | hathor/dag_builder/default_filler.py:276-289 | the dummy after the pass spends the genesis output alone and pays out exactly that amount |
| `EventQueue.IdsConsecutive` | hathor/event/event_manager.py:307-320 | saved event ids are consecutive from zero |
| `EventQueue.OpenFromLast` | hathor/event/event_manager.py:133-139 | the last event alone tells whether a group is open and which |
| `EventQueue.GroupContiguous` | hathor/event/event_manager.py:215-252 | a group is one contiguous segment without an inner start or end |
| `EventQueue.StartIsFirst` | hathor/event/event_manager.py:215-227 | no event of a group precedes its REORG_STARTED |
| `EventQueue.GroupStep` | hathor/event/event_manager.py:215-252 | a group is entered only by REORG_STARTED and left only after REORG_FINISHED |
| `EventQueue.GroupHasStart` | hathor/event/event_manager.py:215-227 | group ids are consecutive: every smaller id has its opening event |
| `EventQueue.EventManager.Start` | hathor/event/event_manager.py:92-116 | reload empties the log; the start is accepted exactly when the last group is closed; an accepted manager agrees with the storage exactly when it did not reload or knew no last event |
| `EventQueue.EventManager.Restart` | hathor/event/event_manager.py:76-90 | a new process finds the log as it was |
| `EventQueue.EventManager.Group` | hathor/event/event_manager.py:200-252 | the group id and the assertions of the three creation methods |
| `EventQueue.EventManager.StartTwiceWhileLoading` | hathor/event/event_manager.py:92-125 | a manager stopped while loading and started again refuses every event from then on |
| `EventQueue.EventManager.HandleEvent` | hathor/event/event_manager.py:188-252 | an event is saved exactly when its group allows it and the manager agrees with the storage; a manager that does not agree refuses it and still does not agree; the log stays well formed either way |
| `EventQueue.EventManager.ChangeNodeState` | hathor/event/event_manager.py:147-165 | the load events and the node state |
| `EventQueue.EventManager.ConsensusUpdate` | hathor/consensus/consensus.py:165-218 | all events of one update are accepted in order; a reorg stands between its start and its end in one new group, anything else in no group |
| `EventQueue.EventManager.LoadVertices` | hathor/event/event_manager.py:334-375 | load-phase events written in batches get the same ids as if written one by one |
| `EventQueue.EventManager.SaveAll` | hathor/event/storage/rocksdb_storage.py:92-99 | a batch is stored completely |
| `Rewards.ShortcutChangesNothing` | hathor/daa.py:220-228 | the maximum-halvings shortcut never changes a reward |
| `Rewards.TierStep` | hathor/daa.py:243-246 | halving with a floor at each step agrees with one division by a power of two |
| `Rewards.SumWithin` | hathor/daa.py:214-228 | inside one period the total grows by the same reward per block |
| `Rewards.MinedTokens` | hathor/daa.py:230-251 | the mined total is the sum of the rewards of all blocks up to the height |
| `DifficultyWindow.BlockDependencies` | hathor/daa.py:78-92 | the parent and the blocks below it, twice the setting and one more, never past the genesis |
| `DifficultyWindow.CollectWindow` | hathor/daa.py:105-126 | the window oldest first, twice the setting and one or as many as there are above the genesis, and what fetching it asks for |
| `DifficultyWindow.DependenciesAreFetched` | hathor/daa.py:78-122 | the listed dependencies are exactly the parent and what the weight calculation fetches |
| `DifficultyWindow.WindowIsSorted` | hathor/daa.py:124-125 | the order assertion holds |
| `DifficultyWindow.Spans` | hathor/daa.py:128-147 | every prefix-sum difference is in range and is a difference of two block timestamps |
| `CompactTarget.ToTarget` | hathor/difficulty.py:120-128 | terminates with exponent at most 32; both assertions hold |
| `CompactTarget.AcceptedBelow` | hathor/difficulty.py:424-429 | accepted exactly below 2^224 |
| `CompactTarget.CompactMonotone` | hathor/difficulty.py:91-128 | larger values have larger or equal targets |
| `CompactTarget.DecodeCompact` | hathor/difficulty.py:437-461 | decoding gives the truncated value |
| `CompactTarget.DecodedBelow` | hathor/difficulty.py:91-128 | which is not above the input |
| `CompactTarget.SmallError` | hathor/difficulty.py:91-128 | with relative error below 2^-16 |
| `CompactTarget.ReencodeStable` | hathor/difficulty.py:91-128 | and encodes to the same target |
| `FeatureSettings.FindOverlap` | hathor/feature_activation/settings.py:110-121 | nothing exactly when all intervals are pairwise apart, otherwise two of them that overlap |
| `FeatureSettings.IntervalsByBit` | hathor/feature_activation/settings.py:98-107 | the intervals of each bit, in order |
| `FeatureSettings.ValidateBits` | hathor/feature_activation/settings.py:71-88 | accepts exactly the settings in which features with one bit have disjoint intervals |
| `FeatureStates.StatePlaced` | hathor/feature_activation/feature_service.py:139-206 | between which boundaries each state can occur, whatever the votes |
| `FeatureStates.SignalsWithin` | hathor/feature_activation/feature_service.py:139-206 | a feature signals only from its start to an explicit last boundary |
| `FeatureStates.VotesDecide` | hathor/feature_activation/feature_service.py:139-206 | between start and timeout a feature that does not lock in by itself is started until an interval reached the threshold, and locked in or active from then on |
| `FeatureStates.FailsExactly` | hathor/feature_activation/feature_service.py:139-206 | it fails at its timeout if and only if no interval before it reached the threshold |
| `FeatureStates.UnanimousRun` | hathor/feature_activation/feature_service.py:139-206 | the states when every block signals, up to and after activation |
| `FeatureStates.DistinctBitsExactly` | hathor/feature_activation/bit_signaling_service.py:164-177 | signaling features have distinct bits at every height and for all votes if and only if each is done signaling before the next with its bit starts |
| `FeatureStates.LateActivationShares` | hathor/feature_activation/bit_signaling_service.py:164-177 | two accepted features that signal one bit together |
| `BitSignaling.BitOfOr` | hathor/feature_activation/bit_signaling_service.py:85-91 | or-ing a bit sets that bit and changes no other |
| `BitSignaling.FewSignaling` | hathor/feature_activation/bit_signaling_service.py:164-177 | with such settings the signaling features number at most the bit count |
| `BitSignaling.ReadsBackExactly` | hathor/feature_activation/bit_signaling_service.py:74-116 | for given signaling features the bits tell who is enabled, whatever is enabled, if and only if no two of them share a bit |
| `BitSignaling.ReadBackExactly` | hathor/feature_activation/bit_signaling_service.py:74-116 | signal bits can be read back at every height of every run if and only if each feature is done signaling before the next with its bit starts |
| `BitSignaling.BitSignalingService.GenerateSignalBits` | hathor/feature_activation/bit_signaling_service.py:74-92 | a bit is set exactly when an enabled signaling feature has it |
| `BitSignaling.BitSignalingService.ReadBack` | hathor/feature_activation/bit_signaling_service.py:74-116 | every signaling feature can be read back from the bits |
| `BitSignaling.BitSignalingService.constructor` | hathor/feature_activation/bit_signaling_service.py:103-111 | supported features are enabled, unsupported ones are not, and the default decides the rest |
| `BitSignaling.BitSignalingService.AddFeatureSupport` | hathor/feature_activation/bit_signaling_service.py:130-133 | the feature is enabled, the others are as before, support and non-support stay disjoint |
| `BitSignaling.BitSignalingService.RemoveFeatureSupport` | hathor/feature_activation/bit_signaling_service.py:135-138 | the feature is disabled, the others are as before, support and non-support stay disjoint |
| `DatabaseFile.Export` | hathor_cli/db_export.py:96-139 | the file is the header, the counts of all visited vertices and the length-prefixed non-genesis records; stops at the wanted height |
| `DatabaseFile.Import` | hathor_cli/db_import.py:47-94 | the reader, with its three error cases |
| `DatabaseFile.ReadWritten` | hathor_cli/db_import.py:75-94 | reading recovers exactly the records that were written |
| `DatabaseFile.ReadMeansWritten` | hathor_cli/db_import.py:75-94 | whatever is read without error is a written file followed by fewer than four bytes |
| `DatabaseFile.BigEndian` | hathor_cli/db_import.py:56-85 | counts and lengths are four bytes, most significant first |
| `DatabaseFile.RecordsAre` | hathor_cli/db_export.py:121-126 | every visited vertex that is not genesis has its bytes at its place among the records |
| `DatabaseFile.BestHeightIsLargest` | hathor_cli/db_export.py:113-117 | the height that stops the export is the largest of a valid block |
| `DatabaseFile.ImportExported` | hathor_cli/db_import.py:47-94 | counts and records come back from an exported file |
| `DatabaseFile.CountsExceedRecords` | hathor_cli/db_export.py:111-124 | the counts exceed the records by the number of genesis vertices |
| `DatabaseFile.ExportThenImport` | hathor_cli/db_import.py:47-94 | export followed by import returns exactly the visited non-genesis vertices, in order |

## Left out

- Termination of the mutual recursion of conflict checks and pushes: the model makes each check a step and claims nothing about how many follow.
- Order of nested checks: the source runs the requested checks right after the walk that asked for them; the model allows them at any later moment.
- Blocks that confirm voided transactions: `update_voided_by_from_parents`, `union_voided_by_from_parents` and the fallback in `update_score_and_mark_as_the_best_chain_if_possible`; a block is voided in the model exactly when it carries its own hash.
- TransactionLedger.TransactionLedger.NewBlock: the confirmed transactions have to be executed, since the code voids a block that confirms a voided one.
- NodeLedger.Node.NewBlock: the same demand; and the order in which blocks leave and join the chain is by set, not by height.
- BlockLedger.BlockArrived: holds for blocks that no transaction voids; `NodeLedger.Node.NewBlock` makes that demand.
- BlockLedger.BlockLedger.NewBlock: the same.
- TransactionLedger.TransactionLedger.VoidBlock: what the code does when a confirmed transaction spends the block: it adds the hash to the confirming block and goes on from there.
- NodeLedger.Node.NewTransaction: what the code does after it voided a confirmed transaction and the blocks above it; for a newcomer below several voided transactions the refusal is bounded by a necessary condition, because it depends on the order of the checks.
- Settlement.MarkRivalIfVoided: the assertions inside the branch for voided rivals with a first block, which is not taken here and serves soft-voided and failed transactions.
- Soft-voided ids and failed executions in the exact voidance invariant: they are covered by `MarkerFilters` and `NanoExecution` only.
- NanoExecution.ExecuteCalls: a call that is voided only by failed calls, so every nested push stays in the funds DAG; clearing failures before re-execution, seeds, sequence numbers, logs and events are not modelled.
- NanoRoots.ExecuteNanoContracts: the execution of one block is a function of the state before it, and nano contracts are always enabled; `NanoChain` ties that function to the calls, for a given voidance before each block.
- Accumulated weights as floating point, twins, indexes other than the height tip, metadata saving.
- VertexRemoval.VertexStore.AddVertex: parents that are not stored, which the code skips.
- VertexRemoval.VertexStore.RemoveTransactions: the validation state and the marker that makes a removed vertex voided; the state after a refused removal.
- Mempool.ComputeInvalid: the four mempool rules are one arbitrary predicate.
- Filler.Run: parents, attributes and node types; a slot that only a spender named counts as empty, also on genesis and dummy nodes; success is characterised for descriptions whose blocks and tokens can be filled, and a slot that becomes filled only during the pass counts as missing there.
- TopologicalSort.Sort: the iteration order of equal candidates is that of the given name list and of set iteration.
- BitSignaling.FewSignaling: a sufficient condition for the count assertion only.
- EventQueue.EventManager.HandleEvent: timestamps, payloads, broadcasting and the stream id.
- Rewards.MinedTokens: settings without halvings; the logarithm in the settings is taken as exact.
- DifficultyWindow.Spans: the weight formula itself, which is floating point.
- CompactTarget.ToTarget: conversions to difficulty and weight, which are floating point.
- FeatureStates.StatePlaced: caching of states, mandatory signaling of blocks.
- DatabaseFile.Export: the iterator over the database and the skipping of voided vertices.
- Command line, networking, storage engines, verification, wallets, mining and everything else outside the files cited above.
