# Hive-Chameleon: verified models

A Dafny model of the parts of Hive-Chameleon whose correctness spans many steps: the projector that
follows the Hive chain and rolls back forks, the authoritative Casual round, the lobby and its match,
the signer boundary, the planner of match batches, the session bridge, and the paginated chain source.
`dafny verify dfyconfig.toml` checks the whole project.

Code that changes state in place is modelled by classes and loops (`ProjectionStore.Store`,
`ForkAwareProjector.Service`, `CasualRound.RoundState`, `LobbyStore.Store`, `Signer.FixtureLedger`,
`PublicationQueue.Store`, `BridgeReplay.ReplayStore`, the shuffles on arrays). Each of their methods is
proved equal to a function on values. What those functions do is stated on the fields of the states before
and after, without their help, and the theorems over whole runs are about them.

| files | what they hold |
|---|---|
| `MatchView`, `MatchEffects` | the materialised match results, their change history, what the database refuses; what each event leaves in the view |
| `ProjectionTables`, `ProjectionChain` | the projector's tables; what they mean as one chain |
| `ProjectionRuns`, `ProjectionTheorems` | runs of store transactions and what they all keep |
| `ProjectionGates`, `ProjectionView` | what each store transaction accepts; which results a run shows |
| `ProjectionLimits` | the exact conditions behind those runs, and the smallest inputs that fail them |
| `ProjectorCycle`, `ProjectorSafety` | one projector cycle against a source that may answer anything |
| `ProjectorDecisions`, `ProjectorProvenance` | what a cycle reads, validates and confirms; what it writes down |
| `ProjectorConvergence`, `ProjectorReturn` | a settled source: rollback, convergence, the exact condition |
| `ProjectionStore`, `ForkAwareProjector` | the store and the service as classes |
| `Sorting`, `Shuffle`, `RoundRoles`, `HidingSlots` | sorting; shuffling; who hunts and where hiders hide |
| `CasualRound`, `CasualShots` | the round; how each command is answered and who is found |
| `CasualTheorems`, `CasualSetup` | the accounting of a round, its set-up and terminal check |
| `LobbyTables`, `LobbyStore`, `LobbyEffects` | lobby transactions, as a class, and what each of them does |
| `LobbyTheorems`, `RoundStart` | the invariant of the lobbies; starting a round |
| `LobbyBinding` | the race of callers for the match of a lobby |
| `Signer`, `SignerChecks` | interleaved signing with lost and failing effects; which requests are signed |
| `BatchPlanner`, `BatchTheorems`, `PublicationQueue` | planning one batch; draining the queue |
| `Encodings`, `BridgeAssertion`, `BridgeReplay` | the assertion format of both sides; the nonce store |
| `Pagination` | collecting pages from an arbitrary server |

Identity assumptions are stated where they are used: block ids identify blocks, an event id
identifies its payload, a batch id belongs to one event, join stamps increase.

## Findings

- A branch that was rolled back is refused for ever when it becomes the source's chain again: the unique
  key on the block ids of a source covers reverted rows too
  (`infra/postgres/migrations/20260716000100_baseline.sql:2135`). `ProjectorReturn.SettlesIffNew` gives
  the exact condition: a store follows its source if and only if the block right above the fork was
  never recorded before. `ProjectorReturn.SmallestReturn` is the smallest run.
- One correction or invalidation that names another batch than its original event was in ends finality:
  the database refuses it and with it the whole transaction
  (`infra/postgres/migrations/20260716000300_domain_integrity.sql:1375`), so no height at or above its
  block can ever be finalised. `ProjectionTheorems.RunFinalizesIffAccepted` gives the exact condition,
  `ProjectionLimits.SmallestRefusal` the smallest input.
- Two batch events with one batch id leave the second accepted, live and bound to nothing
  (`ProjectionLimits.SharedBatchStaysUnbound`). `ProjectionLimits.RunBindsFirst` gives the exact condition
  over whole runs: an event is bound if and only if no other was recorded with its batch id before it,
  also on a branch that has been reverted since.
- A finalisation at an instant that was used before materialises the earlier events again, which can change
  the view (`ProjectionLimits.SmallestReplay`, `ProjectionLimits.ReplayChangesTheView`). The exact
  condition is `ProjectionLimits.ReusedInstantReplays`: it takes in exactly what is newly irreversible if
  and only if no irreversible operation up to its height carries the instant and has its event bound.
- A failed request for the state of a match counts as a dead match (`runtime/nakama/lobby_runtime.go:260-263`):
  a caller whose check fails while it holds the current binding replaces the live match of the lobby, and
  two callers succeed with different live matches (`LobbyBinding.LostCheckSplits`, `LobbyBinding.SmallestSplit`).
  It does so if and only if the match it asked about is live (`LobbyBinding.LostCheckSplitsIff`).
- A write of the binding that goes through but reports an error makes the winner stop the match it has just
  bound (`runtime/nakama/lobby_runtime.go:284-311`); the lobby stays bound to a match that is gone, and
  a caller that came in between was given it (`LobbyBinding.UnreportedClaimStrands`).
- A clock that steps back can let a pruned nonce in again (`BridgeReplay.BackwardClockAdmitsTwice`). It does
  exactly when it steps back over the expiry after an attempt of the same session came in beyond it
  (`BridgeReplay.BridgeReadmitsIff`); other steps back do no harm (`BridgeReplay.BridgeAdmitsAtMostOnce`).
- When planning fails, the oldest row is put off, whichever row is at fault: one completed after now, by
  a clock that is behind, puts off an older request that fits
  (`workers/match-publisher/src/store/postgres-publication-store.ts:210-220`, `PublicationQueue.OldestPutOffIff`).
- A host command on a closed lobby always answers that there is no such lobby; the check for a closed
  lobby behind it can never be reached (`LobbyTheorems.HostRecordsAgree`).

Not a defect but a reason for the design: aborting an unresolved reservation would let the provider sign
twice (`Signer.AbortWouldSignTwice`).

## Model

| member | source | states |
|---|---|---|
| ProjectorReturn.SettlesIffNew | workers/haf-projector/src/sync/haf-projector.ts:43-229 | for every reachable store the source has forked away from within the allowed depth: enough cycles settle it on the source's chain if and only if the block right above the fork was never recorded; if it was, every cycle after the rollback fails |
| ProjectorConvergence.Converges | workers/haf-projector/src/sync/haf-projector.ts:43-128 | if all blocks above the fork are new, at most one rollback cycle and then enough cycles leave exactly the source's chain, finalised to the higher of reported and stored height, its live operations being exactly the verdicts on the operations of the source; no cycle fails and further cycles change nothing |
| ProjectorConvergence.ReconcileFindsAgreement | workers/haf-projector/src/sync/haf-projector.ts:196-229 | against a settled source the search reverts to the greatest height with equal ids, exactly when that is neither below the irreversible height nor too deep; else it reports which of the two and changes nothing |
| ProjectorConvergence.AgreementIsLongestPrefix | workers/haf-projector/src/sync/haf-projector.ts:196-229 | with collision-free ids that height is the longest common prefix of stored and source chain |
| ProjectorConvergence.CycleRollsBack | workers/haf-projector/src/sync/haf-projector.ts:58-67 | the rollback cycle applies nothing, reports the fork and leaves the store on the source's chain at the fork, with everything recorded still recorded |
| ProjectorConvergence.ApplySucceeds | workers/haf-projector/src/store/postgres-projection-store.ts:125-181 | the next block of a projectable chain is accepted by a store that is aligned with it and has never recorded it |
| ProjectorDecisions.ValidatesIffForBlock | workers/haf-projector/src/sync/haf-projector.ts:231-257 | validation of a block's operations succeeds exactly when all are of the block and no identity repeats, and then yields the verdicts in order |
| ProjectorDecisions.ValidatedAreVerdicts | workers/haf-projector/src/sync/haf-projector.ts:231-257 | the decisions are, by a strictly increasing map of places, the verdicts on exactly the operations the validator has one for, each with its operation |
| ProjectorDecisions.VerdictsAreUnique | workers/haf-projector/src/sync/haf-projector.ts:231-257 | no other decisions meet that description |
| ProjectorDecisions.SnapshotIff | workers/haf-projector/src/sync/haf-projector.ts:130-150 | a snapshot is read exactly when the source answers height by height with these linked blocks |
| ProjectorDecisions.NextIff | workers/haf-projector/src/sync/haf-projector.ts:69-81 | what is handed on for applying is exactly what the source answered with twice, around operations without a repeated identity |
| ProjectorDecisions.FinalityIff | workers/haf-projector/src/sync/haf-projector.ts:152-183 | finality is agreed if and only if the source reports an irreversible block within its chain, confirms its id, and answers for the height with the very block that is stored |
| ProjectorDecisions.DivergenceIff | workers/haf-projector/src/sync/haf-projector.ts:152-183 | where the reads work, every other finality is refused as a divergence |
| ProjectorDecisions.ConcludeConfirms | workers/haf-projector/src/sync/haf-projector.ts:112-128 | the end of a cycle changes the tables only by finalising a height that was confirmed so, at or below the cursor |
| ProjectorProvenance.CycleRecordsVerdicts | workers/haf-projector/src/sync/haf-projector.ts:43-128 | one cycle against any source, successful or not, adds exactly some of the next blocks that were read twice, at most as many as allowed, each with exactly the verdicts on its operations, and removes nothing |
| ProjectorProvenance.SourceIsWaitedFor | workers/haf-projector/src/sync/haf-projector.ts:43-56 | a source that cannot be read or whose head is behind the cursor leaves everything as it is |
| ProjectorReturn.FitsIffNew | infra/postgres/migrations/20260716000100_baseline.sql:2135 | a fitting block on top of the chain is applied exactly when its id was never recorded, reverted rows included |
| ProjectorReturn.RecordedIsRefused | infra/postgres/migrations/20260716000100_baseline.sql:2135 | once recorded, a block is refused at every later moment of every run |
| ProjectorReturn.RunIsRooted | workers/haf-projector/src/store/postgres-projection-store.ts:132-160 | in every reachable state each block ever recorded above height one was recorded after its parent |
| ProjectorReturn.NewAboveIffNext | infra/postgres/migrations/20260716000100_baseline.sql:2135 | so all blocks of a chain above a height are new exactly when the first of them is |
| ProjectorReturn.ReturningBranchIsStuck | workers/haf-projector/src/sync/haf-projector.ts:69-110 | where the next block was recorded before, every cycle of every run fails and changes nothing |
| ProjectorReturn.SmallestReturn | infra/postgres/migrations/20260716000100_baseline.sql:2135 | apply, revert, apply another, revert: the first block is refused |
| ProjectorSafety.CyclesAreSafe | workers/haf-projector/src/sync/haf-projector.ts:43-229 | after any cycles against any source: one linked chain, the view is the fold of the irreversible operations, every result has a linear history, every published event is bound to its earliest live operation |
| ProjectorSafety.CyclesKeepEvidence | workers/haf-projector/src/sync/haf-projector.ts:43-229 | between any two cycles nothing recorded is lost and nothing irreversible changes |
| ProjectorSafety.CycleIsRun | workers/haf-projector/src/sync/haf-projector.ts:43-229 | whatever the source answers, a cycle is a permitted run of store transactions: no revert aims above the cursor |
| ProjectorSafety.CycleReports | workers/haf-projector/src/sync/haf-projector.ts:50-127 | the report is true: a reported rollback applied no block and did only that rollback; else the cursor moved by the reported blocks; the reported finality is the store's |
| ProjectorSafety.ForkIsFirst | workers/haf-projector/src/sync/haf-projector.ts:82-100 | within a linked snapshot only the first block can fork off the cursor |
| ProjectorCycle.SnapshotIsLinked | workers/haf-projector/src/sync/haf-projector.ts:130-150 | a snapshot that was read is a linked stretch of blocks with the heights asked for |
| ForkAwareProjector.Service.RunOnce | workers/haf-projector/src/sync/haf-projector.ts:43-128 | the cycle as it runs has the tables, reads and result of the function the theorems are about |
| ForkAwareProjector.Service.ReadBlockSnapshot | workers/haf-projector/src/sync/haf-projector.ts:130-150 | the loop over heights yields the specified snapshot or the specified error |
| ForkAwareProjector.Service.GroupOperationsByBlock | workers/haf-projector/src/sync/haf-projector.ts:287-305 | fails exactly when an identity repeats in the range; else every block gets its operations in the order of the answer |
| ForkAwareProjector.Service.ValidateBlockOperations | workers/haf-projector/src/sync/haf-projector.ts:231-257 | the loop yields the decisions that `ProjectorDecisions.ValidatedAreVerdicts` describes, or the error |
| ForkAwareProjector.Service.ReconcileFork | workers/haf-projector/src/sync/haf-projector.ts:196-229 | the downward loop ends as specified, with the store reverted or untouched |
| ForkAwareProjector.Service.VerifyCurrentTip | workers/haf-projector/src/sync/haf-projector.ts:185-194 | the tip check, with the rollback it may start, is the specified one |
| ForkAwareProjector.Service.AssertFinalityAgreement | workers/haf-projector/src/sync/haf-projector.ts:152-183 | finality is agreed exactly as specified, with the same reads |
| ProjectionTheorems.ViewIsFold | workers/haf-projector/src/store/postgres-projection-store.ts:240-299 | after any run in which no finalisation replays, the view is the fold over the irreversible operations in order, however finalisation was split and whatever was reverted |
| ProjectionTheorems.SameIrreversibleSameView | workers/haf-projector/src/store/postgres-projection-store.ts:240-299 | two runs with the same irreversible operations have the same view |
| ProjectionTheorems.RunFinalizesIffAccepted | infra/postgres/migrations/20260716000300_domain_integrity.sql:1366-1383 | in every reachable state a finalisation that replays nothing succeeds if and only if no event of the chain up to its height is refused in its turn |
| ProjectionTheorems.FinalityStops | workers/haf-projector/src/store/postgres-projection-store.ts:240-299 | a refused event keeps finality below its block in every run, and finalising that height or any above it fails |
| ProjectionLimits.SmallestRefusal | infra/postgres/migrations/20260716000300_domain_integrity.sql:1375 | a batch and an invalidation that names another batch: the first alone is accepted, both together are not |
| MatchView.HonestAreAccepted | infra/postgres/migrations/20260716000300_domain_integrity.sql:1366-1383 | changes that name the batch of their original event are never refused |
| MatchEffects.AcceptedIff | infra/postgres/migrations/20260716000300_domain_integrity.sql:1366-1383 | events are accepted exactly when none of them, in its turn, extends a projected result but names another batch than that result came from |
| ProjectionTheorems.RunBindsEarliest | workers/haf-projector/src/store/postgres-projection-store.ts:372-425 | in every reachable state an event some live operation publishes is bound to the earliest of them and has its state |
| ProjectionTheorems.RunIsOneChain | workers/haf-projector/src/store/postgres-projection-store.ts:125-299 | every reachable state has exactly one live checkpoint per height up to the cursor, each linked to the one below, irreversible exactly up to the mark |
| ProjectionTheorems.RunHistoryIsLinear | workers/haf-projector/src/store/postgres-projection-store.ts:481-701 | in every reachable state the accepted changes of every result form one path from its initial to its current event |
| ProjectionTheorems.ChainIsUnique | workers/haf-projector/src/testing/in-memory-store.ts:46-158 | the chain with its decisions is determined by the tables |
| ProjectionLimits.RunBindsFirst | infra/postgres/migrations/20260716000100_baseline.sql:1633-1636 | over every run, with reverts and finalisations: an event is bound if and only if it was recorded and no other event was recorded with its batch id before it, live or reverted |
| ProjectionLimits.BoundIffBatchFree | infra/postgres/migrations/20260716000100_baseline.sql:1633-1636 | one insertion binds a new event exactly when no other event holds its batch id |
| ProjectionLimits.SharedBatchStaysUnbound | workers/haf-projector/src/store/postgres-projection-store.ts:396-424 | the input for which an accepted live event is bound to nothing |
| ProjectionLimits.ReusedInstantReplays | workers/haf-projector/src/store/postgres-projection-store.ts:427-479 | in every state reached with any instants, a finalisation materialises what was finalised at its instant before, then the new blocks; and exactly the new ones if and only if no irreversible operation up to its height carries the instant with its event bound |
| ProjectionLimits.SmallestReplay | workers/haf-projector/src/store/postgres-projection-store.ts:427-479 | a run of two blocks finalised one after the other at one instant whose view is not the fold |
| ProjectionRuns.FinalizesNewIff | workers/haf-projector/src/store/postgres-projection-store.ts:427-479 | the same condition for any tables that represent a chain, with the events in their order |
| ProjectionLimits.ReplayChangesTheView | workers/haf-projector/src/store/postgres-projection-store.ts:548-701 | an input for which materialising events a second time changes a result |
| ProjectionRuns.RunEvolves | workers/haf-projector/src/store/postgres-projection-store.ts:125-299 | between two moments of a run evidence only evolves and the irreversible part of the chain stays |
| ProjectionRuns.OrderedSorts | workers/haf-projector/src/store/postgres-projection-store.ts:432-450 | the query order is a sort: in order, nothing lost or added |
| ProjectionChain.ApplyAppends | workers/haf-projector/src/store/postgres-projection-store.ts:125-181 | applying a block appends it with its decisions to the chain the tables represent |
| ProjectionChain.RevertCuts | workers/haf-projector/src/store/postgres-projection-store.ts:183-238 | reverting succeeds down to the irreversible height and cuts the represented chain at the ancestor |
| ProjectionChain.FinalizeRaises | workers/haf-projector/src/store/postgres-projection-store.ts:240-299 | finalising leaves the represented chain as it is and raises the irreversible height |
| ProjectionGates.ApplyIff | workers/haf-projector/src/store/postgres-projection-store.ts:125-181 | for every block and decisions: it is applied if and only if it is next and links to the tip, its id was never recorded, its decisions are its own and clash neither with each other nor with a live operation, and no reverted event comes back with other content; a cursor conflict is reported exactly when it is not next |
| ProjectionGates.RevertIff | workers/haf-projector/src/store/postgres-projection-store.ts:183-238 | a revert is refused exactly below the irreversible height, and else cuts the chain there |
| ProjectionGates.FinalizeIff | workers/haf-projector/src/store/postgres-projection-store.ts:240-299 | a finalisation succeeds if and only if it does not aim above the cursor and no event that becomes irreversible is stray in its turn; then chain, mark and view are as they should be |
| MatchView.HistoryIsLinear | workers/haf-projector/src/store/postgres-projection-store.ts:481-701 | for distinct events in any order the changes of every result form one path without branch or cycle |
| MatchView.HistoryIsUnique | workers/haf-projector/src/store/postgres-projection-store.ts:481-701 | that path is the only one |
| MatchEffects.BatchFills | workers/haf-projector/src/store/postgres-projection-store.ts:481-546 | a batch projects exactly the rounds it holds a known result of that have none yet, each from the first such position and with every field as published; all else is untouched |
| MatchEffects.ChangeEffect | workers/haf-projector/src/store/postgres-projection-store.ts:548-701 | a change takes effect exactly when it extends the current event of its result and is not recorded yet; then it is recorded and its result moves, field by field, and else nothing happens |
| MatchEffects.ProjectedIffPublished | workers/haf-projector/src/store/postgres-projection-store.ts:481-546 | after any events the projected rounds are exactly those of which some batch published a known result, each from the first position of the first such batch |
| MatchEffects.ResultsStand | workers/haf-projector/src/store/postgres-projection-store.ts:548-701 | after any events every result has the standing and current event of the last change that took effect and the revision of the last correction |
| ProjectionView.RunShows | workers/haf-projector/src/store/postgres-projection-store.ts:427-701 | over every run that replays nothing the view is the one just described, of the irreversible operations |
| ProjectionView.RunProjectsIff | workers/haf-projector/src/store/postgres-projection-store.ts:427-546 | over every such run a round is projected if and only if an irreversible operation that counts published a known result of it |
| ProjectionView.EventCountsIff | workers/haf-projector/src/store/postgres-projection-store.ts:427-479 | an event counts exactly if it is that of the earliest irreversible operation that publishes it |
| ProjectionStore.Store.ApplyBlock | workers/haf-projector/src/store/postgres-projection-store.ts:125-181 | the inserts row by row have the effect of the transaction, and a refused one leaves everything as it was |
| ProjectionStore.Store.RevertAfter | workers/haf-projector/src/store/postgres-projection-store.ts:183-238 | the updates have the effect of the transaction on bindings, operations, checkpoints and cursor |
| ProjectionStore.Store.FinalizeThrough | workers/haf-projector/src/store/postgres-projection-store.ts:240-299 | the updates and the materialisation have the effect of the transaction; a refused change undoes all of it |
| ProjectionStore.Store.MaterializeItems | workers/haf-projector/src/store/postgres-projection-store.ts:427-479 | the loop materialises the bound events in order, with the effects `MatchEffects` describes, or stops at the first that is refused |
| Shuffle.EveryPermutationOnce | runtime/nakama/casual_round.go:373-383 | for distinct entries every permutation is reached by exactly one sequence of choices |
| Shuffle.AttemptShuffles | runtime/nakama/round_scaffold.go:525-535 | the loop shuffles by the choices drawn; if a draw fails it leaves some permutation and says so |
| Shuffle.InPlace | runtime/nakama/casual_round.go:373-383 | the in-place loop on an array computes that function and uses one draw per step |
| RoundRoles.SelectionIsFair | runtime/nakama/round_scaffold.go:470-523 | however the candidates were shuffled: exactly the configured hunters, someone left to hide, nobody drafted while a volunteer hides |
| RoundRoles.SelectRolesIsFair | runtime/nakama/round_scaffold.go:470-523 | for all members, nominations and draws: which error comes when, and success is fair |
| RoundRoles.EveryFairChoiceIsSelectable | runtime/nakama/round_scaffold.go:470-523 | every fair set of hunters is the outcome of some shuffle |
| RoundRoles.SelectRoundRoles | runtime/nakama/round_scaffold.go:470-523 | the method over slices and maps computes that selection and uses as many draws as specified |
| HidingSlots.AssignSlotsHides | runtime/nakama/casual_round.go:86-114 | hiders get distinct slots within 1 to the target count, two slots stay empty, all else is unchanged; it fails only without a hider or a draw |
| HidingSlots.EveryPlacementIsReachable | runtime/nakama/casual_round.go:86-114 | every way to give the hiders distinct slots is the outcome of some draws |
| HidingSlots.AssignCasualHidingSlots | runtime/nakama/casual_round.go:86-114 | the loop writes exactly those slots, or changes nothing |
| CasualRound.RoundState.Advance | runtime/nakama/casual_round.go:174-195 | the clock loop has the specified effect and reports the phases it passed |
| CasualRound.RoundState.HandleFire | runtime/nakama/casual_round.go:197-289 | a shot has the effect, answer and discovery that `CasualShots.CommandIsAnswered` describes |
| CasualShots.CommandIsAnswered | runtime/nakama/casual_round.go:197-289 | every new command in every round: a hider is discovered if and only if it is hunting time, the aim is a slot, the gun is loaded and a hider not found yet is there; each other reason comes exactly under its own condition; answer, discovery and round afterwards field by field |
| CasualShots.FoundIffShotAt | runtime/nakama/casual_round.go:253-289 | over any run a hider has been found if and only if some shot that was carried out was aimed at its slot |
| CasualShots.FoundByFirst | runtime/nakama/casual_round.go:253-289 | the one who is credited is the first whose shot was aimed there |
| CasualShots.NewRoundIff | runtime/nakama/casual_round.go:116-172 | a round is built exactly from a well-formed set-up, with exactly its players, and with the times of its configuration |
| CasualShots.NewRoundPhases | runtime/nakama/casual_round.go:116-195 | left alone, a new round passes its phases at the configured times and the hiders win at the end |
| CasualTheorems.AdvanceIsClosedForm | runtime/nakama/casual_round.go:174-195 | the phase after any time is a closed form of the time, reached in at most three turns |
| CasualTheorems.ExtraTicksVanish | runtime/nakama/casual_round.go:174-195 | an earlier tick before a later one changes neither the state nor the phases reported |
| CasualTheorems.RunKeeps | runtime/nakama/casual_round.go:197-289 | the round invariant (sides, shells, numbered distinct discoveries, ending) holds after every run |
| CasualTheorems.ShotsAreAccounted | runtime/nakama/casual_round.go:197-289 | over any run shells left and shots carried out make up the limit, and shots are a reload time apart |
| CasualTheorems.ShotsSpan | runtime/nakama/casual_round.go:231-246 | so k shots span at least k - 1 reload times |
| CasualTheorems.HuntersWinIffAllFound | runtime/nakama/casual_round.go:253-289 | the hunters have won exactly when every hider was found |
| CasualTheorems.TerminalIsFinal | runtime/nakama/casual_round.go:344-349 | the outcome, the guns and the discoveries of an ended round never change |
| CasualTheorems.RepeatChangesNothing | runtime/nakama/casual_round.go:197-216 | a repeat of any earlier command, even with another aim, changes nothing and discovers nobody |
| CasualTheorems.StuttersVanish | runtime/nakama/lobby_match.go:216-274 | an extra tick or a repeated command can be left out anywhere in a run |
| CasualSetup.NewRoundIsConsistent | runtime/nakama/casual_round.go:116-172 | a round that is set up satisfies the round invariant with full shells and no answers |
| CasualSetup.SetupIsNeverRejected | runtime/nakama/casual_round.go:116-172 | with any accepted casual configuration, what role selection and slot assignment return is never rejected |
| CasualSetup.RunPassesTerminalCheck | runtime/nakama/terminal_result.go:369-397 | the discoveries of every run pass the terminal check |
| CasualSetup.ValidateDiscoveries | runtime/nakama/terminal_result.go:369-397 | the one-pass check with its sort decides exactly the discovery rules |
| RoundStart.EveryRoundIsPlayable | runtime/nakama/round_scaffold.go:170-384 | in every reachable state every lobby has an accepted configuration, and every round ever started gives each participant a role, the configured number of hunters, someone to hide, and is never rejected when it is built |
| RoundStart.StartSucceedsIff | runtime/nakama/round_scaffold.go:170-384 | for named players and a source that always draws, the host's start succeeds exactly when the command is in order, a published map is chosen, no round is active and there are more players than hunters |
| RoundStart.PatchedIsAccepted | runtime/nakama/lobby_contract.go:334-379 | whatever the patch function accepts, it accepts again unchanged |
| LobbyEffects.PatchIff | runtime/nakama/lobby_contract.go:282-380 | a patch is accepted exactly when its outcome is within bounds; every field it carries has its value and every other one stays |
| LobbyEffects.ActionHasEffect | runtime/nakama/lobby_store.go:75-631 | in every reachable state each transaction succeeds exactly under its conditions, gives each refusal exactly under that one's, and changes exactly the rows it should |
| LobbyEffects.CreateEffect | runtime/nakama/lobby_store.go:75-198 | who can create a lobby, and the one lobby, membership and host assignment it adds |
| LobbyEffects.JoinEffect | runtime/nakama/lobby_store.go:200-324 | a player in no lobby joins if and only if the lobby is open, public or opened by the password, has room and plays no round; one membership is added and the version rises; each refusal exactly under its condition |
| LobbyEffects.LeaveEffect | runtime/nakama/lobby_store.go:446-631 | exactly the memberships named end; a host who leaves is replaced by the one who joined first, and an empty lobby closes and aborts its rounds |
| LobbyEffects.ConfigureEffect | runtime/nakama/lobby_store.go:359-444 | the host configures a lobby exactly when no round is played and the patch is acceptable; only the configuration, map and version change |
| LobbyEffects.NominateEffect | runtime/nakama/round_scaffold.go:82-168 | a player nominates exactly in an open lobby it is in, at the current version, between rounds; only its own nomination and the version change |
| LobbyEffects.StartEffect | runtime/nakama/round_scaffold.go:170-384 | each refusal of a start exactly under its condition; a started round has exactly the players of the lobby, fairly cast, under the next number, and uses up the nominations |
| LobbyTheorems.RunIsConsistent | runtime/nakama/lobby_store.go:75-631 | every run of transactions with increasing join stamps leaves the tables consistent |
| LobbyTheorems.LobbyMeaning | runtime/nakama/lobby_store.go:446-631 | capacity holds; a lobby is closed exactly when nobody is in it, then without host and active round; else its host joined first and holds the only open assignment; members of an active round were there at its start |
| LobbyTheorems.OneMembershipEach | runtime/nakama/lobby_store.go:200-324 | a player has at most one open membership |
| LobbyTheorems.HostRecordsAgree | runtime/nakama/lobby_store.go:641-739 | the host check never finds contradicting records or a closed lobby, and passes exactly for the host with the current version |
| LobbyStore.Store.CreateLobby | runtime/nakama/lobby_store.go:75-198 | the inserts have the effect of the transaction, or none |
| LobbyStore.Store.JoinLobby | runtime/nakama/lobby_store.go:200-324 | the checks and the insert have the effect of the transaction, or none; `LobbyEffects.JoinEffect` says which |
| LobbyStore.Store.LeaveLobby | runtime/nakama/lobby_store.go:446-631 | closing memberships, replacing the host or closing the lobby has the effect of the transaction, or none |
| LobbyStore.Store.UpdateConfiguration | runtime/nakama/lobby_store.go:359-444 | a host's patch has the effect of the transaction, or none |
| LobbyStore.Store.RecordNominationChange | runtime/nakama/round_scaffold.go:82-168 | a nomination has the effect of the transaction, or none |
| LobbyStore.Store.StartGameRound | runtime/nakama/round_scaffold.go:170-384 | starting a round, with its draws, has the effect of the transaction, or none |
| LobbyBinding.CallersAgree | runtime/nakama/lobby_runtime.go:248-311 | for any callers in any interleaving, with requests that are lost or go unreported, as long as no check of a live match fails and no claim goes unreported: all who succeed get the one bound match, it was never signalled, and every other match a finished caller knows it created was |
| LobbyBinding.OnlyTheBoundMatchLives | runtime/nakama/lobby_runtime.go:288-311 | under the same condition, if no signal is lost either: of all matches that finished callers know they created only the bound one is live |
| LobbyBinding.SuccessesAreEqual | runtime/nakama/lobby_runtime.go:248-311 | under the same condition callers that finish at different moments never disagree |
| LobbyBinding.WorkingCallersSucceed | runtime/nakama/lobby_runtime.go:248-311 | whatever state the binding is in and whatever others do or lose: a caller whose own requests work is given the bound match after at most seven of them, as long as no answer misleads anybody |
| LobbyBinding.LostCheckSplits | runtime/nakama/lobby_runtime.go:256-286 | in every reachable state, whatever went wrong before: a caller that holds the current binding and whose check of the live bound match fails succeeds after two working requests with another match, while the bound one stays live |
| LobbyBinding.LostCheckSplitsIff | runtime/nakama/lobby_runtime.go:256-286 | where no answer has misled anybody before: a failed check makes its caller replace the match of the lobby if and only if the match it asked about is live |
| LobbyBinding.UnreportedClaimStrands | runtime/nakama/lobby_runtime.go:284-311 | a claim that goes through unreported makes its caller stop the bound match and fail, after another caller was given it |
| LobbyBinding.SmallestSplit | runtime/nakama/lobby_runtime.go:248-311 | the seven-step run in which one lost check leaves two callers with different live matches |
| Signer.ProviderSignsAtMostOnce | packages/hive-gateway/src/signer-boundary.ts:85-133 | over any interleaving with failing, lost and late effects the provider is asked at most once per key, and only for requests without objection |
| Signer.ResponsesAreEqual | packages/hive-gateway/src/signer-boundary.ts:85-133 | all responses ever returned for a key are equal, valid, and come from requests with equal bindings |
| Signer.AbortWouldSignTwice | packages/hive-gateway/src/signer-boundary.ts:100-133 | aborting an unresolved reservation would let the provider be asked a second time |
| SignerChecks.ObjectionIff | packages/hive-gateway/src/signer-boundary.ts:26-83 | a request is let through if and only if its unsigned transaction, event and operation are those the chain, the parser and the policy confirm for exactly this role, account, authority, key and key reference; each error exactly for what fails first |
| SignerChecks.AskedAreSignable | packages/hive-gateway/src/signer-boundary.ts:26-133 | over any interleaving the provider is asked only for such requests |
| SignerChecks.SuccessIsVerified | packages/hive-gateway/src/signer-boundary.ts:85-164 | whoever gets a response asked for something signable, and the response is the provider's and recovers to the key asked for |
| SignerChecks.OneCall | packages/hive-gateway/src/signer-boundary.ts:26-164 | a call whose effects work signs exactly a signable request with a fresh key, replays what is recorded for an equal request, refuses the key to any other, and asks nobody else |
| SignerChecks.BindingIff | packages/hive-gateway/src/signer-boundary.ts:166-180 | an idempotency key is bound to exactly these eleven fields of a request |
| Signer.Boundary.Sign | packages/hive-gateway/src/signer-boundary.ts:26-133 | one call by itself takes exactly the specified steps on ledger and provider, with the outcome of `SignerChecks.OneCall` |
| Signer.FixtureLedger.AcquireLease | packages/hive-gateway/src/testing/fakes.ts:105-120 | the ledger grants, replays or refuses as specified |
| BatchTheorems.PlanIsLongestPrefix | workers/match-publisher/src/batch-builder.ts:20-124 | the outcome is an error exactly when the oldest candidate alone does not fit, nothing exactly when the batch could still grow and is young, and else the longest fitting prefix, valid by the schema |
| BatchTheorems.EveryEventFitsTheSchema | packages/hive-gateway/src/protocol/match.ts:148-200 | every event the planner tries satisfies count, order, uniqueness and half-open period |
| BatchTheorems.EventIsStamped | workers/match-publisher/src/batch-builder.ts:56-124 | a planned batch holds the results of its candidates in order, counted, under the ids and publisher given, made now, from the oldest to now or, exactly if one of the oldest was completed just now, a millisecond later; it is within the byte limits |
| BatchTheorems.LongestIsLargest | workers/match-publisher/src/batch-builder.ts:56-100 | if longer prefixes weigh no less, the longest prefix is the largest that fits |
| BatchPlanner.PlanMatchBatch | workers/match-publisher/src/batch-builder.ts:20-124 | the loop computes the specified plan |
| BatchPlanner.AssertCandidates | workers/match-publisher/src/batch-builder.ts:160-182 | the pass with two sets decides whether all candidates are consistent and distinct |
| PublicationQueue.QueueDrains | workers/match-publisher/src/store/postgres-publication-store.ts:191-286 | for requests each of which fits by itself or never does: freezing as often as there are requests due leaves none due; the batches put together are those that fit, in order, the others are put off wherever they stand, each with one attempt more and its reason, and never block, and what was not due is unchanged |
| PublicationQueue.FreezeIsTurn | workers/match-publisher/src/store/postgres-publication-store.ts:191-286 | every freeze of such a queue publishes in order, puts off only what does not fit, loses nothing and makes progress |
| PublicationQueue.DueAgainIff | workers/match-publisher/src/store/postgres-publication-store.ts:191-286 | a request a freeze has moved is due again exactly from an hour later on if it does not fit, and else never |
| PublicationQueue.FreezeTakesPrefix | workers/match-publisher/src/store/postgres-publication-store.ts:191-286 | when the rows can be read and the oldest fits, a freeze takes a nonempty prefix of what is due, all of it fitting, and leaves the rest due |
| PublicationQueue.OldestPutOffIff | workers/match-publisher/src/store/postgres-publication-store.ts:210-220 | planning readable rows fails if and only if the oldest does not fit or some row is inconsistent, and then it is the oldest that is put off |
| PublicationQueue.Store.FreezeNextBatch | workers/match-publisher/src/store/postgres-publication-store.ts:191-286 | selection, deferral, marking and outbox change as specified, or nothing does |
| BridgeAssertion.VerifyAcceptsCreated | runtime/nakama/session_bridge.go:108-158 | what one side creates the other accepts exactly from the longest lifetime before expiry until expiry, with the same ids and nonce |
| BridgeAssertion.AcceptedUntilExpiry | apps/api/src/realtime/bridge-assertion.ts:19-58 | with a configured lifetime it is accepted in every second from creation until expiry |
| BridgeAssertion.CreatesWithinTheLimit | apps/api/src/realtime/bridge-assertion.ts:38-54 | creation fails for no other reason than an expiry longer than twelve digits |
| BridgeAssertion.AcceptedIsSigned | runtime/nakama/session_bridge.go:108-158 | every accepted assertion carries the signature of its own payload and expires within the longest lifetime |
| BridgeAssertion.VerifyIff | runtime/nakama/session_bridge.go:108-158 | of all texts exactly those are accepted, at any time, that carry version, both ids, expiry and nonce under their own hash, within the length limit, before the expiry and within the longest lifetime |
| BridgeAssertion.SidesAgreeOnUuids | apps/api/src/realtime/bridge-assertion.ts:56-58 | the pattern of one side and the parser of the other accept the same ids and shorten them alike |
| BridgeAssertion.CompactComesBack | runtime/nakama/session_bridge.go:285-309 | the compact form of a decoded id is the text it was decoded from |
| BridgeAssertion.CanonicalComesBack | runtime/nakama/session_bridge.go:285-309 | decoding a compacted id yields the id |
| Encodings.Base64RoundTrip | runtime/nakama/session_bridge.go:128-146 | decoding undoes encoding (section 5 of RFC 4648) |
| BridgeReplay.BridgeAdmitsAtMostOnce | runtime/nakama/session_bridge.go:209-283 | unless the clock steps back over its expiry, every assertion is admitted at most once although expired nonces are pruned |
| BridgeReplay.BridgeReadmitsIff | runtime/nakama/session_bridge.go:209-283 | an assertion whose nonce was not used in between and that passes its check with room is admitted again if and only if an attempt of its session came in after its expiry and the clock has stepped back before it |
| BridgeReplay.HeldIff | runtime/nakama/session_bridge.go:256-268 | a consumed nonce is held exactly until an attempt of its session comes in at a time when it has expired |
| BridgeReplay.RunStaysWithinCapacity | runtime/nakama/session_bridge.go:235-283 | a session never stores more nonces than allowed |
| BridgeReplay.BackwardClockAdmitsTwice | runtime/nakama/session_bridge.go:235-283 | the run with a clock that steps back in which one assertion is admitted twice |
| Pagination.GetOperations | workers/haf-projector/src/source/hafah-http-source.ts:184-276 | terminates for every server; success is the union of the pages walked, unique by id, in range and sorted; and if a well-formed walk exists it succeeds |
| Pagination.WalksAgree | workers/haf-projector/src/source/hafah-http-source.ts:184-276 | two walks over the same answers agree as far as both go |

## Left out

- One source: the tables are those of a single source, so keys that span sources are not modelled.
- One projector process; every store call is one atomic step, as its transaction is.
- Other database triggers and checks than the unique keys, the replay rule, the agreement of an operation
  with its checkpoint and the batch lineage of changes.
- Collectibles, disclosure, reconciliation instants, tournament columns and all columns that only carry
  data along.
- HTTP, sockets, SQL text, connection pools, retries, JSON decoding, regular expressions, trimming and
  lower-casing of requests.
- HMAC, hashes, bcrypt, signature recovery, transaction building and canonical text are functions
  without known values.
- The random source is a sequence of draws of which any may fail; its distribution is not modelled.
- Times are whole milliseconds or seconds; integer widths only where a parser checks them.
- Round ids are compared as 128-bit numbers; locale-aware comparison is not modelled.
- JavaScript's and Go's library sorts are modelled by a stable insertion sort.
- A versioned storage write is one atomic step that works, is lost, or goes through unreported.
- Match labels, presences, broadcasts and the resumption of a round from its snapshot.
- Discovery ids and instants in the terminal check.
- `markBroadcast`, leases of the outbox and reconciliation of projected finality.
- LobbyTheorems.RunIsConsistent: join stamps increase from join to join; with equal stamps the source falls back on row ids, which is not modelled.
- ProjectorConvergence.Converges: the source is settled while the cycles run; a source that keeps moving is covered by the safety theorems only.
- PublicationQueue.QueueDrains: the turns are so close that nothing more becomes due in between; a request whose size depends on ids or times so that it fits at one turn and not at another is not covered.
- The lookup of a correction is passed two parameters its text never refers to
  (`workers/haf-projector/src/store/postgres-projection-store.ts:548-598`), whose types PostgreSQL may
  be unable to determine. The function `correctionOf` always answers: `ProjectorConvergence.Converges` and
  `ProjectionTheorems.RunFinalizesIffAccepted` assume that the statement can be prepared.
