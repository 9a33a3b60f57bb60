# pgroll: migration lifecycle, resolution and schema transformation

pgroll moves a PostgreSQL database between schema versions without downtime. It records a linear
history of migrations in a table, projects each version as a schema of views, expands the physical
schema at Start, and contracts it at Complete. Contractions may be deferred, deployments sealed, and
history reverted, pruned or rebased onto a baseline. Its commands are sequences of SQL statements
without a transaction around them, so a crash may follow any of them.

This project models that behaviour in Dafny and proves what the design promises about it. Every file
is one component:

- `Depends.dfy`, `Names.dfy`, `Resolve.dfy`, `Migrate.dfy`: reading the migrations directory, matching
  it against history, ordering what is left to apply, the `--to` bound, and the dependency check of
  each Start.
- `History.dfy`, `Database.dfy`, `State.dfy`, `Rebaseline.dfy`: the migrations table, the database as a
  whole and the statements that change it, `Prune`, and the in-place conversion of a migration to a
  baseline.
- `Lifecycle.dfy`, `Roll.dfy`, `Contract.dfy`, `LiveSchema.dfy`, `UnsafeQueue.dfy`: the commands as programs
  of atomic statements, the engine that issues them, safety over all runs with crashes anywhere, and
  resuming an interrupted contraction.
- `Revert.dfy`: the lossless revert of the deployment in flight.
- `SealedRevert.dfy`, `InverseTrain.dfy`, `RevertSealed.dfy`, `Recovery.dfy`, `RevertInputs.dfy`: reverting
  sealed history by inverse migrations: planning and finishing, the train of inverses as commands and what
  it leaves, the whole command, running it again after a crash, and histories on which that fails.
- `Plan.dfy`, `Preview.dfy`, `Captured.dfy`: the plan that converges a database to a directory, the planners'
  preview of its revert leg, and DDL captured out of band above the point it reverts to.
- `Schema.dfy`, `Operations.dfy`, `Invert.dfy`: the in-memory schema with soft deletion and shadow
  stacks, what each operation's Start does to it, and the synthesis of inverse migrations.
- `Coordinator.dfy`, `Replay.dfy`, `RepeatedIds.dfy`, `NameMaps.dfy`: running the actions of a Complete,
  replaying deferred migrations over a physical read against draining them for real, what a repeated action
  id does, and when it does no harm.
- `Backfill.dfy`: the batch loop, racing with clients under the trigger.

`dafny verify dfyconfig.toml` checks the whole project.

## How to read the model

A method whose source works step by step is proved against functions and predicates defined apart from
it, and what the source promises is then proved of those. State that the source updates in place is a
class: `State.MigrationTable`, `Roll.Roll`, `SchemaTables.Schema`, `Backfill.Backfill`.

- A migration name has one total order, and file names sort as migration names do.
- One pgroll process works on a schema at a time; `created_at` grows along the chain, and the latest
  migration is the leaf of the parent chain. `History.LeafIsLast` shows that the leaf is unique.
- One SQL statement is one atomic step. `Lifecycle.Program` gives the statements a command issues,
  `Lifecycle.Reach` runs any list of commands, each cut off after any number of statements, and
  `Roll.Roll` shows that the engine issues exactly those statements in that order. A row carries two
  history variables that the source does not store: whether a statement of its Complete has run, and
  whether it was completed by deferral. Complete actions are idempotent, so running one that has
  already run leaves no second effect.
- A queued completion is produced as the callers do it, right after that migration's own Start. A sealed
  revert is a train of such intermediates, a Start, a Complete and a prune; the inverses are those that
  `Invert` synthesizes, from operations and snapshots stored beside history (`InverseTrain.Store`).
- What the planners of a revert answer is a parameter of the plan; `Preview.PreviewRevertTo` computes it, and
  `Preview.RevertLegIsSuffix` puts the two together.
- Old rows "settle" when everything is sealed and the queue is drained: `Contract.FinalRows`.
- Up and down expressions are opaque, and so are types, defaults and comments.

## Where a promise holds only under a condition

- **Resumed contraction.** The contraction is documented as crash-safe (pkg/roll/contract.go:22-30).
  Rows and completions are (`Contract.ContractionResumes`). The leaf's version schema is so exactly when
  `onComplete` raw SQL is queued nowhere or is also last in the queue (`LiveSchema.LiveSchemaSurvives`):
  whether to rebuild is recomputed from the remaining queue, so a crash after the raw SQL has drained and
  before the last row has loses the schema for good.
  Such a queue comes about in ordinary use (`UnsafeQueue.UnsafeQueueReached`): a batch with raw SQL first,
  and a bounded revert of its newest migration.
- **Draining through a coordinator.** Action ids join names with underscores, and a repeated id runs its
  first action once, at its last position. Replaying and draining commute exactly for queues whose
  migrations each drain as meant (`Replay.ReplayCommutesWithDrain`, `Replay.DrainsAsMeantIff`). A migration
  does so if no id is repeated (`Replay.DrainMeans`); where rename ids differ, only then
  (`RepeatedIds.DrainMeansIff`), because a repeated drop always makes the drain fail or leave a column too
  many (`RepeatedIds.RepeatedDropLeavesAColumn`); and whatever is repeated, exactly when running each id
  once composes to the same map of names as the order given (`NameMaps.DrainMeansIffNamesAgree`). A repeated
  rename can be harmless (`RepeatedIds.RenameThereAndBack`) or not (`RepeatedIds.RenameChainFails`).
  Migrations that validate and start and are drained wrongly: dropping `a_b.c` and `a.b_c`
  (`RepeatedIds.IdCollision`), and dropping a column, renaming its table away, giving the name to another
  table and dropping the column there too (`RepeatedIds.DropRenameDropKeeps`).
- **Inversion of a type change.** A replayed type change clears the default, so the inverse restores the
  column exactly when the type does not really change, there is no default, or the alter sets one
  (`Invert.UndoOne`, `Invert.TypeChangeLosesDefault`).
- **Rebaselining.** Resolution survives on the truncated directory exactly when no migration left to
  apply depends on a name at or below the anchor (`Rebaseline.ConversionIsSafe`).
- **A sealed revert leaves history as if the segment had never been applied.** The prune never fails, and
  what is left is the settled history up to the boundary (`InverseTrain.OneShotRestores`): the very rows
  that were there exactly when none of them was still queued. An expand-only revert that is completed and
  finished from history alone leaves the same exactly when the boundary is the baseline or is not itself
  an inverse, and no migration above it was an inverse before (`InverseTrain.SplitRestores`).
- **Crash recovery of a sealed revert.** It is documented for a crash anywhere
  (pkg/roll/revert_sealed.go:262-267). Running it again restores history exactly when the last inverse need
  not be deferred, unless it is the only one nothing is queued and no other inverse must be deferred, and
  none of the migrations to undo is itself an inverse (`Recovery.RecoversIffNothingWaits`). Otherwise a
  crash after the first stamp of the last Complete lets the re-run walk the last inverse back, prune the
  rest and report success one migration above the boundary (`Recovery.RerunLoses`); a crash between
  marking a deferrable last inverse done and the final stamp leaves a row that the window revert refuses
  (`Recovery.RerunStuck`); and an inverse among the migrations to undo makes the prune of a re-run take
  too much or fail (`Recovery.RerunTakesMore`).
  Each happens on a history that a sealed revert accepts (`RevertInputs.LossOccurs`, `StuckOccurs`,
  `LeftoverOccurs`).
- **The revert leg of a plan.** In a plan that is not blocked it is the suffix to revert, newest first,
  exactly when no row recorded as inferred lies above the point it reverts to, because the plan's history
  does not list such rows and the planners' does (`Preview.RevertLegIsSuffix`). DDL captured out of band
  never comes between: it is raw SQL without a way back, or nothing, so it blocks the plan
  (`Captured.CapturedLegIsSuffix`). A row stamped as inferred can have a way back, and then the leg takes it
  along without saying so (`Captured.StampedLegIsNotSuffix`).
- **In sync.** A converged plan is reported in sync exactly when the deployment is complete and, without a
  target, the run ended with the last local migration (`Plan.Converges`). A file applied after a later one
  prevents that: with files `01` and `02` and history `02`, the plan converges and stays out of sync
  (`Plan.ConvergedNeverInSync`).
- **Backfill.** The loop is complete exactly for a positive batch size; with zero it stops at once
  (`Backfill.Backfill.Start`).

## Model

| member | source | states |
|---|---|---|
| TopoSort.TopoSortMigrations | pkg/roll/depends.go:73-165 | with distinct names the result is the lexicographically least (by file position) permutation that respects dependencies; a cycle is reported only when no valid order exists, provided no migration has an empty name; an unknown dependency is reported exactly when one exists, and names it; without dependencies the input comes back as it is; repeated names with dependencies never sort |
| TopoSort.GreedyIffLeast | pkg/roll/depends.go:123-165 | emitting the lowest ready migration at every step is the same as being the least valid order |
| TopoSort.GreedyIsValid | pkg/roll/depends.go:123-165 | a complete greedy order is a dependency-respecting permutation |
| TopoSort.StuckMeansNoOrder | pkg/roll/depends.go:141-151 | when nothing is ready, no valid order exists at all |
| TopoSort.GreedyExists | pkg/roll/depends.go:123-165 | if any valid order exists, the greedy one goes through to the end |
| TopoSort.NoDependenciesKeepsFileOrder | pkg/roll/depends.go:74-84 | the no-dependency shortcut agrees with the general order |
| TopoSort.BuildGraph | pkg/roll/depends.go:86-121 | in-degrees and dependents are those of the unapplied dependencies, with multiplicity |
| TopoSort.PickBest | pkg/roll/depends.go:128-139 | the migration of in-degree zero with the lowest file position, or none |
| TopoSort.ReduceDegrees | pkg/roll/depends.go:153-161 | every dependent's in-degree falls by its number of edges to the emitted migration, others stay |
| Resolve.SplitDirectory | pkg/roll/localset.go:108-133 | exactly the post-baseline files, exactly the names the target does not select; the error arises exactly when an unapplied candidate carries no targets |
| Resolve.ResolveLocalSet | pkg/roll/localset.go:92-148 | selected are exactly the post-baseline migrations the target selects, in file order |
| Resolve.SelectedIsRouted | pkg/roll/localset.go:135-147 | leaving out excluded names is the same as selecting by target; without a target everything is selected |
| Resolve.ResolveMigrations | pkg/roll/unapplied.go:46-108 | exactly when each error arises, in order of precedence, and that success holds the least valid order of the selected unapplied migrations |
| Resolve.FindMismatch | pkg/roll/unapplied.go:82-91 | reports an applied migration that is missing locally exactly when there is one, whatever the map order |
| Resolve.UnappliedOfSelected | pkg/roll/unapplied.go:93-99 | unapplied is selected minus applied, keeps names distinct and holds no empty name |
| Migrate.Pull | cmd/migrate.go:124-141 | the recursive pull terminates on cyclic input, adds only names of the run that every closed superset holds, and leaves what it added closed |
| Migrate.CloseBound | cmd/migrate.go:103-145 | the bound is the least set with the prefix and closed under dependencies inside the run, whatever order the growing map is visited in |
| Migrate.LeastBoundUnique | cmd/migrate.go:103-145 | there is one such set, so the result does not depend on iteration order |
| Migrate.BoundTo | cmd/migrate.go:78-153 | found exactly when the name is local; the bounded list is the apply list restricted to the least bound of the prefix up to it |
| Migrate.ValidateDependencies | pkg/roll/depends.go:24-55 | the missing list is exactly the dependencies neither applied nor satisfied |
| Migrate.BatchNeverTrips | cmd/migrate.go:305-333 | every Start of a resolved batch, whole or cut down to any closed bound, finds its dependencies in history, in the excluded set or earlier in the batch |
| Migrate.StartBatch | cmd/migrate.go:305-333 | a batch starts through exactly when each migration's dependencies are satisfied by what came before |
| History.LeafIsLast | pkg/state/init.sql:207-227 | on a linear history exactly one row is nobody's parent, the last |
| History.LinearAppend | pkg/state/state.go:290-304 | inserting under the leaf with a later timestamp keeps history linear |
| History.PruneLinear | pkg/state/prune.go:57-93 | pruning any names from a linear history leaves a linear history |
| History.PruneOnlyParents | pkg/state/prune.go:57-93 | exactly the kept rows remain, in order, with nothing but parents changed |
| History.KeepIndices | pkg/state/prune.go:57-68 | the kept rows are a strictly increasing selection of the old ones |
| History.PruneTwice | pkg/state/prune.go:31-99 | pruning in two steps is pruning the union |
| History.PruneSuffix | pkg/state/prune.go:31-99 | pruning everything above a row restores the prefix with its original parents |
| History.CountMatches | pkg/state/prune.go:42-56 | the row count equals the request exactly when every name exists and none is repeated |
| State.MigrationTable.LatestMigration | pkg/state/latest.go:39-50 | the name of the unique leaf, or none |
| State.MigrationTable.UnsealedMigrations | pkg/state/revert.go:31-73 | exactly the unsealed rows, newest first |
| State.MigrationTable.Start | pkg/state/state.go:290-304 | appends an active row under the leaf exactly when nothing is active and the name is free; history stays linear |
| State.MigrationTable.Complete | pkg/state/state.go:306-361 | marks the active row of that name done, inline or deferred, and fails exactly when there is none |
| State.MigrationTable.ClearCompleteDeferred | pkg/state/state.go:413-421 | clears one row's flag and changes nothing else |
| State.MigrationTable.MarkSealed | pkg/state/revert.go:81-94 | every done row is sealed, nothing else changes, and the count is the number newly stamped |
| State.MigrationTable.DeleteMigration | pkg/state/revert.go:96-118 | succeeds exactly on the leaf, removes it and keeps history linear |
| State.MigrationTable.Prune | pkg/state/prune.go:31-99 | prunes exactly the named rows, or changes nothing when a name is missing or repeated |
| State.MigrationTable.ConvertMigrationToBaseline | pkg/state/rebaseline.go:63-212 | flips the anchor's type exactly when all audits pass and it is not a dry run; an existing baseline is reported as such |
| State.AuditContraction | pkg/state/rebaseline.go:106-139 | passes exactly when the anchor is contracted, nothing is active and nothing at or below it is open |
| State.AuditOrder | pkg/state/rebaseline.go:141-191 | passes exactly when no later baseline, no hidden later name and no visible earlier name exists |
| State.DeletableIsLeaf | pkg/state/revert.go:96-118 | the foreign key admits a deletion exactly for the leaf |
| Rebaseline.AnchorIsBaseline | pkg/state/history.go:112-147 | after the conversion the latest baseline is the anchor and no other |
| Rebaseline.VisibleAfter | pkg/state/history.go:57-75 | what history shows afterwards is what it showed before, cut by name at the anchor: the two cuts select the same set |
| Rebaseline.UnappliedAfter | pkg/roll/localset.go:108-147 | the unapplied list on the truncated directory is the earlier one restricted to names after the anchor |
| Rebaseline.KnownAfter | pkg/roll/depends.go:100-121 | dependencies stay known exactly when none left to apply is at or below the anchor |
| Rebaseline.GreedyRestrict | pkg/roll/depends.go:123-165 | the order of a dependency-closed part is the order of the whole restricted to it |
| Rebaseline.ConversionIsSafe | pkg/state/rebaseline.go:105-191 | after audits that pass: no mismatch and no routing error arises, the unapplied list is the earlier one after the anchor, and resolution succeeds with the restricted order exactly when no migration left to apply depends on a hidden name |
| Revert.RevertTargets | pkg/roll/revert.go:92-202 | succeeds exactly when the unsealed rows are a contiguous leaf suffix without captured, irreversible or stranded destructive rows, and then returns precisely the non-baseline ones, newest first |
| Revert.Walk | pkg/roll/revert.go:123-180 | the parent walk terminates and visits every unsealed row exactly when the window is good |
| Revert.PathFromLeaf | pkg/roll/revert.go:92-202 | the targets form a parent-linked path from the leaf and none is a baseline |
| Revert.RevertPlan | pkg/roll/revert.go:207-278 | the newest targets down to a step count or to a migration that stays, planned exactly when the window reaches it |
| Revert.ReachesOnce | pkg/roll/revert.go:231-245 | at most one number of steps leaves the named migration as the leaf |
| Revert.BoundByName | pkg/roll/revert.go:231-275 | finds the named migration in the window, at its lower boundary or at the leaf, and otherwise tells sealed from unknown |
| Revert.Revert | pkg/roll/revert.go:299-318 | leaves exactly the prefix below the oldest target, changes nothing when refused, keeps history linear |
| Revert.DeleteTargets | pkg/roll/revert.go:304-309 | every deletion is of the current leaf and succeeds, with history linear at each step |
| SealedRevert.VisibleIsSuffix | pkg/state/history.go:57-75 | the created_at cut of a linear history is a suffix of it |
| SealedRevert.PlanSealedSegment | pkg/roll/revert_sealed.go:93-160 | the boundary is found exactly when it is visible or the baseline, the top when it is visible, and the segment lies between them; every row of it is invertible, and a refusal means that one is not |
| RevertSealed.FinishPendingSealedRevert | pkg/roll/revert_sealed.go:364-410 | ends in nothing pending, no boundary, a failed prune or finished exactly as the outcome function says; the boundary is the newest row that is neither an inverse nor reverted, or the baseline; what is left is the history without the inverses above it and what they revert |
| RevertSealed.FinishSealedRevert | pkg/roll/revert_sealed.go:416-500 | nothing pending exactly without an inverse at the leaf or above the boundary, a failed prune exactly when a name is missing or repeated; otherwise every target is read and the prune takes exactly the inverses above the boundary and their targets, and the leaf gets its projection |
| SealedRevert.CollectInverses | pkg/roll/revert_sealed.go:434-447 | collects the inverses above the boundary, newest first |
| SealedRevert.DerivedBoundary | pkg/roll/revert_sealed.go:364-410 | the boundary derived from history is the planned one exactly when that is the baseline or not an inverse |
| SealedRevert.AsIfNeverApplied | pkg/roll/revert_sealed.go:471-500 | the prune cannot fail, and what remains is exactly the original history up to the boundary with its original parents |
| SealedRevert.FinishRestores | pkg/roll/revert_sealed.go:364-461 | finishing a complete train from history alone leaves exactly the history up to the planned boundary if and only if that is the baseline or is not itself an inverse, and no inverse was above it before the train ran |
| SealedRevert.PendingTakesMore | pkg/roll/revert_sealed.go:434-461 | with an inverse in the segment already, finishing fails or prunes a row at or below the boundary |
| SealedRevert.DeriveBoundary | pkg/roll/revert_sealed.go:378-409 | the walk finds the newest row that is neither an inverse nor reverted by one above it, or the baseline |
| InverseTrain.PlanMirrors | pkg/roll/revert_sealed.go:137-188 | the inverses of a plan mirror the segment: one per row above the boundary, newest first, named after and pointing at it |
| InverseTrain.IntermediateRows | pkg/roll/revert_sealed.go:334-343 | an intermediate inverse adds one row, done and either queued or contracted, and touches no other |
| InverseTrain.TrainReverts | pkg/roll/revert_sealed.go:311-345 | the whole train, one intermediate per inverse, a Start and a Complete, leaves the settled history with the inverses of everything above the boundary on top, newest target first, and everything sealed |
| InverseTrain.UntouchedIffNothingQueued | pkg/roll/revert_sealed.go:311-345 | the old rows below the train are untouched exactly when none of them was queued |
| InverseTrain.PlanNamesAbove | pkg/roll/revert_sealed.go:489-494 | the names a one-shot run prunes are those of every row above the boundary, each once, so the prune cannot fail |
| InverseTrain.OneShotRestores | pkg/roll/revert_sealed.go:242-267 | after a one-shot run the history is the settled one up to the boundary, and the original one exactly when nothing at or below the boundary was queued |
| InverseTrain.SplitRestores | pkg/roll/revert_sealed.go:257-260 | expand only, complete and finish from history alone leave what the one-shot run leaves exactly when the boundary is the baseline or is not itself an inverse, and no inverse was above it |
| Contract.CompletedRows | pkg/roll/execute.go:442-659 | a full Complete settles every row and leaves the active one contracted, done and sealed |
| RevertSealed.PlanRevertSealed | pkg/roll/revert_sealed.go:61-188 | a plan exactly when nothing is active or unsealed, the boundary exists, the snapshot is clean, every row above is invertible and the inverses can be synthesized; nothing to do exactly at the boundary |
| RevertSealed.UndoPartialTrain | pkg/roll/revert_sealed.go:275-297 | exactly when the unsealed rows are inverses and nothing else they are walked back by the window revert, and it fails exactly when the window refuses |
| RevertSealed.RunTrain | pkg/roll/revert_sealed.go:319-343 | issues the train's commands, and stops exactly at the first inverse whose name is taken |
| RevertSealed.RevertSealed | pkg/roll/revert_sealed.go:268-354 | exactly how the command ends: a partial train that is stuck, a completed one finished, nothing planned, a train that stops, a train left active, or the settled history up to the boundary |
| RevertSealed.CompleteCommand | cmd/complete.go:33-66 | completes what is active or contracts what is pending, then finishes a pending revert, and what history is left |
| RevertSealed.CompleteFinishesSplit | cmd/complete.go:71-89 | on an expanded train the complete command leaves the rows of the split revert |
| Recovery.GentleKeeps | pkg/roll/revert_sealed.go:275-297 | every statement a train issues, where its side condition holds, keeps the old history sealed and settling to the same rows, with walkable inverses on top |
| Recovery.BackUntilStamped | pkg/roll/revert_sealed.go:262-297 | under the recovery condition, a crash before the final stamp leaves a database that can be walked back |
| Recovery.RerunRestores | pkg/roll/revert_sealed.go:262-354 | under that condition, running again after a crash anywhere, however it ends, leaves what an uninterrupted run leaves |
| Recovery.RerunStuck | pkg/roll/execute.go:628-652 | with a last inverse that must be deferred, a crash before the final stamp leaves a database on which the command refuses |
| Recovery.RerunLoses | pkg/roll/execute.go:528-563 | with something queued below the last inverse, a crash right after the first stamp lets the re-run report success with one migration above the boundary left in history |
| Recovery.RerunTakesMore | pkg/roll/revert_sealed.go:434-461 | with an inverse among the migrations to undo, a crash before the prune makes the re-run prune too much or fail |
| RevertInputs.StuckOccurs | pkg/roll/execute.go:628-652 | reverting one sealed migration of raw SQL is a revert whose crash before the final stamp leaves it stuck |
| RevertInputs.LossOccurs | pkg/roll/execute.go:528-563 | reverting a dropped table and raw SQL above it is one whose crash right after the first stamp loses the re-created table |
| RevertInputs.LeftoverOccurs | pkg/roll/revert_sealed.go:434-461 | a history with a leftover inverse in the segment meets what the two results about taking too much require |
| Recovery.RecoversIffNothingWaits | pkg/roll/revert_sealed.go:262-267 | running again repairs a crash anywhere if and only if the last inverse need not be deferred, unless it is the only one nothing is queued and no other inverse must be deferred, and none of the migrations to undo is itself an inverse |
| Lifecycle.StmtKeepsInv | pkg/roll/execute.go:528-563 | every statement run where its side condition holds keeps history linear and every row's flags in order |
| Lifecycle.DisciplinedIsOk | pkg/roll/execute.go:528-563 | a program that contracts and clears flags only after a stamp, the active row excepted, meets the side conditions throughout |
| Lifecycle.CompleteDisciplined | pkg/roll/execute.go:442-659 | a full Complete keeps that discipline |
| Lifecycle.ContractionDisciplined | pkg/roll/contract.go:38-271 | so does FinishContraction |
| Lifecycle.RevertDisciplined | pkg/roll/revert.go:299-318 | so does a revert of any length |
| Lifecycle.ProgramOk | cmd/migrate.go:305-333 | so does every command, in every state that satisfies the invariant |
| Lifecycle.ReachKeepsInv | pkg/roll/contract.go:174-180 | the invariant holds after any commands, each cut off anywhere |
| Lifecycle.SealedPrecedesContraction | pkg/roll/contract.go:174-180 | over all runs with crashes anywhere, a row completed by deferral has its contraction begun only once sealed; so every revert target labelled queued is untouched by contraction, and every one labelled applied is inline-class and was completed inline |
| Roll.Roll.FinishContraction | pkg/roll/contract.go:38-271 | issues exactly the statements of the contraction program, in order, and refuses exactly an unsealed queue that cannot be shown to be finished |
| Roll.Roll.CloseWindow | pkg/roll/contract.go:48-91 | with nothing queued: one stamp, and the old schemas dropped exactly when the leaf has its projection |
| Roll.Roll.DropVersionSchemasExcept | pkg/roll/execute.go:1102-1150 | drops every version schema but the kept one, in listing order, and no other statement |
| Roll.Roll.Complete | pkg/roll/execute.go:442-659 | issues exactly the statements of a full Complete: drops, stamp before drain, drain in chain order, own completion, rebuild, done, stamp |
| Roll.Roll.DeferredCompletes | pkg/state/state.go:363-397 | the queued rows in chain order |
| Roll.Roll.DrainDeferredMigration | pkg/roll/execute.go:953-964 | the completion runs before its flag is cleared |
| Roll.Roll.Start | pkg/roll/execute.go:265-373 | inserts the row first, then the DDL, then the projection; refused while one is active |
| Roll.Roll.StartAndComplete | cmd/migrate.go:305-319 | destructive completions are queued, others run inline, right after the migration's own Start |
| Roll.Roll.Rollback | pkg/roll/execute.go:662-690 | drops the version schema, undoes the expand phase, then removes the row |
| Roll.Roll.RevertNewest | pkg/roll/revert.go:299-318 | leaf by leaf, then the new leaf's projection; exactly the newest rows are gone |
| Roll.Roll.PruneHistory | pkg/roll/revert_sealed.go:489-499 | one statement that removes exactly the named rows, or none when a name is missing or repeated |
| Contract.SteadyKeeps | pkg/roll/contract.go:174-271 | every statement of a contraction leaves its destination unchanged |
| Contract.ContractionSteady | pkg/roll/contract.go:38-271 | from every state the program is made of such statements, and a full run ends with nothing queued and everything sealed |
| Contract.Finishes | pkg/roll/contract.go:38-271 | a run that gets through leaves every row sealed, no flag set, and every queued completion applied once in chain order |
| Contract.NeverRefused | pkg/roll/contract.go:123-172 | an interrupted contraction is recognised and never refused |
| Contract.ContractionResumes | pkg/roll/contract.go:22-30 | cut off anywhere after the first stamp, re-run and cut off any number of times, it ends with exactly the rows and completions of an uninterrupted run |
| Contract.LogGainsQueue | pkg/roll/contract.go:225-260 | the completions gained are the queue, oldest first |
| LiveSchema.EndsWithLiveOnly | pkg/roll/contract.go:193-255 | a run that gets through leaves the leaf's version schema and no other |
| LiveSchema.LiveSchemaSurvives | pkg/roll/contract.go:185-191 | the leaf's version schema is there after every resumed run exactly when onComplete raw SQL is queued nowhere or also last |
| LiveSchema.LiveSchemaNeverMissing | pkg/roll/contract.go:193-224 | with none queued it is there in every intermediate state too |
| LiveSchema.LostForGood | pkg/roll/contract.go:185-255 | once it is lost no later run brings it back |
| UnsafeQueue.UnsafeQueueReached | pkg/roll/contract.go:185-191 | from an empty database, a batch and a bounded revert leave the leaf's version schema in place, a contraction that is accepted, and a crash that loses it |
| Plan.Plan | pkg/roll/plan.go:129-335 | exactly when each error arises; the apply leg is the least valid order of what is unapplied; the revert leg goes to the newest migration that exists locally, or to the baseline; what blocks it, in order of precedence |
| Plan.Trichotomy | pkg/roll/plan.go:267-306 | every history entry is exactly one of present locally, in the revert suffix, or interleaved |
| Plan.InterleavedIff | pkg/roll/plan.go:290-306 | interleaved are exactly the absent entries with a local one above them |
| Plan.FindConvergence | pkg/roll/plan.go:267-281 | the newest history entry that exists locally |
| Plan.RevertAndBlocked | pkg/roll/plan.go:267-331 | the revert and blocked legs of a converging plan |
| Plan.Converges | pkg/roll/plan.go:193-356 | when nothing is blocked, reverting the suffix and applying the apply leg gives a history whose own plan, for the same target, is empty and cannot fail; with the leaf that history has, it is in sync exactly when the deployment is complete and, without a target, the last migration applied, or else the convergence point, is the last local one |
| Plan.ConvergedNeverInSync | pkg/roll/plan.go:337-356 | with files 01 and 02 and history 02 the plan applies 01 and converges, and no later plan is in sync |
| Preview.PreviewRevertTo | pkg/roll/plan.go:409-424 | the window planner's answer where it reaches the migration, window and inversion together where it lies in sealed history, and a refusal exactly otherwise |
| Preview.PlanRevertSealedBelowWindow | pkg/roll/revert_sealed.go:84-89 | a plan exactly when a segment between the two named rows exists and can be inverted |
| Preview.ComposeBelowWindow | pkg/roll/plan.go:468-527 | the window's migrations and then the segment's, which are all rows above the boundary, newest first |
| Preview.ShowsAbove | pkg/roll/plan.go:409-527 | a preview that is not refused shows every row above the named migration, newest first |
| Preview.RevertLegIsSuffix | pkg/roll/plan.go:307-330 | in a plan that is not blocked the revert leg is empty without a suffix, and otherwise is the suffix, newest first, exactly when no row recorded as inferred lies above the point |
| Captured.NotPlannable | pkg/roll/revert_sealed.go:94-160 | no plan covers a row without operations or with raw SQL that has no down expression |
| Captured.CapturedLegIsSuffix | pkg/state/history.go:47-52 | where every row recorded as inferred above the point holds such raw SQL or nothing, as capture writes it, an unblocked plan's revert leg is always the suffix, newest first |
| Captured.StampedLegIsNotSuffix | pkg/roll/plan.go:307-330 | with raw SQL that can be undone, stamped as inferred between two migrations, the plan is not blocked and its leg holds a row that is not in the suffix |
| SchemaTables.Schema.RenameTable | pkg/schema/schema.go:250-274 | renames exactly when the source is live and the target is not, shadowing a soft-deleted target and restoring the source name's latest |
| SchemaTables.Schema.StartAll | pkg/roll/execute.go:317-353 | the starts in order, stopping at the first that fails |
| SchemaTables.Schema.RollbackAll | pkg/roll/execute.go:797-808 | the rollbacks in reverse order; fails exactly where a missing table would be dereferenced |
| SchemaTables.RenameBack | pkg/migrations/op_rename_table.go:41-46 | renaming back restores the table map and the shadow stacks exactly |
| SchemaTables.RollbacksUndoStarts | pkg/migrations/op_drop_table.go:17-62 | any sequence of drops and renames that starts, renames onto soft-deleted names included, is undone exactly by the rollbacks in reverse, and none meets a missing table |
| SchemaTables.RenameLive | pkg/schema/schema.go:250-274 | what can be seen after a rename: the table under its new name, everything else as it was |
| SchemaTables.FreeNameWithStackIsNotUndone | pkg/schema/schema.go:262-272 | without the invariant that a non-empty stack's name is occupied the undo fails |
| Operations.StartLive | pkg/migrations/op_alter_column.go:66-85 | each operation's Start fails exactly when its effect on the live tables is undefined, and otherwise has exactly that effect, whatever is soft-deleted or shadowed |
| Operations.StartsLive | pkg/migrations/migrations.go:358-369 | so does a sequence of starts |
| Invert.UndoOne | pkg/migrations/invert.go:223-265 | for each recorded operation the inverse restores the pre-state exactly when it is not a type change that silently takes a default with it |
| Invert.TypeChangeLosesDefault | pkg/migrations/invert.go:402-449 | changing the type of a column with a default, and nothing else, is never undone |
| Invert.RecoveredIs | pkg/migrations/invert.go:326-353 | a plain dropped column is re-added with its type, nullability, default, uniqueness and comment |
| Invert.SortedNames | pkg/migrations/invert.go:469-503 | a recreated table lists exactly the live columns, each once, in ascending order |
| Invert.InversionIsExactUndo | pkg/migrations/invert.go:71-147 | when inversion of a segment succeeds, running the inverses in the order returned, from any schema that shows the segment's end, restores every live table and each column's type, nullability, default, comment and uniqueness |
| Invert.RawSQLCannotInfluenceInverses | pkg/migrations/invert.go:79-108 | whatever raw SQL is taken to do to the replayed schema, if inversion succeeds under two such readings the inverses are equal |
| Invert.OtherInversesIgnorePreState | pkg/migrations/invert.go:173-181 | an inverse outside the refused kinds does not depend on the pre-state |
| Invert.NoInverseIsIsolated | pkg/migrations/invert.go:126-138 | the internal error about isolated inverses cannot arise |
| Invert.ReplayMigration | pkg/migrations/invert.go:86-109 | one pre-state per operation, refused exactly where a tainted one would be read or a Start fails |
| Invert.InvertMigration | pkg/migrations/invert.go:115-126 | the operations inverted against their own pre-states, last first |
| Invert.InvertedNames | pkg/migrations/invert.go:126-147 | one inverse per migration, newest first, named after and pointing at it |
| Invert.InvertSegment | pkg/migrations/invert.go:71-147 | the inverses of the whole segment, newest first, each named after and pointing at its migration |
| Coordinator.NewCoordinator | pkg/migrations/coordinator.go:18-34 | every distinct id once, in order of last occurrence, with the first action added for it |
| Coordinator.CoordinatesUnique | pkg/migrations/coordinator.go:18-34 | that description determines the coordinator: no choice of order or action is left |
| Coordinator.IndexOf | pkg/migrations/coordinator.go:22-25 | the search in the order list cannot miss |
| Coordinator.Execute | pkg/migrations/coordinator.go:37-48 | runs each ordered id's action, and the not-found branch is never taken |
| Coordinator.DistinctRunsAsGiven | pkg/migrations/coordinator.go:18-48 | with no id repeated, the given list runs in its order |
| Replay.ReadSchemaWithDeferred | pkg/roll/execute.go:105-193 | the physical read with every deferred migration's starts replayed over it, oldest first |
| Replay.UpdateVirtualSchema | pkg/migrations/migrations.go:358-369 | the starts in order against the in-memory schema only |
| Replay.StartShows | pkg/migrations/op_rename_column.go:14-34 | an operation with a meaning starts, and changes what the views expose by exactly that, identities included |
| Replay.ReadShowsAll | pkg/roll/execute.go:812-837 | with nothing deferred the views expose exactly the relations |
| Replay.DrainDeferredMigration | pkg/roll/execute.go:953-992 | the completion actions through their own coordinator against the physical schema |
| Replay.CompletesDirect | pkg/migrations/op_rename_table.go:20-39 | a drain addresses every relation by the name it then physically has |
| Replay.DrainMeans | pkg/roll/execute.go:970-992 | draining a migration without repeated action ids changes the relations by exactly its meaning |
| Replay.ReplayCommutesWithDrain | pkg/roll/execute.go:105-193 | for every queue whose migrations each drain as meant and every split of it into a drained prefix and a replayed rest, every exposed table and column is the same relation and column |
| Replay.DrainsAsMeantIff | pkg/roll/execute.go:953-992 | each migration drains as meant if and only if every prefix of the queue does |
| NameMaps.DrainMeansIffNamesAgree | pkg/migrations/coordinator.go:18-48 | whatever ids repeat, the drain does what the migration means if and only if running each id once, at its last position, composes to the same map of names as running every action in the order given |
| NameMaps.QueueDrainsIffNamesAgree | pkg/migrations/coordinator.go:18-48 | a whole queue drains as meant if and only if it does with names in place of identities, so the names in the queue and the database decide it |
| RepeatedIds.IdCollision | pkg/migrations/dbactions.go:75-83 | two accepted drops whose ids coincide: the second column stays |
| RepeatedIds.OnlyFirstRuns | pkg/migrations/coordinator.go:18-34 | of two operations with one id only the first is carried out |
| RepeatedIds.RepeatedDropLeavesAColumn | pkg/migrations/coordinator.go:18-48 | in any migration with a repeated drop id the drain fails or leaves more columns than the migration means |
| RepeatedIds.DrainMeansIff | pkg/migrations/coordinator.go:18-48 | where rename ids differ, a drain does what the migration means if and only if no id is repeated |
| RepeatedIds.DropRenameDropKeeps | pkg/migrations/op_drop_column.go:82-92 | a migration that validates and starts: drop, rename the table away, rename another to its name, drop again; the first table's column stays |
| Coordinator.RunsEachOnce | pkg/migrations/coordinator.go:18-48 | what runs is taken from the list, and no id runs twice |
| RepeatedIds.RenameThereAndBack | pkg/migrations/dbactions.go:109-131 | a repeated rename id can be harmless |
| RepeatedIds.RenameChainFails | pkg/migrations/dbactions.go:109-131 | a repeated rename id can do harm: a migration that validates and starts, and whose drain fails |
| Backfill.Backfill.Start | pkg/backfill/backfill.go:178-235 | with old-schema writes committed before each batch the keyed loop takes at most as many batches as rows were marked, and ends with no marked row and every new column equal to the up expression of its row; with batch size zero it does nothing |
| Backfill.Backfill.UpdateBatch | pkg/backfill/backfill.go:313-337 | no marked row is ever passed over, whichever row of the batch is reported; marks only go down, client values stay |
| Backfill.Backfill.StartUnkeyed | pkg/backfill/backfill.go:347-365 | the same for tables without a usable key |
| Backfill.Backfill.UpdateAnyBatch | pkg/backfill/backfill.go:347-365 | any marked rows up to the batch size are filled; it ends exactly when none is left |
| Backfill.SelectBatch | pkg/backfill/templates/sql.go:5-17 | the lowest eligible keys, up to the limit |
| Backfill.WritesOnlyLower | pkg/backfill/templates/function.go:22-27 | clients never raise a mark and never leave an unmarked row without its new value |
| Backfill.TouchLowers | pkg/backfill/templates/sql.go:18-24 | touching a batch lowers exactly its marks and derives its new values |

## Left out

- Lock timeouts and retries, connection handling, logging, prompts and progress output: input and output around the modelled decisions.
- SQL text and quoting, catalog probes other than the column probe of a rename, semver, JSON and YAML: string building and library behaviour.
- Constraints, indexes, keys, enums, identity and serial columns in inversion: the round trip is stated over plain columns; serial and identity columns appear only as what `Invert.InvertOp` rewrites or refuses.
- Changes of nullability and comments by an alter: a replayed Start does not record them, so they are outside the exact undo.
- Table comments: a replayed create_table does not record them.
- Whether an added column's default takes the fast path: the replay's stand-in database always says yes.
- Alters that add a constraint (check, unique, references) and the inverses of constraint and index operations.
- drop_table, create_table, add_column and alter_column inside the replay and drain result, with the folding back of soft-deleted tables.
- Trigger functions and the marker column dropped by a drop_column's Complete: they touch no user column and their ids differ from those of user columns.
- The filter that keeps names with the internal prefix out of views: it looks at the exposed name only.
- Writes through the new schema during a backfill, and batches that are not atomic.
- Reverting a migration that completed inline re-runs operation-specific rollbacks; the model has one statement for all of an operation's DDL.
- Tombstones, content hashes, the audit of a directory's baseline files and `PendingSealedRevertResume`.
- Sharing of table and column objects between the maps of the in-memory schema: each is held in one place, so values stand for it.
- Concurrent pgroll processes: the unique index on active migrations and the advisory checks of the command line are not modelled beyond refusing a second active row.
- SealedRevert.PlanSealedSegment: does not model the check of the boundary snapshot or the inversion it then runs; `RevertSealed.PlanRevertSealed` does.
- RevertSealed.RevertSealed: does not model what an inverse's Start validates or its DDL; a train stops only where a name is taken.
- Lifecycle.ProgramOk: lets a prune name any rows while nothing is active; the command refuses more (baselines, unknown names), so fewer runs exist than are covered.
- RepeatedIds.DropRenameDropKeeps: does not model the limit on identifier length that validation also checks.
