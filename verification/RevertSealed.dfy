/** Reverting sealed history from end to end, resuming whatever an interrupted run left behind. */
module RevertSealed {
  import opened Contract
  import opened Database
  import opened History
  import opened InverseTrain
  import opened Lifecycle
  import opened Revert
  import opened Roll
  import opened SealedRevert
  import I = Invert

  // ----- Finishing a train -----

  /** The prune of a finish that gets through, and the projection of the leaf it uncovers. */
  ghost function FinishProgram(rows: seq<Row>, r: FinishResult, views: bool): seq<Stmt>
  {
    if r.Finished? then [PruneRows(NameSet(PendingNames(rows, r.boundary)))] + LeafProjection(FinishedRows(rows, r), views) else []
  }

  /** Prunes what a completed train above `to` has undone. */
  method FinishSealedRevert(e: Roll, to: string) returns (r: FinishResult)
    requires e.Valid()
    modifies e, e.state
    ensures e.Valid() && r == FinishOutcome(old(e.state.rows), to)
    ensures e.state.rows == FinishedRows(old(e.state.rows), r) && (!r.Finished? ==> e.Db() == old(e.Db()))
    ensures e.trace == old(e.trace) + FinishProgram(old(e.state.rows), r, e.views)
  {
    hide FinishOutcome, LeafIsInverse, Pruned, NameSet, CanPrune, PruneNames, Inverses, PendingNames, VisibleFrom, FinishedRows, FinishProgram,
      RowNames, Run, Apply, LeafProjection, Linear;
    ghost var before := e.Db();
    FinishCases(before, to, e.views);
    if !LeafIsInverse(e.state.rows) {
      return NothingPending;
    }
    var inverses := CollectInverses(e.state.rows, to);
    if |inverses| == 0 {
      return NothingPending;
    }
    var ok := TargetsRecorded(e.state.rows, inverses);
    if ok {
      ok := e.PruneHistory(PruneNames(inverses));
    } else {
      MissingTarget(e.state.rows, inverses);
    }
    if !ok {
      return PruneFailed;
    }
    e.EnsureLeafVersionSchema();
    return Finished(to);
  }

  /** Each target is read from history before anything is pruned, for its tombstone. */
  method TargetsRecorded(rows: seq<Row>, inverses: seq<Row>) returns (ok: bool)
    ensures ok <==> forall i :: 0 <= i < |inverses| ==> inverses[i].migration.revertOf in RowNames(rows)
  {
    for i := 0 to |inverses|
      invariant forall j :: 0 <= j < i ==> inverses[j].migration.revertOf in RowNames(rows)
    {
      if inverses[i].migration.revertOf !in RowNames(rows) {
        return false;
      }
    }
    return true;
  }

  /** A target that is gone fails the prune anyway. */
  lemma MissingTarget(rows: seq<Row>, inverses: seq<Row>)
    requires exists i :: 0 <= i < |inverses| && inverses[i].migration.revertOf !in RowNames(rows)
    ensures !CanPrune(rows, PruneNames(inverses))
  {
    var i :| 0 <= i < |inverses| && inverses[i].migration.revertOf !in RowNames(rows);
    assert PruneNames(inverses)[i] in NameSet(PruneNames(inverses));
  }

  lemma FinishCases(db: DB, to: string, views: bool)
    ensures var rows := db.rows;
            var inverses := Inverses(rows, VisibleFrom(rows), |rows|, to);
            var names := PruneNames(inverses);
            && (FinishOutcome(rows, to) == if !LeafIsInverse(rows) || |inverses| == 0 then NothingPending
                                           else if CanPrune(rows, names) then Finished(to) else PruneFailed)
            && (forall r: FinishResult :: !r.Finished? ==> FinishedRows(rows, r) == rows && FinishProgram(rows, r, views) == [])
            && FinishedRows(rows, Finished(to)) == Apply(db, PruneRows(NameSet(names))).rows
            && FinishProgram(rows, Finished(to), views) == [PruneRows(NameSet(names))] + LeafProjection(FinishedRows(rows, Finished(to)), views)
  {
    hide Inverses, VisibleFrom, LeafIsInverse, Pruned, NameSet, CanPrune, LeafProjection;
  }

  /** Finishes a train from history alone: what completing an expand-only revert does last. */
  method FinishPendingSealedRevert(e: Roll) returns (r: FinishResult)
    requires e.Valid()
    modifies e, e.state
    ensures e.Valid() && r == PendingOutcome(old(e.state.rows))
    ensures e.state.rows == FinishedRows(old(e.state.rows), r)
    ensures e.trace == old(e.trace) + FinishProgram(old(e.state.rows), r, e.views)
  {
    if !LeafIsInverse(e.state.rows) {
      return NothingPending;
    }
    PendingOutcomeIs(e.state.rows);
    hide FinishOutcome, PendingOutcome, DerivedName, FinishedRows, FinishProgram, LeafIsInverse;
    var boundary := DeriveBoundary(e.state.rows);
    if boundary.None? {
      NothingFinished(e.state.rows, e.views);
      return NoBoundary;
    }
    r := FinishSealedRevert(e, boundary.value);
  }

  lemma NothingFinished(rows: seq<Row>, views: bool)
    ensures FinishedRows(rows, NoBoundary) == rows && FinishProgram(rows, NoBoundary, views) == []
  {
  }

  datatype CompleteOutcome = ContractionRefused | Completed(finish: FinishResult)

  /** What the complete command runs first: the active migration's Complete, or the contraction that is pending. */
  ghost function CompleteOrContract(db: DB, force: bool, views: bool): DB
  {
    Run(db, Program(db, if HasActive(db.rows) then CmdComplete(views) else CmdContract(force, views)))
  }

  /** The complete command: it also finishes a revert whose train has just been completed. */
  method CompleteCommand(e: Roll, force: bool) returns (r: CompleteOutcome)
    requires e.Valid()
    modifies e, e.state
    ensures e.Valid()
    ensures r.ContractionRefused? <==> !HasActive(old(e.state.rows)) && Lifecycle.ContractionRefused(old(e.Db()), force, e.views)
    ensures r.ContractionRefused? ==> e.Db() == old(e.Db())
    ensures r.Completed? ==> var end := CompleteOrContract(old(e.Db()), force, e.views);
                             r.finish == PendingOutcome(end.rows) && e.state.rows == FinishedRows(end.rows, r.finish)
  {
    hide Run, Apply, Program, CompleteProgram, ContractionProgram, Lifecycle.ContractionRefused, PendingOutcome, FinishedRows, FinishProgram, HasActive, Linear;
    ghost var before, t := e.Db(), e.trace;
    CommandIs(before, force, e.views);
    var outcome := e.Complete();
    if outcome == NotActive {
      assert e.trace == t;
      outcome := e.FinishContraction(force);
      if outcome == Unfinished {
        e.Carried(before, t, ContractionProgram(before, force, e.views));
        return CompleteOutcome.ContractionRefused;
      }
      e.Carried(before, t, ContractionProgram(before, force, e.views));
    } else {
      e.Carried(before, t, CompleteProgram(before, Active(before.rows), e.views));
    }
    var f := FinishPendingSealedRevert(e);
    return Completed(f);
  }

  lemma CommandIs(db: DB, force: bool, views: bool)
    ensures HasActive(db.rows) ==> Program(db, CmdComplete(views)) == CompleteProgram(db, Active(db.rows), views)
    ensures !HasActive(db.rows) ==> Program(db, CmdContract(force, views)) == ContractionProgram(db, force, views)
    ensures Lifecycle.ContractionRefused(db, force, views) ==> Run(db, ContractionProgram(db, force, views)) == db
  {
    hide CompleteProgram, HasActive, QueueNames;
  }

  /** Running it on an expanded train ends with the split revert's rows. */
  lemma CompleteFinishesSplit(d: DB, k: nat, invs: seq<I.Inverse>, versionSchema: string, now: int, force: bool, views: bool)
    requires CanRun(d.rows, k, invs, now)
    ensures invs != []
    ensures var up := Carry(d, Train(invs, versionSchema, now, views));
            var end := CompleteOrContract(up, force, views).rows;
            HasActive(up.rows) && FinishedRows(end, PendingOutcome(end)) == SplitRows(d, invs, versionSchema, now, views)
  {
    hide Carry, Train, Program, Run, OneShot, CompleteProgram, FinishedRows, PendingOutcome, HasActive, CanRun;
    TrainActive(d, k, invs, versionSchema, now, views);
  }

  // ----- Undoing a partial train -----

  /** Something is unsealed, and only inverses are: what a train cut short leaves. */
  predicate PartialTrain(rows: seq<Row>)
  {
    (exists r :: r in rows && !r.sealed) && forall r :: r in rows && !r.sealed ==> r.migration.revertOf != ""
  }

  /** The database once a partial train has been walked back. */
  ghost function Resumed(db: DB, views: bool): DB
  {
    var n := |WindowTargets(db.rows)|;
    if PartialTrain(db.rows) && n <= |db.rows| then Run(db, RevertProgram(db.rows, n, views)) else db
  }

  /** Walks a partial train back with the window revert; false when the window refuses. */
  method UndoPartialTrain(e: Roll) returns (ok: bool)
    requires e.Valid()
    modifies e, e.state
    ensures e.Valid() && (ok <==> PartialTrain(old(e.state.rows)) ==> Window(old(e.state.rows)))
    ensures e.Db() == if ok then Resumed(old(e.Db()), e.views) else old(e.Db())
    ensures e.state.rows <= old(e.state.rows)
  {
    hide Run, Window, WindowTargets, TargetsFrom, OpenFrom;
    var partial := PartialTrain(e.state.rows);
    hide PartialTrain;
    if !partial {
      return true;
    }
    var w := RevertTargets(e.state);
    if !w.Targets? {
      return false;
    }
    TargetCount(e.state.rows);
    ghost var before, t := e.Db(), e.trace;
    e.RevertNewest(|w.targets|);
    e.Carried(before, t, RevertProgram(before.rows, |w.targets|, e.views));
    return true;
  }

  lemma TargetCount(rows: seq<Row>)
    requires Linear(rows) && Window(rows)
    ensures WindowTargets(rows) == TargetsFrom(rows, OpenFrom(rows)) && |WindowTargets(rows)| <= |rows|
  {
    hide Linear, Window, TargetsFrom;
    PathFromLeaf(rows);
  }

  // ----- Planning -----

  datatype SealedPlan =
    | WindowOpen
    | NoSegment(why: SegmentPlan)
    | Unclean
    | NotSynthesized
    | Nothing
    | Planned(k: nat, invs: seq<I.Inverse>)

  /** Some row is active or still in the revert window. */
  predicate Open(rows: seq<Row>)
  {
    exists r :: r in rows && (!r.done || !r.sealed)
  }

  /** Everything above row `k` can be inverted, from a snapshot taken with nothing in flight. */
  ghost predicate Plannable(rows: seq<Row>, k: nat, store: Store)
  {
    && k + 1 < |rows| && (forall i :: k < i < |rows| ==> Invertible(rows[i]))
    && store.clean(rows[k].name) && PlannedInverses(rows, k, store).Some?
  }

  method PlanRevertSealed(rows: seq<Row>, to: string, store: Store) returns (r: SealedPlan)
    requires Linear(rows)
    ensures r.WindowOpen? <==> Open(rows)
    ensures r.Nothing? <==> !Open(rows) && rows != [] && IsBoundary(rows, to, |rows| - 1)
    ensures r.Planned? <==> !Open(rows) && exists k: nat :: IsBoundary(rows, to, k) && Plannable(rows, k, store)
    ensures r.Planned? ==> IsBoundary(rows, to, r.k) && PlannedInverses(rows, r.k, store) == Some(r.invs) && MirrorsSegment(rows, r.k, r.invs)
  {
    var open := Open(rows);
    if open {
      return WindowOpen;
    }
    var segment := PlanSealedSegment(rows, to, "");
    SegmentTop(rows, to);
    hide Open, IsBoundary, IsTop, Linear, VisibleFrom, Invertible, PlannedInverses, MirrorsSegment;
    match segment {
      case Segment(k, top) =>
        BoundaryOnce(rows, to, k);
        if !store.clean(rows[k].name) {
          return Unclean;
        }
        PlannedIs(rows, k, store);
        var inverses := I.InvertSegment(Forward(rows, k, store), store.snapshot(rows[k].name));
        if inverses.None? {
          return NotSynthesized;
        }
        PlanMirrors(rows, k, store);
        return SealedPlan.Planned(k, inverses.value);
      case AtBoundary =>
        BoundaryOnce(rows, to, |rows| - 1);
        return Nothing;
      case NotInvertible(name) =>
        ghost var k: nat, j: nat, i: nat :| IsBoundary(rows, to, k) && IsTop(rows, "", j) && k < i <= j && !Invertible(rows[i]);
        assert !Plannable(rows, k, store);
        return NoSegment(segment);
      case _ =>
        return NoSegment(segment);
    }
  }

  /** Without a named top the segment ends at the leaf, and there is one boundary of a name. */
  lemma SegmentTop(rows: seq<Row>, to: string)
    requires Linear(rows)
    ensures forall j: nat :: IsTop(rows, "", j) <==> j == |rows| - 1
    ensures rows != [] ==> IsTop(rows, "", |rows| - 1)
    ensures forall j: nat, k: nat :: IsBoundary(rows, to, j) && IsBoundary(rows, to, k) ==> j == k
    ensures forall j: nat :: IsBoundary(rows, to, j) ==> j < |rows|
  {
  }

  lemma PlannedIs(rows: seq<Row>, k: nat, store: Store)
    requires k < |rows|
    ensures PlannedInverses(rows, k, store) == I.Inverted(Forward(rows, k, store), store.snapshot(rows[k].name), I.Blind)
  {
    hide I.Inverted;
  }

  // ----- Running the train -----

  /** The first `i` inverses are in place: where the train stands. */
  ghost predicate Standing(d: DB, db: DB, invs: seq<I.Inverse>, now: int, i: nat)
  {
    i <= |invs| && db == Carry(d, Intermediates(invs, now, i)) && OnTop(d.rows, db.rows, invs, now, i) && FreeUpTo(d.rows, invs, i)
  }

  lemma StandingStart(d: DB, invs: seq<I.Inverse>, now: int)
    requires Linear(d.rows) && AllDone(d.rows)
    ensures Standing(d, d, invs, now, 0)
  {
    hide Linear;
    NothingOnTop(d, invs, now);
    assert Intermediates(invs, now, 0) == [];
  }

  /** The next inverse starts unless a recorded migration has its name. */
  lemma StandingNext(d: DB, db: DB, invs: seq<I.Inverse>, now: int, i: nat)
    requires Standing(d, db, invs, now, i) && Timed(d.rows, invs, now) && i < |invs|
    ensures (forall r | r in db.rows :: r.createdAt < now + i) && !HasActive(db.rows)
    ensures invs[i].name in RowNames(db.rows) <==> invs[i].name in RowNames(d.rows)
  {
    hide *;
    StandingIs(d, db, invs, now, i);
    OnTopIs(d.rows, db.rows, invs, now, i);
    if invs[i].name in RowNames(d.rows) {
      PrefixNames(d.rows, db.rows, invs, now, i);
    } else {
      FreeName(d.rows, db.rows, invs, now, i);
    }
    LaterOnTop(d.rows, db.rows, invs, now, i);
    NoneActive(db.rows);
    FreeIs(db.rows, invs[i].name, now + i);
  }

  lemma StandingIs(d: DB, db: DB, invs: seq<I.Inverse>, now: int, i: nat)
    requires Standing(d, db, invs, now, i)
    ensures i <= |invs| && OnTop(d.rows, db.rows, invs, now, i) && FreeUpTo(d.rows, invs, i) && db == Carry(d, Intermediates(invs, now, i))
  {
  }

  lemma FreeIs(rows: seq<Row>, name: string, at: int)
    ensures Free(rows, name, at) ==> name !in RowNames(rows)
  {
  }

  lemma NoneActive(rows: seq<Row>)
    requires AllDone(rows)
    ensures !HasActive(rows)
  {
  }

  lemma PrefixNames(rows: seq<Row>, cur: seq<Row>, invs: seq<I.Inverse>, now: int, i: nat)
    requires OnTop(rows, cur, invs, now, i)
    ensures RowNames(rows) <= RowNames(cur)
  {
    assert forall r :: r in cur[..|rows|] ==> r in cur;
  }

  lemma LaterOnTop(rows: seq<Row>, cur: seq<Row>, invs: seq<I.Inverse>, now: int, i: nat)
    requires OnTop(rows, cur, invs, now, i) && Timed(rows, invs, now)
    ensures forall r | r in cur :: r.createdAt < now + i
  {
    forall j | 0 <= j < |cur| ensures cur[j].createdAt < now + i {
      if j < |rows| {
        assert cur[j] == rows[j] && rows[j] in rows;
      } else {
        assert IsTrainRow(cur[|rows| + (j - |rows|)], invs[j - |rows|], now + (j - |rows|));
      }
    }
  }

  lemma StandingStep(d: DB, db: DB, invs: seq<I.Inverse>, now: int, i: nat)
    requires Standing(d, db, invs, now, i) && Timed(d.rows, invs, now) && i < |invs| && invs[i].name !in RowNames(d.rows)
    requires Linear(d.rows) && AllDone(d.rows)
    ensures Standing(d, Run(db, Program(db, Intermediate(invs[i], now + i))), invs, now, i + 1)
  {
    hide *;
    StandingIs(d, db, invs, now, i);
    var cs, c := Intermediates(invs, now, i), Intermediate(invs[i], now + i);
    IntermediatesStep(invs, now, i);
    CarryConcat(d, cs, [c]);
    CarryOne(db, c);
    FreeName(d.rows, db.rows, invs, now, i);
    NextTrainRow(d, db, invs, now, i);
    FreeMore(d.rows, invs, i);
    StandingOf(d, Run(db, Program(db, c)), invs, now, i + 1);
  }

  lemma FreeMore(rows: seq<Row>, invs: seq<I.Inverse>, j: nat)
    requires FreeUpTo(rows, invs, j) && j < |invs| && invs[j].name !in RowNames(rows)
    ensures FreeUpTo(rows, invs, j + 1)
  {
  }

  lemma StandingOf(d: DB, db: DB, invs: seq<I.Inverse>, now: int, i: nat)
    requires i <= |invs| && OnTop(d.rows, db.rows, invs, now, i) && FreeUpTo(d.rows, invs, i) && db == Carry(d, Intermediates(invs, now, i))
    ensures Standing(d, db, invs, now, i)
  {
  }

  /** Starts and completes the next inverse; refused when its name is taken. */
  method RunIntermediate(e: Roll, ghost d: DB, invs: seq<I.Inverse>, now: int, i: nat) returns (ok: bool)
    requires e.Valid() && Standing(d, e.Db(), invs, now, i) && i < |invs|
    requires Timed(d.rows, invs, now) && Linear(d.rows) && AllDone(d.rows)
    modifies e, e.state
    ensures e.Valid() && (ok <==> invs[i].name !in RowNames(d.rows))
    ensures Standing(d, e.Db(), invs, now, if ok then i + 1 else i)
  {
    hide Standing, Timed, Run, Apply, AllDone, RowNames, HasActive, IntermediateProgram, Program, InverseMigration, Intermediate, Linear;
    StandingNext(d, e.Db(), invs, now, i);
    ghost var before, t := e.Db(), e.trace;
    IntermediateCases(before, invs[i], now + i);
    var outcome := e.StartAndComplete(invs[i].name, InverseMigration(invs[i], ""), now + i);
    e.Carried(before, t, IntermediateProgram(before, invs[i].name, InverseMigration(invs[i], ""), now + i));
    ok := outcome == Done;
    if ok {
      StandingStep(d, before, invs, now, i);
    }
  }

  /** Starts all inverses but the last, completing each; stops at the first whose name is taken. */
  method RunIntermediates(e: Roll, ghost k: nat, invs: seq<I.Inverse>, now: int) returns (started: nat, ok: bool)
    requires e.Valid() && Runnable(e.state.rows, k, invs, now)
    modifies e, e.state
    ensures e.Valid() && Standing(old(e.Db()), e.Db(), invs, now, started) && started < |invs|
    ensures if ok then started == |invs| - 1 else invs[started].name in RowNames(old(e.state.rows))
  {
    ghost var d := e.Db();
    RunTimed(d.rows, k, invs, now);
    StandingStart(d, invs, now);
    assert invs != [] && d.rows == e.state.rows;
    hide *;
    started, ok := 0, true;
    while ok && started < |invs| - 1
      invariant e.Valid() && Standing(d, e.Db(), invs, now, started) && started <= |invs| - 1
      invariant ok || invs[started].name in RowNames(d.rows)
      decreases |invs| - started, ok
    {
      ok := RunIntermediate(e, d, invs, now, started);
      if ok {
        started := started + 1;
      }
    }
  }

  lemma IntermediateCases(db: DB, inv: I.Inverse, at: int)
    ensures Program(db, Intermediate(inv, at)) == IntermediateProgram(db, inv.name, InverseMigration(inv, ""), at)
    ensures inv.name in RowNames(db.rows) ==> Run(db, IntermediateProgram(db, inv.name, InverseMigration(inv, ""), at)) == db
  {
    hide InverseMigration;
  }

  lemma StartCases(db: DB, inv: I.Inverse, versionSchema: string, at: int, views: bool)
    ensures Program(db, CmdStart(inv.name, InverseMigration(inv, versionSchema), at, views)) ==
            StartProgram(db, inv.name, InverseMigration(inv, versionSchema), at, views)
    ensures inv.name in RowNames(db.rows) ==> Run(db, StartProgram(db, inv.name, InverseMigration(inv, versionSchema), at, views)) == db
  {
    hide InverseMigration;
  }

  lemma TrainFromStanding(d: DB, db: DB, invs: seq<I.Inverse>, versionSchema: string, now: int, views: bool)
    requires invs != [] && Standing(d, db, invs, now, |invs| - 1)
    ensures var n := |invs| - 1;
            Carry(d, Train(invs, versionSchema, now, views)) ==
            Run(db, Program(db, CmdStart(invs[n].name, InverseMigration(invs[n], versionSchema), now + n, views)))
  {
    hide *;
    var n := |invs| - 1;
    var c := CmdStart(invs[n].name, InverseMigration(invs[n], versionSchema), now + n, views);
    StandingIs(d, db, invs, now, n);
    TrainIs(invs, versionSchema, now, views);
    CarryConcat(d, Intermediates(invs, now, n), [c]);
    CarryOne(db, c);
  }

  /** Starts the last inverse under the boundary's version schema, and leaves it active. */
  method StartLast(e: Roll, ghost d: DB, invs: seq<I.Inverse>, versionSchema: string, now: int) returns (ok: bool)
    requires e.Valid() && invs != [] && Standing(d, e.Db(), invs, now, |invs| - 1) && Timed(d.rows, invs, now)
    modifies e, e.state
    ensures e.Valid() && (ok <==> invs[|invs| - 1].name !in RowNames(d.rows))
    ensures if ok then e.Db() == Carry(d, Train(invs, versionSchema, now, e.views)) else e.Db() == old(e.Db())
  {
    hide Standing, Timed, Run, Apply, AllDone, RowNames, HasActive, StartProgram, Program, InverseMigration, Linear, Train, Carry;
    var n := |invs| - 1;
    StandingNext(d, e.Db(), invs, now, n);
    ghost var before, t := e.Db(), e.trace;
    StartCases(before, invs[n], versionSchema, now + n, e.views);
    TrainFromStanding(d, before, invs, versionSchema, now, e.views);
    var outcome := e.Start(invs[n].name, InverseMigration(invs[n], versionSchema), now + n, e.views);
    e.Carried(before, t, StartProgram(before, invs[n].name, InverseMigration(invs[n], versionSchema), now + n, e.views));
    ok := outcome == Done;
  }

  /** Runs the train up to the Start of the last inverse; stops at the first whose name is taken. */
  method RunTrain(e: Roll, ghost k: nat, invs: seq<I.Inverse>, versionSchema: string, now: int) returns (started: nat, ok: bool)
    requires e.Valid() && Runnable(e.state.rows, k, invs, now)
    modifies e, e.state
    ensures e.Valid()
    ensures ok ==> FreeUpTo(old(e.state.rows), invs, |invs|) && e.Db() == Carry(old(e.Db()), Train(invs, versionSchema, now, e.views))
    ensures !ok ==> started < |invs| && invs[started].name in RowNames(old(e.state.rows)) && Standing(old(e.Db()), e.Db(), invs, now, started)
  {
    ghost var d := e.Db();
    RunTimed(d.rows, k, invs, now);
    started, ok := RunIntermediates(e, k, invs, now);
    hide Runnable, Standing, Timed, Run, Apply, Linear, RowNames, Train, FreeUpTo, Carry;
    if ok {
      StandingIs(d, e.Db(), invs, now, |invs| - 1);
      ok := StartLast(e, d, invs, versionSchema, now);
      if ok {
        FreeMore(d.rows, invs, |invs| - 1);
      }
    }
  }

  /** Completes the active last inverse. */
  method CompleteTrain(e: Roll, ghost d: DB, ghost k: nat, ghost invs: seq<I.Inverse>, ghost versionSchema: string, ghost now: int)
    requires e.Valid() && CanRun(d.rows, k, invs, now) && e.Db() == Carry(d, Train(invs, versionSchema, now, e.views))
    modifies e, e.state
    ensures e.Valid() && invs != [] && e.Db() == Carry(d, OneShot(invs, versionSchema, now, e.views))
  {
    hide CanRun, Run, Apply, Linear, AllDone, HasActive, Program, CompleteProgram, Train, OneShot, Carry;
    ghost var before, t := e.Db(), e.trace;
    TrainActive(d, k, invs, versionSchema, now, e.views);
    var outcome := e.Complete();
    e.Carried(before, t, CompleteProgram(before, Active(before.rows), e.views));
  }

  lemma TrainActive(d: DB, k: nat, invs: seq<I.Inverse>, versionSchema: string, now: int, views: bool)
    requires CanRun(d.rows, k, invs, now)
    ensures invs != []
    ensures var up := Carry(d, Train(invs, versionSchema, now, views));
            HasActive(up.rows) && Carry(d, OneShot(invs, versionSchema, now, views)) == Run(up, CompleteProgram(up, Active(up.rows), views))
  {
    hide *;
    CanRunIs(d.rows, k, invs, now);
    RunTimed(d.rows, k, invs, now);
    TrainExpands(d, invs, versionSchema, now, views);
    var up := Carry(d, Train(invs, versionSchema, now, views));
    var r := ExpandedActive(d.rows, up.rows, invs, versionSchema, now);
    OneShotIs(invs, versionSchema, now, views);
    CarryConcat(d, Train(invs, versionSchema, now, views), [CmdComplete(views)]);
    CarryOne(up, CmdComplete(views));
    CompleteIs(up, views);
  }

  /** Prunes the plan's names; the prune cannot fail. */
  method PruneSealedRevert(e: Roll, ghost d: DB, ghost k: nat, invs: seq<I.Inverse>, ghost versionSchema: string, ghost now: int)
    requires e.Valid() && CanRun(d.rows, k, invs, now) && e.Db() == Carry(d, OneShot(invs, versionSchema, now, e.views))
    modifies e, e.state
    ensures e.Valid() && k < |d.rows| && e.state.rows == FinalRows(d.rows)[..k + 1]
    ensures e.trace == old(e.trace) + ([PruneRows(NameSet(PlanNames(invs)))] + LeafProjection(e.state.rows, e.views))
  {
    hide CanRun, Run, Apply, Linear, OneShot, Carry, CanPrune, PlanNames, NameSet, FinalRows, LeafProjection;
    PruneLeaves(d, k, invs, versionSchema, now, e.views);
    var ok := e.PruneHistory(PlanNames(invs));
    e.EnsureLeafVersionSchema();
  }

  lemma PruneLeaves(d: DB, k: nat, invs: seq<I.Inverse>, versionSchema: string, now: int, views: bool)
    requires CanRun(d.rows, k, invs, now)
    ensures invs != [] && k < |d.rows|
    ensures var end := Carry(d, OneShot(invs, versionSchema, now, views));
            CanPrune(end.rows, PlanNames(invs)) && Apply(end, PruneRows(NameSet(PlanNames(invs)))).rows == FinalRows(d.rows)[..k + 1]
  {
    hide *;
    CanRunIs(d.rows, k, invs, now);
    OneShotRestores(d, k, invs, versionSchema, now, views);
    OneShotRowsIs(d, invs, versionSchema, now, views);
    ApplyPrune(Carry(d, OneShot(invs, versionSchema, now, views)), NameSet(PlanNames(invs)));
  }

  lemma ApplyPrune(db: DB, names: set<string>)
    ensures Apply(db, PruneRows(names)).rows == Pruned(db.rows, names)
  {
    hide Pruned;
  }

  // ----- The whole command -----

  datatype SealedOutcome =
    | PartialStuck                   // the window revert refused the partial train
    | Resume(finish: FinishResult)   // a completed train was found and its prune tried
    | Unplanned(why: SealedPlan)
    | TrainStuck(started: nat)
    | AwaitingComplete
    | Restored

  /** The plan the command carries out on `d`, down to row `k`. */
  ghost predicate CarriesOut(d: DB, to: string, k: nat, store: Store, invs: seq<I.Inverse>, now: int)
  {
    && !Open(d.rows) && IsBoundary(d.rows, to, k) && Plannable(d.rows, k, store) && PlannedInverses(d.rows, k, store) == Some(invs)
    && Runnable(d.rows, k, invs, now)
  }

  ghost predicate HasPlan(rows: seq<Row>, to: string, store: Store)
  {
    !Open(rows) && exists k: nat :: IsBoundary(rows, to, k) && Plannable(rows, k, store)
  }

  /**
   * How a fresh revert of `d` ends. Without a plan nothing happens; a train whose next name is taken stops there;
   * an expand-only run leaves the whole train with its last inverse active; and a full run leaves the
   * settled history up to the boundary.
   */
  ghost predicate RunResult(d: DB, to: string, store: Store, now: int, expandOnly: bool, views: bool,
                            r: SealedOutcome, k: nat, invs: seq<I.Inverse>, end: DB)
  {
    match r
    case PartialStuck => false
    case Resume(_) => false
    case Unplanned(_) => !HasPlan(d.rows, to, store) && end == d
    case TrainStuck(started) =>
      && CarriesOut(d, to, k, store, invs, now) && started < |invs| && invs[started].name in RowNames(d.rows)
      && Standing(d, end, invs, now, started)
    case AwaitingComplete =>
      && expandOnly && CarriesOut(d, to, k, store, invs, now) && FreeUpTo(d.rows, invs, |invs|) && invs != [] && k < |d.rows|
      && end == Carry(d, Train(invs, d.rows[k].VersionSchema(), now, views))
    case Restored =>
      && !expandOnly && CarriesOut(d, to, k, store, invs, now) && FreeUpTo(d.rows, invs, |invs|) && k < |d.rows|
      && end.rows == FinalRows(d.rows)[..k + 1]
  }

  /** Plans a revert and runs it. `k` and `invs` are the plan, when there is one. */
  method PlanAndRun(e: Roll, to: string, store: Store, now: int, expandOnly: bool) returns (r: SealedOutcome, ghost k: nat, ghost invs: seq<I.Inverse>)
    requires e.Valid() && forall x | x in e.state.rows :: x.createdAt < now
    modifies e, e.state
    ensures e.Valid() && RunResult(old(e.Db()), to, store, now, expandOnly, e.views, r, k, invs, e.Db())
  {
    ghost var d := e.Db();
    var plan := MakePlan(e, to, store, now);
    k, invs := 0, [];
    hide RunResult, CarriesOut, HasPlan, Run, Apply, Carry, Train, FreeUpTo, FinalRows, Linear;
    if !plan.Planned? {
      ResultUnplanned(d, to, store, now, expandOnly, e.views, plan, k, invs);
      return Unplanned(plan), k, invs;
    }
    k, invs := plan.k, plan.invs;
    r := RunPlan(e, to, plan.k, plan.invs, store, now, expandOnly);
  }

  lemma ResultUnplanned(d: DB, to: string, store: Store, now: int, expandOnly: bool, views: bool, plan: SealedPlan, k: nat, invs: seq<I.Inverse>)
    requires !HasPlan(d.rows, to, store)
    ensures RunResult(d, to, store, now, expandOnly, views, Unplanned(plan), k, invs, d)
  {
    hide HasPlan;
  }

  method MakePlan(e: Roll, to: string, store: Store, ghost now: int) returns (plan: SealedPlan)
    requires Linear(e.state.rows) && forall x | x in e.state.rows :: x.createdAt < now
    ensures plan.Planned? <==> HasPlan(e.state.rows, to, store)
    ensures plan.Planned? ==> CarriesOut(e.Db(), to, plan.k, store, plan.invs, now)
  {
    ghost var d := e.Db();
    plan := PlanRevertSealed(e.state.rows, to, store);
    hide Open, IsBoundary, Plannable, CarriesOut, PlannedInverses, MirrorsSegment, Linear;
    if plan.Planned? {
      PlanRuns(d, to, plan.k, store, plan.invs, now);
    }
  }

  lemma PlanRuns(d: DB, to: string, k: nat, store: Store, invs: seq<I.Inverse>, now: int)
    requires Linear(d.rows) && !Open(d.rows) && (forall x | x in d.rows :: x.createdAt < now) && IsBoundary(d.rows, to, k)
    requires exists j: nat :: IsBoundary(d.rows, to, j) && Plannable(d.rows, j, store)
    requires PlannedInverses(d.rows, k, store) == Some(invs) && MirrorsSegment(d.rows, k, invs)
    ensures CarriesOut(d, to, k, store, invs, now)
  {
    BoundaryOnce(d.rows, to, k);
    hide Linear, IsBoundary, PlannedInverses;
  }

  lemma PlanIsRunnable(d: DB, to: string, k: nat, store: Store, invs: seq<I.Inverse>, now: int)
    requires CarriesOut(d, to, k, store, invs, now)
    ensures k < |d.rows| && Runnable(d.rows, k, invs, now) && invs != []
  {
    hide Linear;
  }

  /** Runs a plan, to the end or up to the Start of its last inverse. */
  method RunPlan(e: Roll, ghost to: string, k: nat, invs: seq<I.Inverse>, ghost store: Store, now: int, expandOnly: bool) returns (r: SealedOutcome)
    requires e.Valid() && CarriesOut(e.Db(), to, k, store, invs, now)
    modifies e, e.state
    ensures e.Valid() && RunResult(old(e.Db()), to, store, now, expandOnly, e.views, r, k, invs, e.Db())
  {
    hide RunResult, CarriesOut, Run, Apply, Carry, Train, OneShot, FreeUpTo, FinalRows, Linear, Runnable, Standing, RowNames, CanRun, NameSet, PlanNames, LeafProjection;
    ghost var d := e.Db();
    PlanIsRunnable(d, to, k, store, invs, now);
    var versionSchema := e.state.rows[k].VersionSchema();
    var started, ok := RunTrain(e, k, invs, versionSchema, now);
    if !ok {
      ResultStuck(d, to, store, now, expandOnly, e.views, started, k, invs, e.Db());
      return TrainStuck(started);
    }
    if expandOnly {
      ResultAwaiting(d, to, store, now, e.views, k, invs, e.Db());
      return AwaitingComplete;
    }
    CanRunOf(d.rows, k, invs, now);
    CompleteTrain(e, d, k, invs, versionSchema, now);
    PruneSealedRevert(e, d, k, invs, versionSchema, now);
    ResultRestored(d, to, store, now, e.views, k, invs, e.Db());
    return Restored;
  }

  lemma ResultStuck(d: DB, to: string, store: Store, now: int, expandOnly: bool, views: bool, started: nat, k: nat, invs: seq<I.Inverse>, end: DB)
    requires CarriesOut(d, to, k, store, invs, now) && started < |invs| && invs[started].name in RowNames(d.rows)
    requires Standing(d, end, invs, now, started)
    ensures RunResult(d, to, store, now, expandOnly, views, TrainStuck(started), k, invs, end)
  {
    hide CarriesOut, Standing, RowNames;
  }

  lemma ResultAwaiting(d: DB, to: string, store: Store, now: int, views: bool, k: nat, invs: seq<I.Inverse>, end: DB)
    requires CarriesOut(d, to, k, store, invs, now) && FreeUpTo(d.rows, invs, |invs|) && k < |d.rows| && invs != []
    requires end == Carry(d, Train(invs, d.rows[k].VersionSchema(), now, views))
    ensures RunResult(d, to, store, now, true, views, AwaitingComplete, k, invs, end)
  {
    hide CarriesOut, FreeUpTo, Carry, Train;
  }

  lemma ResultRestored(d: DB, to: string, store: Store, now: int, views: bool, k: nat, invs: seq<I.Inverse>, end: DB)
    requires CarriesOut(d, to, k, store, invs, now) && FreeUpTo(d.rows, invs, |invs|) && k < |d.rows| && end.rows == FinalRows(d.rows)[..k + 1]
    ensures RunResult(d, to, store, now, false, views, Restored, k, invs, end)
  {
    hide CarriesOut, FreeUpTo, FinalRows;
  }

  lemma CanRunOf(rows: seq<Row>, k: nat, invs: seq<I.Inverse>, now: int)
    requires Runnable(rows, k, invs, now) && FreeUpTo(rows, invs, |invs|)
    ensures CanRun(rows, k, invs, now)
  {
  }

  /** How the whole command ends: a partial train is walked back first, and a completed one is only finished. */
  ghost predicate SealedResult(db: DB, to: string, store: Store, now: int, expandOnly: bool, views: bool,
                               r: SealedOutcome, k: nat, invs: seq<I.Inverse>, end: DB)
  {
    if PartialTrain(db.rows) && !Window(db.rows) then r == PartialStuck && end == db else
      var d := Resumed(db, views);
      var f := FinishOutcome(d.rows, to);
      if f.Finished? || f.PruneFailed? then r == Resume(f) && end.rows == FinishedRows(d.rows, f)
      else RunResult(d, to, store, now, expandOnly, views, r, k, invs, end)
  }

  method RevertSealed(e: Roll, to: string, store: Store, now: int, expandOnly: bool) returns (r: SealedOutcome, ghost k: nat, ghost invs: seq<I.Inverse>)
    requires e.Valid() && forall x | x in e.state.rows :: x.createdAt < now
    modifies e, e.state
    ensures e.Valid() && SealedResult(old(e.Db()), to, store, now, expandOnly, e.views, r, k, invs, e.Db())
  {
    k, invs := 0, [];
    hide Run, Apply, FinishedRows, FinishOutcome, PartialTrain, Resumed, Window, WindowTargets, Linear, FinishProgram, RunResult, SealedResult;
    ghost var db := e.Db();
    var ok := UndoPartialTrain(e);
    if !ok {
      StuckIs(db, to, store, now, expandOnly, e.views);
      return PartialStuck, k, invs;
    }
    ghost var d := e.Db();
    EarlierRows(db.rows, d.rows, now);
    var f := FinishSealedRevert(e, to);
    if f.Finished? || f.PruneFailed? {
      ResumeIs(db, to, store, now, expandOnly, e.views, e.Db());
      return Resume(f), k, invs;
    }
    r, k, invs := PlanAndRun(e, to, store, now, expandOnly);
    FreshIs(db, to, store, now, expandOnly, e.views, r, k, invs, e.Db());
  }

  lemma EarlierRows(rows: seq<Row>, d: seq<Row>, now: int)
    requires (forall x | x in rows :: x.createdAt < now) && d <= rows
    ensures forall x | x in d :: x.createdAt < now
  {
  }

  lemma StuckIs(db: DB, to: string, store: Store, now: int, expandOnly: bool, views: bool)
    requires PartialTrain(db.rows) && !Window(db.rows)
    ensures SealedResult(db, to, store, now, expandOnly, views, PartialStuck, 0, [], db)
  {
    hide PartialTrain, Window;
  }

  lemma ResumeIs(db: DB, to: string, store: Store, now: int, expandOnly: bool, views: bool, end: DB)
    requires PartialTrain(db.rows) ==> Window(db.rows)
    requires var rows := Resumed(db, views).rows; var f := FinishOutcome(rows, to);
             (f.Finished? || f.PruneFailed?) && end.rows == FinishedRows(rows, f)
    ensures SealedResult(db, to, store, now, expandOnly, views, Resume(FinishOutcome(Resumed(db, views).rows, to)), 0, [], end)
  {
    hide PartialTrain, Window, Resumed, FinishOutcome, FinishedRows, RunResult;
  }

  lemma FreshIs(db: DB, to: string, store: Store, now: int, expandOnly: bool, views: bool, r: SealedOutcome, k: nat, invs: seq<I.Inverse>, end: DB)
    requires PartialTrain(db.rows) ==> Window(db.rows)
    requires var f := FinishOutcome(Resumed(db, views).rows, to); !f.Finished? && !f.PruneFailed?
    requires RunResult(Resumed(db, views), to, store, now, expandOnly, views, r, k, invs, end)
    ensures SealedResult(db, to, store, now, expandOnly, views, r, k, invs, end)
  {
    hide PartialTrain, Window, Resumed, FinishOutcome, FinishedRows, RunResult;
  }
}
