/** DDL captured out of band, and how a plan's revert leg treats it. */
module Captured {
  import opened History
  import opened InverseTrain
  import opened Migrations
  import opened Plan
  import opened Preview
  import opened Resolve
  import opened Revert
  import opened RevertInputs
  import opened RevertSealed
  import opened SealedRevert
  import opened TopoSort
  import I = Invert
  import NameOrder
  import O = Operations

  // ----- What capture records cannot be inverted -----

  predicate NoWayBack(op: O.Op)
  {
    op.RawSQL? && op.down == ""
  }

  lemma {:induction false} OpsRefused(ops: seq<O.Op>, pres: seq<O.TableSchema>, i: nat)
    requires |pres| == |ops| && i < |ops| && NoWayBack(ops[i])
    ensures I.InvertOps(ops, pres).None?
  {
    if i > 0 {
      OpsRefused(ops[1..], pres[1..], i - 1);
    }
  }

  lemma {:induction false} MigrationsRefused(migs: seq<I.Migration>, states: seq<seq<O.TableSchema>>, j: nat, i: nat)
    requires |states| == |migs| && forall n :: 0 <= n < |migs| ==> |states[n]| == |migs[n].ops|
    requires j < |migs| && i < |migs[j].ops| && NoWayBack(migs[j].ops[i])
    ensures I.InvertMigrations(migs, states).None?
  {
    if j > 0 {
      MigrationsRefused(migs[1..], states[1..], j - 1, i);
    } else {
      OpsRefused(migs[0].ops, states[0], i);
    }
  }

  /** What capturing DDL writes: raw SQL with nothing to undo it, or no operation at all. */
  predicate CapturedRow(r: Row, store: Store)
  {
    r.migration.ops == [] || exists i :: 0 <= i < |store.operations(r.name)| && NoWayBack(store.operations(r.name)[i])
  }

  /** No plan covers such a row. */
  lemma NotPlannable(rows: seq<Row>, k: nat, store: Store, j: nat)
    requires k < j < |rows| && CapturedRow(rows[j], store)
    ensures !Plannable(rows, k, store)
  {
    if rows[j].migration.ops == [] {
      assert !Invertible(rows[j]);
    } else {
      var i :| 0 <= i < |store.operations(rows[j].name)| && NoWayBack(store.operations(rows[j].name)[i]);
      SegmentRefused(rows, k, store, j, i);
    }
  }

  lemma SegmentRefused(rows: seq<Row>, k: nat, store: Store, j: nat, i: nat)
    requires k < j < |rows| && i < |store.operations(rows[j].name)| && NoWayBack(store.operations(rows[j].name)[i])
    ensures PlannedInverses(rows, k, store).None?
  {
    var migs, base := Forward(rows, k, store), store.snapshot(rows[k].name);
    assert migs[j - k - 1] == I.Migration(rows[j].name, store.operations(rows[j].name));
    var replayed := I.ReplaySegment(base, migs, false, I.Blind);
    hide I.ReplaySegment, I.InvertMigrations, NoWayBack;
    if replayed.Some? {
      MigrationsRefused(migs, replayed.value, j - k - 1, i);
    }
  }

  // ----- A preview never goes through it -----

  /** What lies above the point is ours, where capture is the only way a row came to be inferred. */
  ghost predicate CapturedAbove(rows: seq<Row>, k: nat, store: Store)
  {
    forall i :: k < i < |rows| && rows[i].kind == Inferred ==> CapturedRow(rows[i], store)
  }

  lemma PreviewAvoids(rows: seq<Row>, to: string, store: Store, p: Plan.Preview, k: nat)
    requires Linear(rows) && Previews(rows, to, store, p) && p.Reverts? && k < |rows| && rows[k].name == to && CapturedAbove(rows, k, store)
    ensures forall i :: k < i < |rows| ==> rows[i].kind != Inferred
  {
    hide *;
    WindowRows(rows, to, store, p);
    if n :| Reaches(rows, to, n) {
      ReachesAt(rows, to, n, k);
    } else {
      var b := LegAt(rows, to, store, p, k);
      forall i | k < i < |rows| ensures rows[i].kind != Inferred {
        if i < |Below(rows)| {
          if rows[i].kind == Inferred {
            CapturedIs(rows, k, store, i);
            BelowRow(rows, i);
            NotPlannable(Below(rows), k, store, i);
          }
        }
      }
    }
  }

  lemma CapturedIs(rows: seq<Row>, k: nat, store: Store, i: nat)
    requires CapturedAbove(rows, k, store) && k < i < |rows| && rows[i].kind == Inferred
    ensures CapturedRow(rows[i], store)
  {
  }

  lemma BelowRow(rows: seq<Row>, i: nat)
    requires i < |Below(rows)|
    ensures i < |rows| && Below(rows)[i] == rows[i]
  {
    hide WindowTargets;
  }

  /** The rows of the window are never captured ones. */
  lemma WindowRows(rows: seq<Row>, to: string, store: Store, p: Plan.Preview)
    requires Linear(rows) && Previews(rows, to, store, p) && p.Reverts?
    ensures Window(rows) && |WindowTargets(rows)| + |Below(rows)| == |rows|
    ensures forall i :: |Below(rows)| <= i < |rows| ==> rows[i].kind != Inferred
  {
    hide Reaches, SealedLeg, Downwards;
    PathFromLeaf(rows);
    var ts := WindowTargets(rows);
    hide TargetsFrom, Linear;
    forall i | |rows| - |ts| <= i < |rows| ensures rows[i].kind != Inferred {
      assert OpenFrom(rows) <= i;
    }
  }

  lemma ReachesAt(rows: seq<Row>, to: string, n: int, k: nat)
    requires Linear(rows) && Window(rows) && Reaches(rows, to, n) && k < |rows| && rows[k].name == to
    requires |WindowTargets(rows)| + |Below(rows)| == |rows|
    ensures |Below(rows)| <= k + 1
  {
    hide WindowTargets, Window, Below;
  }

  lemma LegAt(rows: seq<Row>, to: string, store: Store, p: Plan.Preview, k: nat) returns (b: nat)
    requires Linear(rows) && Previews(rows, to, store, p) && p.Reverts? && (forall n :: !Reaches(rows, to, n)) && k < |rows| && rows[k].name == to
    ensures b == k && Plannable(Below(rows), k, store)
  {
    hide Window, Reaches, WindowTargets, Below, Plannable, Open, VisibleFrom, Downwards;
    b :| SealedLeg(rows, to, b, store) && b < |rows|;
    OneOfAName(rows, b, k);
  }

  /**
   * Where every inferred row was captured, the revert leg of an unblocked plan is always its suffix, newest first: a
   * captured row above the point blocks the plan.
   */
  lemma CapturedLegIsSuffix(files: seq<RawMigration>, target: string, preview: string -> Plan.Preview, status: Status, r: Plan.PlanResult, rows: seq<Row>, store: Store)
    requires Linear(rows) && "" !in RowNames(rows)
    requires forall to :: to != "" ==> Previews(rows, to, store, preview(to))
    requires PlansTo(files, LatestBaselineName(rows), ReportedHistory(rows), "", target, preview, status, r) && r.Planned? && r.blocked == Unblocked
    requires var point := PointOf(ReportedHistory(rows), Names(All(files, LatestBaselineName(rows))), LatestBaselineName(rows));
             forall k :: 0 <= k < |rows| && rows[k].name == point ==> CapturedAbove(rows, k, store)
    ensures r.revert == Reversed(RevertSuffix(ReportedHistory(rows), Names(All(files, LatestBaselineName(rows)))))
  {
    hide *;
    var baseline, db := LatestBaselineName(rows), ReportedHistory(rows);
    var local := Names(All(files, baseline));
    RevertLegIsSuffix(files, target, preview, status, r, rows, store);
    PlanParts(files, baseline, db, target, preview, status, r);
    UnblockedLeg(db, local, baseline, preview, r.revert);
    if RevertSuffix(db, local) != [] {
      var point := PointOf(db, local, baseline);
      PointIsRecorded(rows, local);
      var k := ShowsAbove(rows, point, store, preview(point));
      PreviewAvoids(rows, point, store, preview(point), k);
      AboveIs(rows, k);
    } else {
      ReversedNone();
    }
  }

  lemma ReversedNone()
    ensures Reversed([]) == []
  {
  }

  // ----- A row stamped as inferred can be inverted -----

  /** The planners' answer. */
  ghost function Answer(rows: seq<Row>, to: string, store: Store): (p: Plan.Preview)
    ensures Previews(rows, to, store, p)
  {
    if !Window(rows) then Refuses
    else if exists n :: Reaches(rows, to, n) then
      var n :| Reaches(rows, to, n);
      assert 0 <= n <= |rows|;
      Reverts(Downwards(rows, |rows| - n, |rows|))
    else if exists k: nat :: SealedLeg(rows, to, k, store) then
      var k: nat :| SealedLeg(rows, to, k, store);
      assert k < |rows|;
      Reverts(Downwards(rows, k + 1, |rows|))
    else Refuses
  }

  /** Raw SQL that can be undone, stamped as inferred between two migrations. */
  const STAMPED := [SealedRow("a", None, 1, Pgroll, RawInline, ""), SealedRow("x", Some("a"), 2, Inferred, RawInline, ""),
                    SealedRow("b", Some("x"), 3, Pgroll, RawInline, "")]
  const FILES := [RawMigration("a", [], [])]

  lemma StampedLinear()
    ensures Linear(STAMPED) && "" !in RowNames(STAMPED)
  {
    assert "a"[0] != "b"[0] && "a"[0] != "x"[0] && "b"[0] != "x"[0];
  }

  lemma StampedPlanned()
    ensures PlannedInverses(STAMPED, 0, RAW_STORE).Some?
  {
    UndoableInverts(EMPTY_SCHEMA);
    hide I.Inverted, I.InvertOp, I.Replay, O.LiveOf;
    InvertedTwo("x", UNDOABLE, "b", UNDOABLE, EMPTY_SCHEMA, EMPTY_SCHEMA);
    assert Forward(STAMPED, 0, RAW_STORE) == [One("x", UNDOABLE), One("b", UNDOABLE)];
  }

  lemma StampedUnreached()
    ensures Window(STAMPED) && WindowTargets(STAMPED) == [] && Below(STAMPED) == STAMPED && forall n :: !Reaches(STAMPED, "a", n)
  {
    assert OpenFrom(STAMPED) == 3;
    assert "b"[0] != "a"[0];
  }

  /** Where the window does not reach, the answer is the sealed leg there is. */
  lemma AnswerIsLeg(rows: seq<Row>, to: string, store: Store, k: nat)
    requires Linear(rows) && Window(rows) && (forall n :: !Reaches(rows, to, n)) && SealedLeg(rows, to, k, store)
    ensures k < |rows| && Answer(rows, to, store) == Reverts(Downwards(rows, k + 1, |rows|))
  {
    hide Window, Reaches, Linear, SealedLeg, IsBoundary, Downwards, Answer, Below, WindowTargets, Open;
    LegBoundary(rows, to, k, store);
    BoundaryOnce(rows, to, k);
    var p := Answer(rows, to, store);
    var j: nat :| SealedLeg(rows, to, j, store) && j < |rows| && p == Reverts(Downwards(rows, j + 1, |rows|));
    LegBoundary(rows, to, j, store);
  }

  lemma LegBoundary(rows: seq<Row>, to: string, k: nat, store: Store)
    requires SealedLeg(rows, to, k, store)
    ensures IsBoundary(rows, to, k)
  {
    hide IsBoundary, Plannable, WindowTargets, Open;
  }

  lemma StampedLeg()
    ensures SealedLeg(STAMPED, "a", 0, RAW_STORE)
  {
    StampedUnreached();
    StampedPlannable();
    hide Plannable, Window, WindowTargets, Below, Reaches, VisibleFrom, Linear;
    assert !Open(STAMPED);
  }

  lemma StampedPlannable()
    ensures Plannable(STAMPED, 0, RAW_STORE) && IsBoundary(STAMPED, "a", 0)
  {
    StampedPlanned();
    NoBaseline(STAMPED);
    hide PlannedInverses, VisibleFrom;
  }

  /** The planners revert it with the migration above. */
  lemma StampedAnswer()
    ensures Answer(STAMPED, "a", RAW_STORE) == Reverts(["b", "x"])
  {
    hide *;
    StampedLinear();
    StampedUnreached();
    StampedLeg();
    AnswerIsLeg(STAMPED, "a", RAW_STORE, 0);
    StampedNames();
  }

  lemma StampedNames()
    ensures |STAMPED| == 3 && Downwards(STAMPED, 1, |STAMPED|) == ["b", "x"]
  {
  }

  lemma StampedHistory()
    ensures ReportedHistory(STAMPED) == ["a", "b"] && LatestBaselineName(STAMPED) == ""
  {
    NoBaseline(STAMPED);
    hide VisibleFrom;
    ReportedStep(STAMPED, 0);
    ReportedStep(STAMPED, 1);
    ReportedStep(STAMPED, 2);
    assert Reported(STAMPED, 3) == [];
  }

  lemma FilesAll()
    ensures All(FILES, "") == FILES
  {
    FilterAll((m: RawMigration) => NameOrder.Less("", m.name), FILES);
    hide Filter;
  }

  lemma FilesApplied()
    ensures Unapplied(FILES, "", NameSet(["a", "b"]), "") == []
  {
    var todo := (m: RawMigration) => NameOrder.Less("", m.name) && SelectedBy(m, "") && m.name !in NameSet(["a", "b"]);
    assert ["a", "b"][0] in NameSet(["a", "b"]);
    assert FILES == [] + [FILES[0]];
    FilterAppend(todo, [], FILES[0]);
    assert Filter(todo, []) == [];
    hide Filter;
  }

  lemma FilesLocal()
    ensures All(FILES, "") == FILES && Names(FILES) == {"a"} && Unapplied(FILES, "", NameSet(["a", "b"]), "") == []
    ensures !SomeUntagged(FILES, "", NameSet(["a", "b"]), "")
  {
    FilesAll();
    FilesApplied();
    hide All, Unapplied;
    assert FILES[0] in FILES;
  }

  lemma StampedLegs(preview: string -> Plan.Preview)
    requires preview("a") == Reverts(["b", "x"])
    ensures Legs(["a", "b"], {"a"}, "", preview, ["b", "x"], Unblocked) && RevertSuffix(["a", "b"], {"a"}) == ["b"]
  {
    var db, local := ["a", "b"], {"a"};
    assert "a"[0] != "b"[0];
    assert db[..1] == ["a"] && Convergence(["a"], local) == 0 && Convergence(db, local) == 0;
    assert RevertSuffix(db, local) == ["b"];
    assert ["b"][0] in NameSet(["b"]);
    NoneNotIn(db, local + NameSet(["b"]));
    assert Interleaved(db, local) == [];
    hide Convergence, RevertSuffix, Interleaved;
    assert SuffixLeg(db, local, "", preview, ["b", "x"], Unblocked);
  }

  lemma NothingToApply()
    ensures LeastOrder([], []) && AllKnown([], NameSet(["a", "b"]), {})
  {
    EmptyOrder([]);
    forall q | ValidOrder([], q) ensures NotAfter([], [], q) {
      assert multiset(q) == multiset([]);
      assert |q| == |multiset(q)| == 0;
    }
  }

  /** With that row the plan is not blocked, and its revert leg is not the suffix: it takes the stamped row along. */
  lemma StampedLegIsNotSuffix(status: Status) returns (preview: string -> Plan.Preview, r: Plan.PlanResult)
    ensures forall to :: Previews(STAMPED, to, RAW_STORE, preview(to))
    ensures PlansTo(FILES, LatestBaselineName(STAMPED), ReportedHistory(STAMPED), "", "", preview, status, r)
    ensures r.Planned? && r.blocked == Unblocked
    ensures r.revert == ["b", "x"] && RevertSuffix(ReportedHistory(STAMPED), Names(All(FILES, ""))) == ["b"]
  {
    preview := (to: string) => Answer(STAMPED, to, RAW_STORE);
    StampedAnswer();
    StampedHistory();
    FilesLocal();
    StampedLegs(preview);
    NothingToApply();
    hide Answer, Previews, All, Unapplied, SomeUntagged, Names, Legs, LeastOrder, AllKnown, Selected, ReportedHistory, LatestBaselineName, Excluded, NameSet, RevertSuffix;
    r := Plan.PlanResult.Planned([], ["b", "x"], Unblocked, false);
    r := r.(inSync := InSync(r, status, Selected(FILES, "", ""), ""));
    NothingExcluded();
  }

  lemma NothingExcluded()
    ensures Excluded(FILES, "", "") == {}
  {
  }
}
