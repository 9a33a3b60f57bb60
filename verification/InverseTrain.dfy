/** The inverse train of a sealed revert as commands: what it leaves once completed and pruned. */
module InverseTrain {
  import opened Contract
  import opened Database
  import opened History
  import opened Lifecycle
  import opened SealedRevert
  import opened State
  import I = Invert
  import O = Operations

  // ----- The plan -----

  /** An operation by the class of its Complete. */
  function ClassOf(op: O.Op): OpClass
  {
    match op
    case CreateTable(_, _) => Additive
    case AddColumn(_, _, _) => Additive
    case RawSQL(_, _, onComplete) => if onComplete then RawOnComplete else RawInline
    case _ => Contracting
  }

  function Classes(ops: seq<O.Op>): seq<OpClass>
  {
    seq(|ops|, i requires 0 <= i < |ops| => ClassOf(ops[i]))
  }

  /** The inverse as the engine runs it. */
  function InverseMigration(inv: I.Inverse, versionSchema: string): Migration
  {
    Migration(Classes(inv.ops), false, inv.revertOf, versionSchema)
  }

  /** What is stored beside history: the operations of each migration, the schema after it, and whether that was
      captured with nothing in flight. */
  datatype Store = Store(operations: string -> seq<O.Op>, snapshot: string -> O.TableSchema, clean: string -> bool)

  /** The segment above the boundary as migrations, oldest first. */
  function Forward(rows: seq<Row>, k: nat, store: Store): seq<I.Migration>
    requires k < |rows|
  {
    seq(|rows| - k - 1, i requires 0 <= i < |rows| - k - 1 => I.Migration(rows[k + 1 + i].name, store.operations(rows[k + 1 + i].name)))
  }

  /** The inverses a plan down to row `k` holds. */
  function PlannedInverses(rows: seq<Row>, k: nat, store: Store): Option<seq<I.Inverse>>
    requires k < |rows|
  {
    I.Inverted(Forward(rows, k, store), store.snapshot(rows[k].name), I.Blind)
  }

  /** The migrations a plan undoes, newest first. */
  function TargetsOf(invs: seq<I.Inverse>): (names: seq<string>)
    ensures |names| == |invs| && forall i :: 0 <= i < |invs| ==> names[i] == invs[i].revertOf
  {
    seq(|invs|, i requires 0 <= i < |invs| => invs[i].revertOf)
  }

  function InversesOf(invs: seq<I.Inverse>): (names: seq<string>)
    ensures |names| == |invs| && forall i :: 0 <= i < |invs| ==> names[i] == invs[i].name
  {
    seq(|invs|, i requires 0 <= i < |invs| => invs[i].name)
  }

  /** The names a plan prunes: its targets, then its inverses. */
  function PlanNames(invs: seq<I.Inverse>): seq<string>
  {
    TargetsOf(invs) + InversesOf(invs)
  }

  /** The inverses mirror the segment: the first undoes the leaf, the last the row above the boundary. */
  ghost predicate MirrorsSegment(rows: seq<Row>, k: nat, invs: seq<I.Inverse>)
  {
    && k < |rows| && |invs| == |rows| - k - 1
    && forall i :: 0 <= i < |invs| ==> invs[i].revertOf == rows[|rows| - 1 - i].name && invs[i].name == "revert_" + invs[i].revertOf
  }

  lemma PlanMirrors(rows: seq<Row>, k: nat, store: Store)
    requires k < |rows| && PlannedInverses(rows, k, store).Some?
    ensures MirrorsSegment(rows, k, PlannedInverses(rows, k, store).value)
  {
    var migs, base := Forward(rows, k, store), store.snapshot(rows[k].name);
    var states := I.ReplaySegment(base, migs, false, I.Blind).value;
    I.InvertedNames(migs, states);
    hide I.InvertMigrations, I.ReplaySegment;
  }

  // ----- The train -----

  function Intermediate(inv: I.Inverse, at: int): Command
  {
    CmdIntermediate(inv.name, InverseMigration(inv, ""), at)
  }

  function Intermediates(invs: seq<I.Inverse>, now: int, j: nat): (cs: seq<Command>)
    requires j <= |invs|
    ensures |cs| == j
  {
    seq(j, i requires 0 <= i < j => Intermediate(invs[i], now + i))
  }

  /** All but the last inverse as intermediates; the last one starts with the boundary's version schema. */
  function Train(invs: seq<I.Inverse>, versionSchema: string, now: int, views: bool): seq<Command>
    requires invs != []
  {
    var n := |invs| - 1;
    Intermediates(invs, now, n) + [CmdStart(invs[n].name, InverseMigration(invs[n], versionSchema), now + n, views)]
  }

  /** The inverses' names differ, and time moves on. */
  ghost predicate Timed(rows: seq<Row>, invs: seq<I.Inverse>, now: int)
  {
    && (forall r | r in rows :: r.createdAt < now)
    && (forall i, j :: 0 <= i < j < |invs| ==> invs[i].name != invs[j].name)
  }

  /** The first `j` names are free. */
  ghost predicate FreeUpTo(rows: seq<Row>, invs: seq<I.Inverse>, j: nat)
  {
    j <= |invs| && forall i :: 0 <= i < j ==> invs[i].name !in RowNames(rows)
  }

  function IntermediateRow(rows: seq<Row>, name: string, m: Migration, at: int): Row
  {
    var r := NewRow(rows, name, m, at);
    if m.CompleteMustBeDeferred() then r.(done := true, deferred := true, viaDeferral := true) else r.(done := true, contracting := true)
  }

  lemma UpdateLast(rows: seq<Row>, r: Row, f: Row -> Row)
    requires r.name !in RowNames(rows)
    ensures Updated(rows + [r], r.name, f) == rows + [f(r)]
  {
    assert forall i :: 0 <= i < |rows| ==> rows[i] in rows && rows[i].name != r.name;
  }

  /** What a Start needs: nothing active, the name free, and a later timestamp. */
  ghost predicate Free(rows: seq<Row>, name: string, at: int)
  {
    AllDone(rows) && name !in RowNames(rows) && forall r | r in rows :: r.createdAt < at
  }

  lemma StartedRows(db: DB, name: string, m: Migration, at: int)
    requires Free(db.rows, name, at)
    ensures StartProgram(db, name, m, at, false) != []
    ensures Run(db, StartProgram(db, name, m, at, false)).rows == db.rows + [NewRow(db.rows, name, m, at)]
  {
    var r := NewRow(db.rows, name, m, at);
    var start := [Insert(r), OtherDDL];
    assert StartProgram(db, name, m, at, false) == start + [];
    assert start + [] == start;
    RunTwo(db, Insert(r), OtherDDL);
  }

  lemma InlineRows(db: DB, name: string)
    ensures Run(db, [BeginComplete(name), EndComplete(name), SetDone(name)]).rows == Updated(Updated(db.rows, name, Begin), name, MarkDone)
  {
    var two := [BeginComplete(name), EndComplete(name)];
    assert [BeginComplete(name), EndComplete(name), SetDone(name)] == two + [SetDone(name)];
    RunAppend(db, two, SetDone(name));
    RunTwo(db, BeginComplete(name), EndComplete(name));
  }

  lemma IntermediateTail(rows: seq<Row>, r: Row)
    requires r.name !in RowNames(rows) && !r.done
    ensures Updated(rows + [r], r.name, MarkDeferred) == rows + [r.(done := true, deferred := true, viaDeferral := true)]
    ensures Updated(Updated(rows + [r], r.name, Begin), r.name, MarkDone) == rows + [r.(done := true, contracting := true)]
  {
    UpdateLast(rows, r, MarkDeferred);
    UpdateLast(rows, r, Begin);
    UpdateLast(rows, Begin(r), MarkDone);
  }

  /** An intermediate adds one row, done and either queued or completed inline, and touches no other. */
  lemma IntermediateRows(db: DB, name: string, m: Migration, at: int)
    requires Free(db.rows, name, at)
    ensures Run(db, Program(db, CmdIntermediate(name, m, at))).rows == db.rows + [IntermediateRow(db.rows, name, m, at)]
  {
    hide Run, Apply, StartProgram, Linear;
    StartedRows(db, name, m, at);
    var start := StartProgram(db, name, m, at, false);
    var db1, r := Run(db, start), NewRow(db.rows, name, m, at);
    IntermediateTail(db.rows, r);
    if m.CompleteMustBeDeferred() {
      RunConcat(db, start, [SetDeferred(name)]);
      DeferredRows(db1, name);
    } else {
      RunConcat(db, start, [BeginComplete(name), EndComplete(name), SetDone(name)]);
      InlineRows(db1, name);
    }
  }

  lemma DeferredRows(db: DB, name: string)
    ensures Run(db, [SetDeferred(name)]).rows == Updated(db.rows, name, MarkDeferred)
  {
    RunOne(db, SetDeferred(name));
  }

  /** The rows the first `j` inverses have added. */
  ghost predicate OnTop(rows: seq<Row>, cur: seq<Row>, invs: seq<I.Inverse>, now: int, j: nat)
  {
    && j <= |invs| && |cur| == |rows| + j && cur[..|rows|] == rows && Linear(cur) && AllDone(cur)
    && forall i :: 0 <= i < j ==> IsTrainRow(cur[|rows| + i], invs[i], now + i)
  }

  ghost predicate IsTrainRow(r: Row, inv: I.Inverse, at: int)
  {
    && r.name == inv.name && r.migration == InverseMigration(inv, "") && r.kind == Pgroll && r.createdAt == at
    && r.done && !r.sealed && r.deferred == r.migration.CompleteMustBeDeferred()
  }

  lemma FreeName(rows: seq<Row>, cur: seq<Row>, invs: seq<I.Inverse>, now: int, j: nat)
    requires OnTop(rows, cur, invs, now, j) && Timed(rows, invs, now) && j < |invs| && invs[j].name !in RowNames(rows)
    ensures Free(cur, invs[j].name, now + j)
  {
    forall i | 0 <= i < |cur| ensures cur[i].name != invs[j].name && cur[i].createdAt < now + j {
      if i < |rows| {
        assert cur[i] == rows[i] && rows[i] in rows;
      } else {
        assert IsTrainRow(cur[|rows| + (i - |rows|)], invs[i - |rows|], now + (i - |rows|));
      }
    }
  }

  lemma AddOnTop(rows: seq<Row>, cur: seq<Row>, invs: seq<I.Inverse>, now: int, j: nat, r: Row)
    requires OnTop(rows, cur, invs, now, j) && j < |invs| && Linear(cur + [r]) && IsTrainRow(r, invs[j], now + j)
    ensures OnTop(rows, cur + [r], invs, now, j + 1)
  {
    var more := cur + [r];
    assert more[..|rows|] == cur[..|rows|];
    forall i | 0 <= i < j + 1 ensures IsTrainRow(more[|rows| + i], invs[i], now + i) {
      if i < j {
        assert IsTrainRow(cur[|rows| + i], invs[i], now + i);
      }
    }
  }

  lemma {:induction false} TrainRows(db: DB, invs: seq<I.Inverse>, now: int, j: nat)
    requires Linear(db.rows) && AllDone(db.rows) && Timed(db.rows, invs, now) && FreeUpTo(db.rows, invs, j)
    ensures OnTop(db.rows, Carry(db, Intermediates(invs, now, j)).rows, invs, now, j)
    decreases j
  {
    hide *;
    if j == 0 {
      NothingOnTop(db, invs, now);
    } else {
      FreeStep(db.rows, invs, j - 1);
      TrainRows(db, invs, now, j - 1);
      var cs, c := Intermediates(invs, now, j - 1), Intermediate(invs[j - 1], now + j - 1);
      IntermediatesStep(invs, now, j - 1);
      var db1 := Carry(db, cs);
      CarryConcat(db, cs, [c]);
      CarryOne(db1, c);
      FreeName(db.rows, db1.rows, invs, now, j - 1);
      NextTrainRow(db, db1, invs, now, j - 1);
    }
  }

  lemma FreeStep(rows: seq<Row>, invs: seq<I.Inverse>, j: nat)
    requires FreeUpTo(rows, invs, j + 1)
    ensures j < |invs| && FreeUpTo(rows, invs, j) && invs[j].name !in RowNames(rows)
  {
  }

  lemma NotFree(rows: seq<Row>, invs: seq<I.Inverse>, i: nat)
    requires i < |invs| && invs[i].name in RowNames(rows)
    ensures !FreeUpTo(rows, invs, |invs|)
  {
  }

  lemma NothingOnTop(db: DB, invs: seq<I.Inverse>, now: int)
    requires Linear(db.rows) && AllDone(db.rows)
    ensures OnTop(db.rows, Carry(db, Intermediates(invs, now, 0)).rows, invs, now, 0)
  {
    assert Intermediates(invs, now, 0) == [];
    hide Linear;
  }

  lemma IntermediatesStep(invs: seq<I.Inverse>, now: int, j: nat)
    requires j < |invs|
    ensures Intermediates(invs, now, j + 1) == Intermediates(invs, now, j) + [Intermediate(invs[j], now + j)]
  {
  }

  lemma NextTrainRow(db: DB, db1: DB, invs: seq<I.Inverse>, now: int, j: nat)
    requires OnTop(db.rows, db1.rows, invs, now, j) && j < |invs|
    requires Free(db1.rows, invs[j].name, now + j)
    ensures OnTop(db.rows, Run(db1, Program(db1, Intermediate(invs[j], now + j))).rows, invs, now, j + 1)
  {
    hide *;
    var m := InverseMigration(invs[j], "");
    IntermediateRows(db1, invs[j].name, m, now + j);
    OnTopIs(db.rows, db1.rows, invs, now, j);
    IntermediateAppends(db1.rows, invs[j], now + j);
    AddOnTop(db.rows, db1.rows, invs, now, j, IntermediateRow(db1.rows, invs[j].name, m, now + j));
    IntermediateIs(invs[j], now + j);
  }

  lemma IntermediateIs(inv: I.Inverse, at: int)
    ensures Intermediate(inv, at) == CmdIntermediate(inv.name, InverseMigration(inv, ""), at)
  {
  }

  lemma IntermediateAppends(rows: seq<Row>, inv: I.Inverse, at: int)
    requires Linear(rows) && Free(rows, inv.name, at)
    ensures var r := IntermediateRow(rows, inv.name, InverseMigration(inv, ""), at);
            Linear(rows + [r]) && IsTrainRow(r, inv, at)
  {
    hide Linear, InverseMigration, AllDone;
    LinearAppend(rows, IntermediateRow(rows, inv.name, InverseMigration(inv, ""), at));
  }

  /** The train with its last inverse active: what an expand-only revert leaves. */
  ghost predicate Expanded(rows: seq<Row>, cur: seq<Row>, invs: seq<I.Inverse>, versionSchema: string, now: int)
  {
    && invs != [] && |cur| == |rows| + |invs| && Linear(cur)
    && OnTop(rows, cur[..|cur| - 1], invs, now, |invs| - 1)
    && cur[|cur| - 1] == NewRow(cur[..|cur| - 1], invs[|invs| - 1].name, InverseMigration(invs[|invs| - 1], versionSchema), now + |invs| - 1)
  }

  lemma StartRows(db: DB, name: string, m: Migration, at: int, project: bool)
    requires Free(db.rows, name, at)
    ensures Run(db, Program(db, CmdStart(name, m, at, project))).rows == db.rows + [NewRow(db.rows, name, m, at)]
  {
    var r := NewRow(db.rows, name, m, at);
    var start, view := [Insert(r), OtherDDL], if project then [CreateSchema(r.VersionSchema())] else [];
    assert StartProgram(db, name, m, at, project) == start + view;
    RunConcat(db, start, view);
    RunTwo(db, Insert(r), OtherDDL);
    if project {
      RunOne(Run(db, start), CreateSchema(r.VersionSchema()));
    }
  }

  lemma TrainExpands(db: DB, invs: seq<I.Inverse>, versionSchema: string, now: int, views: bool)
    requires Linear(db.rows) && AllDone(db.rows) && Timed(db.rows, invs, now) && FreeUpTo(db.rows, invs, |invs|) && invs != []
    ensures Expanded(db.rows, Carry(db, Train(invs, versionSchema, now, views)).rows, invs, versionSchema, now)
  {
    hide *;
    var n := |invs| - 1;
    FreeStep(db.rows, invs, n);
    var cs, m := Intermediates(invs, now, n), InverseMigration(invs[n], versionSchema);
    var c := CmdStart(invs[n].name, m, now + n, views);
    TrainRows(db, invs, now, n);
    var db1 := Carry(db, cs);
    FreeName(db.rows, db1.rows, invs, now, n);
    OnTopIs(db.rows, db1.rows, invs, now, n);
    StartRows(db1, invs[n].name, m, now + n, views);
    TrainIs(invs, versionSchema, now, views);
    CarryConcat(db, cs, [c]);
    CarryOne(db1, c);
    LastStarted(db.rows, db1.rows, invs, versionSchema, now);
  }

  lemma OnTopIs(rows: seq<Row>, cur: seq<Row>, invs: seq<I.Inverse>, now: int, j: nat)
    requires OnTop(rows, cur, invs, now, j)
    ensures Linear(cur) && AllDone(cur)
  {
  }

  lemma TrainIs(invs: seq<I.Inverse>, versionSchema: string, now: int, views: bool)
    requires invs != []
    ensures var n := |invs| - 1;
            Train(invs, versionSchema, now, views) ==
            Intermediates(invs, now, n) + [CmdStart(invs[n].name, InverseMigration(invs[n], versionSchema), now + n, views)]
  {
  }

  lemma LastStarted(rows: seq<Row>, base: seq<Row>, invs: seq<I.Inverse>, versionSchema: string, now: int)
    requires invs != [] && OnTop(rows, base, invs, now, |invs| - 1)
    requires Free(base, invs[|invs| - 1].name, now + |invs| - 1)
    ensures Expanded(rows, base + [NewRow(base, invs[|invs| - 1].name, InverseMigration(invs[|invs| - 1], versionSchema), now + |invs| - 1)],
                     invs, versionSchema, now)
  {
    var r := NewRow(base, invs[|invs| - 1].name, InverseMigration(invs[|invs| - 1], versionSchema), now + |invs| - 1);
    LinearAppend(base, r);
    hide OnTop, Linear, InverseMigration;
    assert (base + [r])[..|base|] == base;
    SizeOnTop(rows, base, invs, now, |invs| - 1);
  }

  lemma SizeOnTop(rows: seq<Row>, cur: seq<Row>, invs: seq<I.Inverse>, now: int, j: nat)
    requires OnTop(rows, cur, invs, now, j)
    ensures |cur| == |rows| + j && cur[..|rows|] == rows && j <= |invs|
  {
  }

  // ----- Completing it -----

  lemma {:induction false} ActiveIsLast(rows: seq<Row>, r: Row)
    requires AllDone(rows) && !r.done
    ensures HasActive(rows + [r]) && Active(rows + [r]) == r
  {
    assert (rows + [r])[|rows|] == r;
    if rows != [] {
      assert (rows + [r])[1..] == rows[1..] + [r];
      ActiveIsLast(rows[1..], r);
    }
  }

  /** The train once its last inverse has completed: everything settled. */
  function Settled(cur: seq<Row>): seq<Row>
    requires cur != []
  {
    Updated(FinalRows(cur), cur[|cur| - 1].name, CompleteRow)
  }

  lemma CompleteSettles(db: DB, rows: seq<Row>, invs: seq<I.Inverse>, versionSchema: string, now: int, views: bool)
    requires Expanded(rows, db.rows, invs, versionSchema, now)
    ensures Run(db, Program(db, CmdComplete(views))).rows == Settled(db.rows)
  {
    hide *;
    var r := ExpandedActive(rows, db.rows, invs, versionSchema, now);
    CompletedRows(db, r, views);
    CompleteIs(db, views);
  }

  lemma CompleteIs(db: DB, views: bool)
    requires HasActive(db.rows)
    ensures Program(db, CmdComplete(views)) == CompleteProgram(db, Active(db.rows), views)
    ensures db.rows != [] && Settled(db.rows) == Updated(FinalRows(db.rows), db.rows[|db.rows| - 1].name, CompleteRow)
  {
    hide CompleteProgram, FinalRows, Active, Updated;
  }

  lemma ExpandedActive(rows: seq<Row>, cur: seq<Row>, invs: seq<I.Inverse>, versionSchema: string, now: int) returns (r: Row)
    requires Expanded(rows, cur, invs, versionSchema, now)
    ensures cur != [] && r == cur[|cur| - 1] && HasActive(cur) && Active(cur) == r && OnlyActive(cur, r) && DistinctRows(cur)
  {
    var base := cur[..|cur| - 1];
    r := cur[|cur| - 1];
    assert cur == base + [r];
    ActiveIsLast(base, r);
    assert forall i :: 0 <= i < |base| ==> cur[i] == base[i];
  }

  /** The rows of `base` with a row of each inverse on top, every one of those sealed. */
  ghost predicate Topped(base: seq<Row>, cur: seq<Row>, invs: seq<I.Inverse>)
  {
    && |cur| == |base| + |invs| && cur[..|base|] == base
    && forall i :: 0 <= i < |invs| ==> IsSealedInverse(cur[|base| + i], invs[i])
  }

  ghost predicate IsSealedInverse(r: Row, inv: I.Inverse)
  {
    r.name == inv.name && r.migration.revertOf == inv.revertOf && r.kind == Pgroll && r.sealed
  }

  /** Settling changes neither names nor order nor what a row undoes. */
  lemma SettledIs(rows: seq<Row>, cur: seq<Row>, invs: seq<I.Inverse>, versionSchema: string, now: int)
    requires Expanded(rows, cur, invs, versionSchema, now)
    ensures cur != [] && Linear(Settled(cur)) && Topped(FinalRows(rows), Settled(cur), invs)
  {
    hide *;
    ExpandedIs(rows, cur, invs, versionSchema, now);
    SettledAt(cur);
    LinearSameChain(cur, Settled(cur));
    forall i | 0 <= i < |invs| ensures IsSealedInverse(Settled(cur)[|rows| + i], invs[i]) {
      ExpandedAt(rows, cur, invs, versionSchema, now, i);
      SettledInverse(cur, |rows| + i, invs[i]);
    }
    SettledPrefix(rows, cur);
    ToppedIs(FinalRows(rows), Settled(cur), invs);
  }

  lemma ToppedIs(base: seq<Row>, cur: seq<Row>, invs: seq<I.Inverse>)
    requires |cur| == |base| + |invs| && cur[..|base|] == base
    requires forall i :: 0 <= i < |invs| ==> IsSealedInverse(cur[|base| + i], invs[i])
    ensures Topped(base, cur, invs)
  {
  }

  lemma ExpandedIs(rows: seq<Row>, cur: seq<Row>, invs: seq<I.Inverse>, versionSchema: string, now: int)
    requires Expanded(rows, cur, invs, versionSchema, now)
    ensures invs != [] && |cur| == |rows| + |invs| && Linear(cur) && cur[..|rows|] == rows
    ensures forall i :: 0 <= i < |rows| ==> cur[i].name != cur[|cur| - 1].name
  {
    SizeOnTop(rows, cur[..|cur| - 1], invs, now, |invs| - 1);
    assert cur[..|cur| - 1][..|rows|] == cur[..|rows|];
    hide OnTop;
  }

  lemma ExpandedAt(rows: seq<Row>, cur: seq<Row>, invs: seq<I.Inverse>, versionSchema: string, now: int, i: nat)
    requires Expanded(rows, cur, invs, versionSchema, now) && i < |invs|
    ensures |cur| == |rows| + |invs|
    ensures var r := cur[|rows| + i]; r.name == invs[i].name && r.migration.revertOf == invs[i].revertOf && r.kind == Pgroll
  {
    if i < |invs| - 1 {
      assert IsTrainRow(cur[..|cur| - 1][|rows| + i], invs[i], now + i);
    }
    hide Linear;
  }

  lemma SettledAt(cur: seq<Row>)
    requires cur != []
    ensures SameChain(cur, Settled(cur))
    ensures forall i :: 0 <= i < |cur| && cur[i].name != cur[|cur| - 1].name ==> Settled(cur)[i] == FinalRows(cur)[i]
  {
  }

  lemma SettledInverse(cur: seq<Row>, i: nat, inv: I.Inverse)
    requires i < |cur| && cur[i].name == inv.name && cur[i].migration.revertOf == inv.revertOf && cur[i].kind == Pgroll
    ensures |Settled(cur)| == |cur| && IsSealedInverse(Settled(cur)[i], inv)
  {
  }

  lemma SettledPrefix(rows: seq<Row>, cur: seq<Row>)
    requires cur != [] && |Settled(cur)| == |cur| && |rows| <= |cur| && cur[..|rows|] == rows
    requires forall i :: 0 <= i < |rows| ==> Settled(cur)[i] == FinalRows(cur)[i]
    ensures |FinalRows(rows)| == |rows| && Settled(cur)[..|rows|] == FinalRows(rows)
  {
    hide Settled;
    assert forall i :: 0 <= i < |rows| ==> cur[..|rows|][i] == cur[i];
  }

  // ----- What the completed train leaves -----

  function OneShot(invs: seq<I.Inverse>, versionSchema: string, now: int, views: bool): seq<Command>
    requires invs != []
  {
    Train(invs, versionSchema, now, views) + [CmdComplete(views)]
  }

  /** The rows a plan may be carried out on: nothing active, a segment to revert, and later timestamps. */
  ghost predicate Runnable(rows: seq<Row>, k: nat, invs: seq<I.Inverse>, now: int)
  {
    && Linear(rows) && AllDone(rows) && MirrorsSegment(rows, k, invs) && invs != []
    && forall r | r in rows :: r.createdAt < now
  }

  /** And the train gets through: no recorded migration bears an inverse's name. */
  ghost predicate CanRun(rows: seq<Row>, k: nat, invs: seq<I.Inverse>, now: int)
  {
    Runnable(rows, k, invs, now) && FreeUpTo(rows, invs, |invs|)
  }

  lemma RunTimed(rows: seq<Row>, k: nat, invs: seq<I.Inverse>, now: int)
    requires Runnable(rows, k, invs, now)
    ensures Timed(rows, invs, now)
  {
    forall i, j | 0 <= i < j < |invs| ensures invs[i].name != invs[j].name {
      assert rows[|rows| - 1 - i].name != rows[|rows| - 1 - j].name;
      SamePrefixed(invs[i].revertOf, invs[j].revertOf);
    }
  }

  lemma SamePrefixed(a: string, b: string)
    ensures "revert_" + a == "revert_" + b ==> a == b
  {
    assert ("revert_" + a)[7..] == a && ("revert_" + b)[7..] == b;
  }

  /** The run of the whole train, from a history that can run it, is the settled history with the inverses on top. */
  lemma TrainReverts(db: DB, k: nat, invs: seq<I.Inverse>, versionSchema: string, now: int, views: bool)
    requires CanRun(db.rows, k, invs, now)
    ensures var end := Carry(db, OneShot(invs, versionSchema, now, views)).rows;
            Linear(end) && Reverted(FinalRows(db.rows), k, end) && AllSealed(end)
  {
    hide *;
    CanRunIs(db.rows, k, invs, now);
    RunTimed(db.rows, k, invs, now);
    var train := Train(invs, versionSchema, now, views);
    TrainExpands(db, invs, versionSchema, now, views);
    var up := Carry(db, train);
    CompleteSettles(up, db.rows, invs, versionSchema, now, views);
    OneShotIs(invs, versionSchema, now, views);
    CarryConcat(db, train, [CmdComplete(views)]);
    CarryOne(up, CmdComplete(views));
    SettledReverts(db.rows, k, up.rows, invs, versionSchema, now);
  }

  lemma CanRunIs(rows: seq<Row>, k: nat, invs: seq<I.Inverse>, now: int)
    requires CanRun(rows, k, invs, now)
    ensures Runnable(rows, k, invs, now) && FreeUpTo(rows, invs, |invs|)
    ensures Linear(rows) && AllDone(rows) && MirrorsSegment(rows, k, invs) && invs != [] && k + 1 < |rows|
  {
  }

  lemma OneShotIs(invs: seq<I.Inverse>, versionSchema: string, now: int, views: bool)
    requires invs != []
    ensures OneShot(invs, versionSchema, now, views) == Train(invs, versionSchema, now, views) + [CmdComplete(views)]
  {
  }

  lemma SettledReverts(rows: seq<Row>, k: nat, cur: seq<Row>, invs: seq<I.Inverse>, versionSchema: string, now: int)
    requires MirrorsSegment(rows, k, invs) && Expanded(rows, cur, invs, versionSchema, now)
    ensures cur != [] && Linear(Settled(cur)) && Reverted(FinalRows(rows), k, Settled(cur)) && AllSealed(Settled(cur))
  {
    hide *;
    SettledIs(rows, cur, invs, versionSchema, now);
    FinalNames(rows);
    ToppedReverts(rows, FinalRows(rows), k, Settled(cur), invs);
  }

  lemma FinalNames(rows: seq<Row>)
    ensures |FinalRows(rows)| == |rows| && forall i :: 0 <= i < |rows| ==> FinalRows(rows)[i].name == rows[i].name
    ensures AllSealed(FinalRows(rows))
  {
  }

  lemma ToppedReverts(rows: seq<Row>, base: seq<Row>, k: nat, end: seq<Row>, invs: seq<I.Inverse>)
    requires MirrorsSegment(rows, k, invs) && Topped(base, end, invs) && AllSealed(base)
    requires |base| == |rows| && forall i :: 0 <= i < |rows| ==> base[i].name == rows[i].name
    ensures Reverted(base, k, end) && AllSealed(end)
  {
    forall i | |rows| <= i < |end| ensures IsInverseOf(end[i], base[2 * |rows| - 1 - i]) && end[i].sealed {
      var j := i - |rows|;
      assert IsSealedInverse(end[|base| + j], invs[j]);
    }
    forall i | 0 <= i < |rows| ensures end[i] == base[i] && end[i].sealed {
      assert end[..|base|][i] == end[i];
    }
  }

  /** The history settles without a change exactly when nothing in it is queued. */
  lemma SettledUnchanged(rows: seq<Row>, n: nat)
    requires AllSealed(rows) && n <= |rows|
    ensures FinalRows(rows)[..n] == rows[..n] <==> forall i :: 0 <= i < n ==> !rows[i].deferred
  {
    if forall i :: 0 <= i < n ==> !rows[i].deferred {
      assert forall i :: 0 <= i < n ==> FinalRows(rows)[i] == rows[i];
    } else {
      var i :| 0 <= i < n && rows[i].deferred;
      assert FinalRows(rows)[..n][i] != rows[..n][i];
    }
  }

  /** The train leaves the old history untouched exactly when nothing in it was queued. */
  lemma UntouchedIffNothingQueued(db: DB, k: nat, invs: seq<I.Inverse>, versionSchema: string, now: int, views: bool)
    requires CanRun(db.rows, k, invs, now) && AllSealed(db.rows)
    ensures Reverted(db.rows, k, Carry(db, OneShot(invs, versionSchema, now, views)).rows) <==>
            forall i :: 0 <= i < |db.rows| ==> !db.rows[i].deferred
  {
    hide *;
    CanRunIs(db.rows, k, invs, now);
    TrainReverts(db, k, invs, versionSchema, now, views);
    SettledUnchanged(db.rows, |db.rows|);
    FinalNames(db.rows);
    assert FinalRows(db.rows)[..|db.rows|] == FinalRows(db.rows) && db.rows[..|db.rows|] == db.rows;
    SameReverted(FinalRows(db.rows), db.rows, k, Carry(db, OneShot(invs, versionSchema, now, views)).rows);
  }

  lemma SameReverted(base: seq<Row>, rows: seq<Row>, k: nat, end: seq<Row>)
    requires Reverted(base, k, end) && |base| == |rows|
    ensures Reverted(rows, k, end) <==> base == rows
  {
    if Reverted(rows, k, end) {
      assert forall i :: 0 <= i < |rows| ==> base[i] == end[i] && rows[i] == end[i];
    }
  }

  // ----- The one-shot prune -----

  /** The plan's names are those of every row above the boundary, each once. */
  lemma PlanNamesAbove(rows: seq<Row>, k: nat, invs: seq<I.Inverse>, end: seq<Row>)
    requires MirrorsSegment(rows, k, invs) && Linear(end) && Reverted(FinalRows(rows), k, end)
    ensures NameSet(PlanNames(invs)) == NamesBetween(end, k + 1, |end|)
    ensures CanPrune(end, PlanNames(invs))
  {
    hide *;
    FinalNames(rows);
    PlanIsWalk(rows, FinalRows(rows), k, invs, end);
    TrainSize(FinalRows(rows), k, end);
    var n := |rows|;
    var down, up := Downwards(end, k + 1, n), Upwards(end, n, |end|);
    WalkNames(end, k + 1, n);
    WalkNames(end, n, |end|);
    ExactNames(end, k, n, down, up);
    WalkOnce(end, k + 1, n);
  }

  /** The plan names the segment downwards, then the train upwards. */
  lemma PlanIsWalk(rows: seq<Row>, base: seq<Row>, k: nat, invs: seq<I.Inverse>, end: seq<Row>)
    requires MirrorsSegment(rows, k, invs) && Reverted(base, k, end)
    requires |base| == |rows| && forall i :: 0 <= i < |rows| ==> base[i].name == rows[i].name
    ensures |rows| <= |end| && PlanNames(invs) == Downwards(end, k + 1, |rows|) + Upwards(end, |rows|, |end|)
  {
    forall i | 0 <= i < |invs| ensures InversesOf(invs)[i] == end[|rows| + i].name {
      assert IsInverseOf(end[|rows| + i], base[|rows| - 1 - i]);
    }
    hide IsInverseOf;
    assert TargetsOf(invs) == Downwards(end, k + 1, |rows|);
    assert InversesOf(invs) == Upwards(end, |rows|, |end|);
  }

  /** Walking down to `n` from the segment's end and then up from there meets every row once. */
  lemma WalkOnce(end: seq<Row>, lo: nat, n: nat)
    requires Linear(end) && lo <= n <= |end|
    ensures CanPrune(end, Downwards(end, lo, n) + Upwards(end, n, |end|))
  {
    var names := Downwards(end, lo, n) + Upwards(end, n, |end|);
    forall x | x in NameSet(names) ensures x in RowNames(end) {
      var i :| 0 <= i < |names| && names[i] == x;
      assert end[if i < n - lo then n - 1 - i else lo + i] in end;
    }
    forall i, j | 0 <= i < j < |names| ensures names[i] != names[j] {
      var a, b := if i < n - lo then n - 1 - i else lo + i, if j < n - lo then n - 1 - j else lo + j;
      assert names[i] == end[a].name && names[j] == end[b].name && a != b;
    }
  }

  /** The rows a one-shot revert ends with. */
  ghost function OneShotRows(db: DB, invs: seq<I.Inverse>, versionSchema: string, now: int, views: bool): seq<Row>
    requires invs != []
  {
    Pruned(Carry(db, OneShot(invs, versionSchema, now, views)).rows, NameSet(PlanNames(invs)))
  }

  /** The rows an expand-only revert ends with, once completed and finished from history alone. */
  ghost function SplitRows(db: DB, invs: seq<I.Inverse>, versionSchema: string, now: int, views: bool): seq<Row>
    requires invs != []
  {
    var up := Carry(db, Train(invs, versionSchema, now, views));
    var end := Run(up, Program(up, CmdComplete(views))).rows;
    FinishedRows(end, PendingOutcome(end))
  }

  lemma PrunedToBoundary(base: seq<Row>, k: nat, end: seq<Row>, names: set<string>)
    requires Linear(end) && Reverted(base, k, end) && names == NamesBetween(end, k + 1, |end|)
    ensures Pruned(end, names) == base[..k + 1]
  {
    SamePrefix(base, k, end);
    hide Reverted;
    forall i | 0 <= i < |end| ensures end[i].name in names <==> i >= k + 1 {
    }
    PruneSuffix(end, names, k + 1);
  }

  /**
   * A one-shot sealed revert: the prune cannot fail, and what is left is the history up to the boundary
   * with its parents, every row settled; it is exactly the original one when nothing at or below the
   * boundary was queued.
   */
  lemma OneShotRestores(db: DB, k: nat, invs: seq<I.Inverse>, versionSchema: string, now: int, views: bool)
    requires CanRun(db.rows, k, invs, now)
    ensures CanPrune(Carry(db, OneShot(invs, versionSchema, now, views)).rows, PlanNames(invs))
    ensures k < |db.rows| && OneShotRows(db, invs, versionSchema, now, views) == FinalRows(db.rows)[..k + 1]
    ensures AllSealed(db.rows) ==> (OneShotRows(db, invs, versionSchema, now, views) == db.rows[..k + 1]
                                    <==> forall i :: 0 <= i <= k ==> !db.rows[i].deferred)
  {
    hide *;
    CanRunIs(db.rows, k, invs, now);
    TrainReverts(db, k, invs, versionSchema, now, views);
    var end := Carry(db, OneShot(invs, versionSchema, now, views)).rows;
    PlanNamesAbove(db.rows, k, invs, end);
    PrunedToBoundary(FinalRows(db.rows), k, end, NameSet(PlanNames(invs)));
    OneShotRowsIs(db, invs, versionSchema, now, views);
    if AllSealed(db.rows) {
      SettledUnchanged(db.rows, k + 1);
    }
  }

  lemma OneShotRowsIs(db: DB, invs: seq<I.Inverse>, versionSchema: string, now: int, views: bool)
    requires invs != []
    ensures OneShotRows(db, invs, versionSchema, now, views) ==
            Pruned(Carry(db, OneShot(invs, versionSchema, now, views)).rows, NameSet(PlanNames(invs)))
  {
  }

  /**
   * The split revert: expand only, complete, then finish from history alone. It leaves what the one-shot run
   * leaves exactly when the boundary is the baseline or is not itself an inverse, and no inverse was above it.
   */
  lemma SplitRestores(db: DB, k: nat, invs: seq<I.Inverse>, versionSchema: string, now: int, views: bool)
    requires CanRun(db.rows, k, invs, now) && HasSegment(db.rows, k)
    ensures k < |db.rows|
    ensures SplitRows(db, invs, versionSchema, now, views) == OneShotRows(db, invs, versionSchema, now, views)
            <==> (k + 1 == VisibleFrom(db.rows) || db.rows[k].migration.revertOf == "") && NoInverseAbove(db.rows, k)
  {
    hide *;
    CanRunIs(db.rows, k, invs, now);
    TrainReverts(db, k, invs, versionSchema, now, views);
    OneShotRestores(db, k, invs, versionSchema, now, views);
    SplitRowsIs(db, invs, versionSchema, now, views);
    FinalSegment(db.rows, k);
    FinishRestores(FinalRows(db.rows), k, Carry(db, OneShot(invs, versionSchema, now, views)).rows);
  }

  lemma SplitRowsIs(db: DB, invs: seq<I.Inverse>, versionSchema: string, now: int, views: bool)
    requires invs != []
    ensures var end := Carry(db, OneShot(invs, versionSchema, now, views)).rows;
            SplitRows(db, invs, versionSchema, now, views) == FinishedRows(end, PendingOutcome(end))
  {
    hide Carry, Train, FinishedRows, PendingOutcome, Program;
    CarryConcat(db, Train(invs, versionSchema, now, views), [CmdComplete(views)]);
    CarryOne(Carry(db, Train(invs, versionSchema, now, views)), CmdComplete(views));
  }

  /** Settling keeps the shape of a history. */
  lemma FinalSegment(rows: seq<Row>, k: nat)
    requires Linear(rows) && HasSegment(rows, k)
    ensures Linear(FinalRows(rows)) && HasSegment(FinalRows(rows), k) && VisibleFrom(FinalRows(rows)) == VisibleFrom(rows)
    ensures FinalRows(rows)[k].migration == rows[k].migration && NoInverseAbove(FinalRows(rows), k) == NoInverseAbove(rows, k)
  {
    LinearSameChain(rows, FinalRows(rows));
    hide Linear;
    SameKinds(rows, FinalRows(rows));
    assert forall i :: 0 <= i < |rows| ==> FinalRows(rows)[i].migration == rows[i].migration;
  }

  lemma {:induction false} SameKinds(a: seq<Row>, b: seq<Row>)
    requires |a| == |b| && forall i :: 0 <= i < |a| ==> a[i].kind == b[i].kind
    ensures VisibleFrom(a) == VisibleFrom(b)
  {
    if a != [] {
      SameKinds(a[..|a| - 1], b[..|b| - 1]);
    }
  }
}
