/** A queue whose contraction is not crash-safe comes about in ordinary use. */
module UnsafeQueue {
  import opened Contract
  import opened Database
  import opened History
  import opened InverseTrain
  import opened Lifecycle
  import opened LiveSchema
  import opened Recovery
  import opened Revert
  import opened State

  const EMPTY := DB([], [], [])

  function MigrationOf(ops: seq<OpClass>): Migration
  {
    Migration(ops, false, "", "")
  }

  const RAW := MigrationOf([RawOnComplete])
  const DROP := MigrationOf([Contracting])
  const ADD := MigrationOf([Additive])

  /** A batch of three, raw SQL first, and then a revert of the newest. */
  const BATCH := [CmdIntermediate("a", RAW, 1), CmdIntermediate("b", DROP, 2), CmdStart("c", ADD, 3, true)]

  lemma Deferral()
    ensures RAW.CompleteMustBeDeferred() && DROP.CompleteMustBeDeferred() && RAW.CompleteRequiresLiveSchemaDrop()
    ensures !DROP.CompleteRequiresLiveSchemaDrop()
  {
    assert RAW.ops[0].RawOnComplete? && DROP.ops[0].Contracting?;
  }

  function Queued(rows: seq<Row>, name: string, m: Migration, at: int): Row
  {
    NewRow(rows, name, m, at).(done := true, deferred := true, viaDeferral := true)
  }

  const ROW_A := Queued([], "a", RAW, 1)
  const ROW_B := Queued([ROW_A], "b", DROP, 2)
  const ROW_C := NewRow([ROW_A, ROW_B], "c", ADD, 3)

  /** What the batch leaves: two queued rows and an active one. */
  lemma BatchRows()
    ensures Carry(EMPTY, BATCH).rows == [ROW_A, ROW_B, ROW_C]
  {
    Deferral();
    FreeNames();
    hide Program, Run, StartProgram;
    var one := Run(EMPTY, Program(EMPTY, BATCH[0]));
    IntermediateRows(EMPTY, "a", RAW, 1);
    assert one.rows == [ROW_A];
    var two := Run(one, Program(one, BATCH[1]));
    IntermediateRows(one, "b", DROP, 2);
    assert two.rows == [ROW_A, ROW_B];
    StartRows(two, "c", ADD, 3, true);
    assert BATCH == [BATCH[0]] + [BATCH[1]] + [BATCH[2]];
    CarryConcat(EMPTY, [BATCH[0]] + [BATCH[1]], [BATCH[2]]);
    CarryConcat(EMPTY, [BATCH[0]], [BATCH[1]]);
    CarryOne(EMPTY, BATCH[0]);
    CarryOne(one, BATCH[1]);
    CarryOne(two, BATCH[2]);
  }

  lemma FreeNames()
    ensures Free([], "a", 1) && Free([ROW_A], "b", 2) && Free([ROW_A, ROW_B], "c", 3)
  {
    assert "a"[0] != "b"[0] && "a"[0] != "c"[0] && "b"[0] != "c"[0];
  }

  lemma WindowOfThree()
    ensures Window([ROW_A, ROW_B, ROW_C]) && |WindowTargets([ROW_A, ROW_B, ROW_C])| == 3
  {
    var rows := [ROW_A, ROW_B, ROW_C];
    assert OpenFrom(rows) == 0 by {
      assert forall i :: 0 <= i < |rows| ==> !rows[i].sealed;
    }
    TargetsAt(rows, 0);
  }

  /** Reverting the newest leaves the queue, and gives the row below its version schema. */
  lemma RevertLeaves(db: DB)
    requires db.rows == [ROW_A, ROW_B, ROW_C]
    ensures var end := Run(db, Program(db, CmdRevert(1, true))); end.rows == [ROW_A, ROW_B] && "b" in end.schemas
  {
    WindowOfThree();
    hide Window, WindowTargets, Run, Apply;
    RevertRows(db, 1, true);
    assert [ROW_A, ROW_B, ROW_C][..2] == [ROW_A, ROW_B];
    var undo, view := RollbackProgram(ROW_C), LeafProjection([ROW_A, ROW_B], true);
    assert RevertProgram(db.rows, 1, true) == undo + view;
    RunConcat(db, undo, view);
    var mid := Run(db, undo);
    RunOne(mid, CreateSchema("b"));
    CreatesSchema(mid, "b");
  }

  lemma CreatesSchema(db: DB, name: string)
    ensures name in Apply(db, CreateSchema(name)).schemas
  {
  }

  lemma TwoQueued(db: DB)
    requires db.rows == [ROW_A, ROW_B] && "b" in db.schemas
    ensures Linear(db.rows) && AllDone(db.rows) && Live(db.rows) == "b" && !SafeQueue(db.rows) && forall force :: !ContractionRefused(db, force, true)
  {
    Deferral();
    assert "a"[0] != "b"[0];
    assert db.rows[0].deferred && db.rows[0].migration.CompleteRequiresLiveSchemaDrop();
  }

  /**
   * From an empty database: a batch whose first migration queues raw SQL, and a revert of its newest one. The
   * leaf then has its version schema, and a contraction is accepted that a crash can keep from restoring it.
   */
  lemma UnsafeQueueReached() returns (run: seq<(Command, nat)>)
    ensures var db := Reach(EMPTY, run);
            && Linear(db.rows) && AllDone(db.rows) && db.rows != [] && Live(db.rows) in db.schemas
            && !ContractionRefused(db, false, true) && !AlwaysRestored(db)
  {
    hide *;
    BatchRows();
    var up := Carry(EMPTY, BATCH);
    RevertLeaves(up);
    CarryConcat(EMPTY, BATCH, [CmdRevert(1, true)]);
    CarryOne(up, CmdRevert(1, true));
    run := CarryIsReach(EMPTY, BATCH + [CmdRevert(1, true)]);
    var db := Reach(EMPTY, run);
    TwoQueued(db);
    LiveSchemaSurvives(db, false);
  }
}
