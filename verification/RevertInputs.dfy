/** Histories on which a sealed revert runs and fails as described: what the conditions rule out does occur. */
module RevertInputs {
  import opened Database
  import opened History
  import opened InverseTrain
  import opened Recovery
  import opened RevertSealed
  import opened SealedRevert
  import opened SchemaTables
  import I = Invert
  import O = Operations

  // ----- Segments of one and two operations -----

  function One(name: string, op: O.Op): I.Migration
  {
    I.Migration(name, [op])
  }

  lemma ReplayOne(s: O.TableSchema, op: O.Op, tainted: bool)
    requires !(tainted && I.ReadsPreState(op)) && I.Replay(s, op, I.Blind).Some?
    ensures I.ReplayOps(s, [op], tainted, I.Blind) == Some(I.Replayed([s], I.Replay(s, op, I.Blind).value, tainted || op.RawSQL?))
  {
    hide I.Replay;
    assert [op][1..] == [] && [s] + [] == [s];
    var next := I.Replay(s, op, I.Blind).value;
    assert I.ReplayOps(next, [], tainted || op.RawSQL?, I.Blind) == Some(I.Replayed([], next, tainted || op.RawSQL?));
  }

  lemma InvertOne(op: O.Op, pre: O.TableSchema)
    requires I.InvertOp(op, O.LiveOf(pre)).Some?
    ensures I.InvertOps([op], [pre]) == I.InvertOp(op, O.LiveOf(pre))
  {
    hide I.InvertOp, O.LiveOf;
    assert [op][1..] == [] && [pre][1..] == [] && I.InvertOps([], []) == Some([]);
    assert [] + I.InvertOp(op, O.LiveOf(pre)).value == I.InvertOp(op, O.LiveOf(pre)).value;
  }

  lemma InvertStep(migs: seq<I.Migration>, states: seq<seq<O.TableSchema>>)
    requires |states| == |migs| && migs != [] && forall i :: 0 <= i < |migs| ==> |states[i]| == |migs[i].ops|
    requires I.InvertMigrations(migs[1..], states[1..]).Some? && I.InvertOps(migs[0].ops, states[0]).Some?
    ensures I.InvertMigrations(migs, states) ==
            Some(I.InvertMigrations(migs[1..], states[1..]).value
                 + [I.Inverse("revert_" + migs[0].name, I.InvertOps(migs[0].ops, states[0]).value, migs[0].name)])
  {
    hide I.InvertOps;
  }

  lemma InvertedOne(a: string, p: O.Op, base: O.TableSchema)
    requires I.Replay(base, p, I.Blind).Some? && I.InvertOp(p, O.LiveOf(base)).Some?
    ensures I.Inverted([One(a, p)], base, I.Blind) == Some([I.Inverse("revert_" + a, I.InvertOp(p, O.LiveOf(base)).value, a)])
  {
    ReplayOne(base, p, false);
    InvertOne(p, base);
    hide I.Replay, I.InvertOp, I.ReplayOps, I.InvertOps, O.LiveOf;
    var end := I.Replay(base, p, I.Blind).value;
    assert [One(a, p)][1..] == [] && I.ReplaySegment(end, [], p.RawSQL?, I.Blind) == Some([]);
    assert [[base]] + [] == [[base]] && [[base]][1..] == [];
    assert I.ReplaySegment(base, [One(a, p)], false, I.Blind) == Some([[base]]);
    assert I.InvertMigrations([], []) == Some([]);
    InvertStep([One(a, p)], [[base]]);
    hide I.InvertMigrations;
    var inv := I.Inverse("revert_" + a, I.InvertOp(p, O.LiveOf(base)).value, a);
    assert [] + [inv] == [inv];
  }

  lemma ReplayTwo(a: string, p: O.Op, b: string, q: O.Op, base: O.TableSchema, mid: O.TableSchema)
    requires I.Replay(base, p, I.Blind) == Some(mid) && I.Replay(mid, q, I.Blind).Some? && !(p.RawSQL? && I.ReadsPreState(q))
    ensures I.ReplaySegment(base, [One(a, p), One(b, q)], false, I.Blind) == Some([[base], [mid]])
  {
    ReplayOne(base, p, false);
    ReplayOne(mid, q, p.RawSQL?);
    hide I.Replay, I.ReplayOps, I.ReadsPreState;
    var end := I.Replay(mid, q, I.Blind).value;
    var migs := [One(a, p), One(b, q)];
    assert migs[1..] == [One(b, q)] && [One(b, q)][1..] == [];
    assert I.ReplaySegment(end, [], p.RawSQL? || q.RawSQL?, I.Blind) == Some([]);
    assert [[mid]] + [] == [[mid]];
    assert I.ReplaySegment(mid, [One(b, q)], p.RawSQL?, I.Blind) == Some([[mid]]);
    assert [[base]] + [[mid]] == [[base], [mid]];
  }

  lemma InvertTwo(a: string, p: O.Op, b: string, q: O.Op, base: O.TableSchema, mid: O.TableSchema)
    requires I.InvertOp(p, O.LiveOf(base)).Some? && I.InvertOp(q, O.LiveOf(mid)).Some?
    ensures I.InvertMigrations([One(a, p), One(b, q)], [[base], [mid]]) ==
            Some([I.Inverse("revert_" + b, I.InvertOp(q, O.LiveOf(mid)).value, b), I.Inverse("revert_" + a, I.InvertOp(p, O.LiveOf(base)).value, a)])
  {
    InvertOne(p, base);
    InvertOne(q, mid);
    hide I.InvertOp, I.InvertOps, O.LiveOf;
    var migs, states := [One(a, p), One(b, q)], [[base], [mid]];
    assert migs[1..] == [One(b, q)] && [One(b, q)][1..] == [] && states[1..] == [[mid]] && [[mid]][1..] == [];
    assert I.InvertMigrations([], []) == Some([]);
    InvertStep([One(b, q)], [[mid]]);
    InvertStep(migs, states);
    hide I.InvertMigrations;
    var x, y := I.Inverse("revert_" + b, I.InvertOp(q, O.LiveOf(mid)).value, b), I.Inverse("revert_" + a, I.InvertOp(p, O.LiveOf(base)).value, a);
    assert [] + [x] == [x] && [x] + [y] == [x, y];
  }

  lemma InvertedTwo(a: string, p: O.Op, b: string, q: O.Op, base: O.TableSchema, mid: O.TableSchema)
    requires I.Replay(base, p, I.Blind) == Some(mid) && I.Replay(mid, q, I.Blind).Some? && !(p.RawSQL? && I.ReadsPreState(q))
    requires I.InvertOp(p, O.LiveOf(base)).Some? && I.InvertOp(q, O.LiveOf(mid)).Some?
    ensures I.Inverted([One(a, p), One(b, q)], base, I.Blind) ==
            Some([I.Inverse("revert_" + b, I.InvertOp(q, O.LiveOf(mid)).value, b), I.Inverse("revert_" + a, I.InvertOp(p, O.LiveOf(base)).value, a)])
  {
    ReplayTwo(a, p, b, q, base, mid);
    InvertTwo(a, p, b, q, base, mid);
    hide I.Replay, I.InvertOp, I.ReplaySegment, I.InvertMigrations, I.ReadsPreState, O.LiveOf;
  }

  // ----- Sealed histories -----

  /** A sealed row of one operation of the given class. */
  function SealedRow(name: string, parent: Option<string>, at: int, kind: Kind, op: OpClass, revertOf: string): Row
  {
    Row(name, parent, at, true, false, true, kind, Migration([op], false, revertOf, ""), false, false)
  }

  /** A history nothing of which is open, and a plan whose names are free. */
  lemma MakeCanRevert(d: DB, k: nat, store: Store, invs: seq<I.Inverse>, now: int)
    requires Linear(d.rows) && k + 1 < |d.rows| && FreeUpTo(d.rows, invs, |invs|) && PlannedInverses(d.rows, k, store) == Some(invs)
    requires forall i :: 0 <= i < |d.rows| ==> d.rows[i].sealed && d.rows[i].done && d.rows[i].kind != Baseline && d.rows[i].createdAt < now
    requires forall i :: 0 <= i < |d.rows| ==> Invertible(d.rows[i]) && d.rows[i].name != "" && store.clean(d.rows[i].name)
    ensures CanRevert(d, d.rows[k].name, k, store, invs, now)
  {
    PlanMirrors(d.rows, k, store);
    NoBaseline(d.rows);
    hide Linear, PlannedInverses, VisibleFrom, Invertible;
    assert !Open(d.rows) by {
      assert forall r | r in d.rows :: r.done && r.sealed;
    }
    assert MirrorsSegment(d.rows, k, invs);
  }

  lemma NoBaseline(rows: seq<Row>)
    requires forall i :: 0 <= i < |rows| ==> rows[i].kind != Baseline
    ensures VisibleFrom(rows) == 0
  {
  }

  const UNDOABLE := O.RawSQL("up", "down", false)
  const EMPTY_SCHEMA: O.TableSchema := Tables(map[], map[])
  const WITH_TABLE: O.TableSchema := Tables(map["t" := Entry(O.Table(map[]), false)], map[])

  /** Every migration is raw SQL that can be undone. */
  const RAW_STORE := Store(n => [UNDOABLE], n => EMPTY_SCHEMA, n => true)

  lemma UndoableInverts(s: O.TableSchema)
    ensures I.Replay(s, UNDOABLE, I.Blind) == Some(s) && I.InvertOp(UNDOABLE, O.LiveOf(s)) == Some([O.RawSQL("down", "", true)])
    ensures !I.ReadsPreState(UNDOABLE)
  {
  }

  // ----- A last inverse that must wait -----

  const TWO := [SealedRow("a", None, 1, Pgroll, RawInline, ""), SealedRow("b", Some("a"), 2, Pgroll, RawInline, "")]
  const UNDO_B := I.Inverse("revert_b", [O.RawSQL("down", "", true)], "b")

  lemma TwoLinear()
    ensures Linear(TWO) && FreeUpTo(TWO, [UNDO_B], 1)
  {
    assert "a"[0] != "b"[0] && |"revert_b"| == 8;
  }

  lemma TwoPlanned()
    ensures PlannedInverses(TWO, 0, RAW_STORE) == Some([UNDO_B])
  {
    UndoableInverts(EMPTY_SCHEMA);
    InvertedOne("b", UNDOABLE, EMPTY_SCHEMA);
    hide I.Inverted, I.InvertOp, I.Replay, O.LiveOf;
    assert Forward(TWO, 0, RAW_STORE) == [One("b", UNDOABLE)];
    assert "revert_" + "b" == "revert_b";
  }

  lemma RawWaits(inv: I.Inverse)
    requires inv.ops == [O.RawSQL("down", "", true)]
    ensures MustWait(inv)
  {
    assert InverseMigration(inv, "").ops[0].RawOnComplete?;
  }

  /** One sealed migration of raw SQL above the boundary: a crash before the final stamp cannot be repaired by a re-run. */
  lemma StuckOccurs()
    ensures CanRevert(DB(TWO, [], []), "a", 0, RAW_STORE, [UNDO_B], 10) && MustWait(UNDO_B)
  {
    TwoLinear();
    TwoPlanned();
    RawWaits(UNDO_B);
    hide Linear, PlannedInverses, CanRevert, FreeUpTo, MustWait;
    MakeCanRevert(DB(TWO, [], []), 0, RAW_STORE, [UNDO_B], 10);
  }

  // ----- Something waiting below the last inverse -----

  const THREE := [SealedRow("a", None, 1, Pgroll, RawInline, ""), SealedRow("b", Some("a"), 2, Pgroll, Contracting, ""),
                  SealedRow("c", Some("b"), 3, Pgroll, RawInline, "")]
  const DROP_STORE := Store((n: string) => if n == "b" then [O.DropTable("t")] else [UNDOABLE], n => WITH_TABLE, n => true)
  const UNDO_C := I.Inverse("revert_c", [O.RawSQL("down", "", true)], "c")
  const UNDO_DROP := I.Inverse("revert_b", [O.CreateTable("t", [])], "b")

  lemma ThreeLinear()
    ensures Linear(THREE) && FreeUpTo(THREE, [UNDO_C, UNDO_DROP], 2)
  {
    assert "a"[0] != "b"[0] && "a"[0] != "c"[0] && "b"[0] != "c"[0] && |"revert_b"| == 8 && |"revert_c"| == 8;
  }

  lemma DropInverts()
    ensures I.Replay(WITH_TABLE, O.DropTable("t"), I.Blind).Some?
    ensures I.InvertOp(O.DropTable("t"), O.LiveOf(WITH_TABLE)) == Some([O.CreateTable("t", [])])
  {
    var live := O.LiveOf(WITH_TABLE);
    assert "t" in live && live["t"] == map[];
    assert I.SortedNames({}) == [] && I.RecoveredAll(map[], "t", []) == [];
    assert live["t"].Keys == {};
  }

  lemma ThreePlanned()
    ensures PlannedInverses(THREE, 0, DROP_STORE) == Some([UNDO_C, UNDO_DROP])
  {
    DropInverts();
    var mid := I.Replay(WITH_TABLE, O.DropTable("t"), I.Blind).value;
    UndoableInverts(mid);
    hide I.Inverted, I.InvertOp, I.Replay, O.LiveOf;
    InvertedTwo("b", O.DropTable("t"), "c", UNDOABLE, WITH_TABLE, mid);
    assert "b"[0] != "c"[0];
    assert Forward(THREE, 0, DROP_STORE) == [One("b", O.DropTable("t")), One("c", UNDOABLE)];
    assert "revert_" + "b" == "revert_b" && "revert_" + "c" == "revert_c";
  }

  lemma CreateNeedNotWait()
    ensures !MustWait(UNDO_DROP)
  {
  }

  lemma UndoWaits()
    ensures !NothingWaits(THREE, [UNDO_C, UNDO_DROP]) && NoInverseAbove(THREE, 0)
  {
    RawWaits(UNDO_C);
    hide MustWait;
    assert [UNDO_C, UNDO_DROP][0] == UNDO_C;
  }

  /** A dropped table, then raw SQL: a crash right after the first stamp of the last Complete loses the re-creation of the table. */
  lemma LossOccurs()
    ensures CanRevert(DB(THREE, [], []), "a", 0, DROP_STORE, [UNDO_C, UNDO_DROP], 10)
    ensures !MustWait(UNDO_DROP) && NoInverseAbove(THREE, 0) && !NothingWaits(THREE, [UNDO_C, UNDO_DROP])
  {
    ThreeLinear();
    ThreePlanned();
    UndoWaits();
    CreateNeedNotWait();
    hide Linear, PlannedInverses, CanRevert, FreeUpTo, MustWait, NothingWaits, NoInverseAbove;
    MakeCanRevert(DB(THREE, [], []), 0, DROP_STORE, [UNDO_C, UNDO_DROP], 10);
  }

  // ----- An inverse of an earlier revert in the segment -----

  /** A crash before the prune left the inverse of `y` in history; later `b` was applied on top. */
  const LEFTOVER := [SealedRow("a", None, 1, Pgroll, RawInline, ""), SealedRow("y", Some("a"), 2, Pgroll, RawInline, ""),
                     SealedRow("revert_y", Some("y"), 3, Pgroll, RawOnComplete, "y"), SealedRow("b", Some("revert_y"), 4, Pgroll, RawInline, "")]
  const UNDO_LEFTOVER := I.Inverse("revert_revert_y", [O.RawSQL("down", "", true)], "revert_y")

  lemma LeftoverNames()
    ensures "a" != "y" && "a" != "b" && "y" != "b" && |"revert_y"| == 8 && |"revert_b"| == 8 && |"revert_revert_y"| == 15 && "revert_y" != "revert_b"
  {
    assert "a"[0] != "b"[0] && "a"[0] != "y"[0] && "b"[0] != "y"[0];
    assert "revert_y"[7] != "revert_b"[7];
  }

  lemma LeftoverLinear()
    ensures Linear(LEFTOVER)
  {
    LeftoverNames();
  }

  lemma LeftoverFree()
    ensures FreeUpTo(LEFTOVER, [UNDO_B, UNDO_LEFTOVER], 2)
  {
    LeftoverNames();
  }

  lemma LeftoverPlanned()
    ensures PlannedInverses(LEFTOVER, 1, RAW_STORE) == Some([UNDO_B, UNDO_LEFTOVER])
  {
    UndoableInverts(EMPTY_SCHEMA);
    hide I.Inverted, I.InvertOp, I.Replay, O.LiveOf;
    InvertedTwo("revert_y", UNDOABLE, "b", UNDOABLE, EMPTY_SCHEMA, EMPTY_SCHEMA);
    assert Forward(LEFTOVER, 1, RAW_STORE) == [One("revert_y", UNDOABLE), One("b", UNDOABLE)];
    assert "revert_" + "revert_y" == "revert_revert_y" && "revert_" + "b" == "revert_b";
  }

  /** Reverting to `y` then prunes `y` too, or fails, both after a crash before the prune and when finished from history. */
  lemma LeftoverOccurs()
    ensures CanRevert(DB(LEFTOVER, [], []), "y", 1, RAW_STORE, [UNDO_B, UNDO_LEFTOVER], 10) && !NoInverseAbove(LEFTOVER, 1)
    ensures CanRun(LEFTOVER, 1, [UNDO_B, UNDO_LEFTOVER], 10) && HasSegment(LEFTOVER, 1)
  {
    LeftoverLinear();
    LeftoverFree();
    LeftoverPlanned();
    assert LEFTOVER[2].migration.revertOf == "y";
    hide Linear, PlannedInverses, CanRevert, FreeUpTo, CanRun, HasSegment;
    MakeCanRevert(DB(LEFTOVER, [], []), 1, RAW_STORE, [UNDO_B, UNDO_LEFTOVER], 10);
    CanRevertIs(DB(LEFTOVER, [], []), "y", 1, RAW_STORE, [UNDO_B, UNDO_LEFTOVER], 10);
  }
}
