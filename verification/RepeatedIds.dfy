/** Migrations whose operations share an action id: when draining them still does what they mean. */
module RepeatedIds {
  import opened History
  import opened Replay
  import C = Coordinator

  // ----- How many columns there are -----

  ghost function Pick(db: Relations): (t: string)
    requires db != map[]
    ensures t in db
  {
    var t :| t in db;
    t
  }

  /** The columns of all relations together. */
  ghost function Total(db: Relations): nat
    decreases |db|
  {
    if db == map[] then 0 else |db[Pick(db)].columns| + Total(db - {Pick(db)})
  }

  lemma {:induction false} TotalRemove(db: Relations, t: string)
    requires t in db
    ensures Total(db) == |db[t].columns| + Total(db - {t})
    decreases |db|
  {
    var x := Pick(db);
    if x != t {
      TotalRemove(db - {x}, t);
      TotalRemove(db - {t}, x);
      assert db - {x} - {t} == db - {t} - {x};
    }
  }

  lemma TotalRename(db: Relations, from: string, to: string)
    requires from in db && to !in db
    ensures Total(db[to := db[from]] - {from}) == Total(db)
  {
    var after := db[to := db[from]] - {from};
    TotalRemove(db, from);
    TotalRemove(after, to);
    assert after - {to} == db - {from};
  }

  lemma TotalUpdate(db: Relations, t: string, r: Relation)
    requires t in db
    ensures Total(db[t := r]) == Total(db) - |db[t].columns| + |r.columns|
  {
    TotalRemove(db, t);
    TotalRemove(db[t := r], t);
    assert db[t := r] - {t} == db - {t};
  }

  lemma ColumnCounts(m: map<string, Identity>, from: string, to: string)
    requires from in m
    ensures |m - {from}| == |m| - 1
    ensures to !in m ==> |m[to := m[from]] - {from}| == |m|
  {
    assert (m - {from}).Keys == m.Keys - {from};
    if to !in m {
      assert (m[to := m[from]] - {from}).Keys == m.Keys - {from} + {to};
    }
  }

  /** A valid operation takes one column away if it drops one, and none otherwise. */
  lemma MeaningTotal(db: Relations, op: Op)
    requires Meaning(db, op).Some?
    ensures Total(Meaning(db, op).value) == Total(db) - if op.DropColumn? then 1 else 0
  {
    match op
    case RenameTable(from, to) => TotalRename(db, from, to);
    case RenameColumn(t, from, to) =>
      ColumnCounts(db[t].columns, from, to);
      TotalUpdate(db, t, db[t].(columns := db[t].columns[to := db[t].columns[from]] - {from}));
    case DropColumn(t, c) =>
      ColumnCounts(db[t].columns, c, c);
      TotalUpdate(db, t, db[t].(columns := db[t].columns - {c}));
  }

  /** A statement takes at most that away. */
  lemma ExecTotal(db: Relations, d: DDL)
    requires Exec(db, d).Some?
    ensures Total(Exec(db, d).value) >= Total(db) - if d.DropAttribute? then 1 else 0
  {
    match d
    case RenameRelation(from, to) =>
      if from in db {
        TotalRename(db, from, to);
      }
    case RenameAttribute(t, from, to) =>
      if t in db && from in db[t].columns {
        ColumnCounts(db[t].columns, from, to);
        TotalUpdate(db, t, db[t].(columns := db[t].columns[to := db[t].columns[from]] - {from}));
      }
    case DropAttribute(t, c) =>
      if t in db {
        if c in db[t].columns {
          ColumnCounts(db[t].columns, c, c);
        } else {
          assert db[t].columns - {c} == db[t].columns;
        }
        TotalUpdate(db, t, db[t].(columns := db[t].columns - {c}));
      }
  }

  // ----- The drops of a list of actions -----

  function DropIds(actions: seq<C.Action<DDL>>): seq<string>
  {
    if actions == [] then [] else (if actions[0].body.DropAttribute? then [actions[0].id] else []) + DropIds(actions[1..])
  }

  lemma {:induction false} DropMembers(actions: seq<C.Action<DDL>>, id: string)
    ensures id in DropIds(actions) <==> exists i :: 0 <= i < |actions| && actions[i].body.DropAttribute? && actions[i].id == id
  {
    if actions != [] {
      DropMembers(actions[1..], id);
      assert forall i :: 0 <= i < |actions| - 1 ==> actions[1..][i] == actions[i + 1];
      if i :| 0 <= i < |actions| && actions[i].body.DropAttribute? && actions[i].id == id {
        assert i > 0 ==> actions[1..][i - 1] == actions[i];
      }
    }
  }

  ghost predicate NoRepeats(ids: seq<string>)
  {
    forall i, j :: 0 <= i < j < |ids| ==> ids[i] != ids[j]
  }

  lemma {:induction false} DropsOnce(actions: seq<C.Action<DDL>>)
    requires C.DistinctIds(actions)
    ensures NoRepeats(DropIds(actions))
  {
    if actions != [] {
      DropsOnce(actions[1..]);
      DropMembers(actions[1..], actions[0].id);
    }
  }

  lemma {:induction false} DropsTwice(actions: seq<C.Action<DDL>>, i: nat, j: nat)
    requires i < j < |actions| && actions[i].id == actions[j].id && actions[i].body.DropAttribute? && actions[j].body.DropAttribute?
    ensures !NoRepeats(DropIds(actions))
  {
    var rest := DropIds(actions[1..]);
    if i == 0 {
      DropMembers(actions[1..], actions[0].id);
      assert actions[1..][j - 1] == actions[j];
      var k :| 0 <= k < |rest| && rest[k] == actions[0].id;
      assert DropIds(actions)[k + 1] == DropIds(actions)[0];
    } else {
      DropsTwice(actions[1..], i - 1, j - 1);
      var k, l :| 0 <= k < l < |rest| && rest[k] == rest[l];
      var n := |DropIds(actions)| - |rest|;
      assert DropIds(actions)[n + k] == DropIds(actions)[n + l];
    }
  }

  /** A list of names without repeats is no longer than one it is drawn from, and shorter if that repeats one. */
  lemma DrawnFrom(a: seq<string>, b: seq<string>)
    requires NoRepeats(a) && forall i :: 0 <= i < |a| ==> a[i] in b
    ensures |a| <= |b| && (!NoRepeats(b) ==> |a| < |b|)
  {
    NameSetCardinality(a);
    NameSetCardinality(b);
    assert NameSet(b) == NameSet(a) + (NameSet(b) - NameSet(a));
  }

  lemma {:induction false} MeaningsTotal(db: Relations, ops: seq<Op>)
    requires Meanings(db, ops).Some?
    ensures Total(Meanings(db, ops).value) == Total(db) - |DropIds(DirectActions(ops))|
    decreases |ops|
  {
    if ops != [] {
      MeaningTotal(db, ops[0]);
      MeaningsTotal(Meaning(db, ops[0]).value, ops[1..]);
      assert DirectActions(ops)[1..] == DirectActions(ops[1..]);
      hide Meaning, Total, IdOf;
    }
  }

  lemma {:induction false} ExecAllTotal(db: Relations, actions: seq<C.Action<DDL>>)
    requires ExecAll(db, actions).Some?
    ensures Total(ExecAll(db, actions).value) >= Total(db) - |DropIds(actions)|
    decreases |actions|
  {
    if actions != [] {
      ExecTotal(db, actions[0].body);
      ExecAllTotal(Exec(db, actions[0].body).value, actions[1..]);
      hide Exec, Total;
    }
  }

  // ----- What a repeated id does -----

  /** Two drops of the migration share an id. */
  ghost predicate RepeatsDrop(ops: seq<Op>)
  {
    exists i, j :: 0 <= i < j < |ops| && ops[i].DropColumn? && ops[j].DropColumn? && IdOf(Direct(ops[i])) == IdOf(Direct(ops[j]))
  }

  /** No two renames do. */
  ghost predicate RenamesOnce(ops: seq<Op>)
  {
    forall i, j :: 0 <= i < j < |ops| && !ops[i].DropColumn? && !ops[j].DropColumn? ==> IdOf(Direct(ops[i])) != IdOf(Direct(ops[j]))
  }

  /** What a drain of a migration with a meaning runs. */
  lemma DrainRuns(db: Relations, ops: seq<Op>)
    requires Meanings(db, ops).Some?
    ensures forall i :: 0 <= i < |C.Built(DirectActions(ops)).ordered| ==> C.Built(DirectActions(ops)).ordered[i] in C.Built(DirectActions(ops)).actions
    ensures Drain(db, ops) == ExecAll(db, C.Effective(C.Built(DirectActions(ops))))
  {
    var s := ReadNames(db);
    assert forall n :: s.Stack(n) == [];
    CompletesDirect(db, s, ops);
    C.RunsEachOnce(DirectActions(ops));
    hide Completes, Meanings, ExecAll;
  }

  /** A repeated drop runs once, so a column too many is left. */
  lemma RepeatedDropLeavesAColumn(db: Relations, ops: seq<Op>)
    requires Meanings(db, ops).Some? && RepeatsDrop(ops)
    ensures Drain(db, ops) != Meanings(db, ops)
    ensures Drain(db, ops).Some? ==> Total(Drain(db, ops).value) > Total(Meanings(db, ops).value)
  {
    hide *;
    var actions := DirectActions(ops);
    DrainRuns(db, ops);
    C.RunsEachOnce(actions);
    var run := C.Effective(C.Built(actions));
    MeaningsTotal(db, ops);
    if ExecAll(db, run).Some? {
      ExecAllTotal(db, run);
      DropsOnce(run);
      DropsDrawn(run, actions);
      RepeatIsRepeat(ops);
      DrawnFrom(DropIds(run), DropIds(actions));
    }
  }

  lemma DropsDrawn(run: seq<C.Action<DDL>>, actions: seq<C.Action<DDL>>)
    requires forall i :: 0 <= i < |run| ==> run[i] in actions
    ensures forall i :: 0 <= i < |DropIds(run)| ==> DropIds(run)[i] in DropIds(actions)
  {
    forall i | 0 <= i < |DropIds(run)| ensures DropIds(run)[i] in DropIds(actions) {
      var id := DropIds(run)[i];
      DropMembers(run, id);
      DropMembers(actions, id);
      hide DropIds;
    }
  }

  lemma RepeatIsRepeat(ops: seq<Op>)
    requires RepeatsDrop(ops)
    ensures !NoRepeats(DropIds(DirectActions(ops)))
  {
    var i, j :| 0 <= i < j < |ops| && ops[i].DropColumn? && ops[j].DropColumn? && IdOf(Direct(ops[i])) == IdOf(Direct(ops[j]));
    hide IdOf;
    DropsTwice(DirectActions(ops), i, j);
  }

  /** Drops and renames never share an id. */
  lemma KindsDiffer(a: Op, b: Op)
    requires a.DropColumn? && !b.DropColumn?
    ensures IdOf(Direct(a)) != IdOf(Direct(b))
  {
    assert IdOf(Direct(a))[0] == 'd' && IdOf(Direct(b))[0] == 'r';
  }

  lemma RepeatedIsDrop(ops: seq<Op>)
    requires RenamesOnce(ops)
    ensures DistinctActions(ops) <==> !RepeatsDrop(ops)
  {
    forall i, j | 0 <= i < j < |ops| && IdOf(Direct(ops[i])) == IdOf(Direct(ops[j])) ensures ops[i].DropColumn? && ops[j].DropColumn? {
      if ops[i].DropColumn? && !ops[j].DropColumn? {
        KindsDiffer(ops[i], ops[j]);
      }
      if ops[j].DropColumn? && !ops[i].DropColumn? {
        KindsDiffer(ops[j], ops[i]);
      }
    }
    hide IdOf;
    forall i, j | 0 <= i < j < |ops| && IdOf(Direct(ops[i])) == IdOf(Direct(ops[j])) ensures DirectActions(ops)[i].id == DirectActions(ops)[j].id {
    }
  }

  /** With renames whose ids differ, draining a migration does what it means exactly when no id is repeated. */
  lemma DrainMeansIff(db: Relations, ops: seq<Op>)
    requires Meanings(db, ops).Some? && RenamesOnce(ops)
    ensures Drain(db, ops) == Meanings(db, ops) <==> DistinctActions(ops)
  {
    hide *;
    RepeatedIsDrop(ops);
    if DistinctActions(ops) {
      DrainMeans(db, ops);
    } else {
      RepeatedDropLeavesAColumn(db, ops);
    }
  }

  // ----- Migrations that validate and are drained wrongly -----

  /** Validation of one operation: a drop is not recorded, so a dropped column still counts for those after it. */
  function Validate(v: Relations, op: Op): Option<Relations>
  {
    if Meaning(v, op).None? then None else if op.DropColumn? then Some(v) else Meaning(v, op)
  }

  function Validates(v: Relations, ops: seq<Op>): bool
    decreases |ops|
  {
    ops == [] || (Validate(v, ops[0]).Some? && Validates(Validate(v, ops[0]).value, ops[1..]))
  }

  /** Accepted: the migration validates, and its operations start one after the other. */
  predicate Accepted(db: Relations, ops: seq<Op>)
  {
    Validates(db, ops) && Meanings(db, ops).Some?
  }

  lemma MeaningsTwo(db: Relations, a: Op, b: Op)
    requires Meaning(db, a).Some? && Meaning(Meaning(db, a).value, b).Some?
    ensures Meanings(db, [a, b]) == Meaning(Meaning(db, a).value, b)
  {
    hide Meaning;
    assert [a, b][1..] == [b] && [b][1..] == [];
    assert Meanings(Meaning(db, a).value, [b]) == Meaning(Meaning(db, a).value, b);
  }

  lemma BuiltOne(a: C.Action<DDL>)
    ensures C.Built([a]) == C.Coordinator(map[a.id := a], [a.id])
  {
    assert [a][..0] == [];
    assert C.Built<DDL>([]) == C.Coordinator(map[], []);
  }

  lemma BuiltTwo(a: C.Action<DDL>, b: C.Action<DDL>)
    ensures C.Built([a, b]) == if a.id == b.id then C.Coordinator(map[a.id := a], [a.id])
                               else C.Coordinator(map[a.id := a, b.id := b], [a.id, b.id])
  {
    BuiltOne(a);
    assert [a, b][..1] == [a];
    assert [a.id][1..] == [];
    assert C.Removed([a.id], b.id) == if a.id == b.id then [] else [a.id] + C.Removed([a.id][1..], b.id);
    assert C.AddAction(C.Built([a]), b).ordered == if a.id == b.id then [a.id] else [a.id, b.id];
  }

  lemma BuiltThree(a: C.Action<DDL>, b: C.Action<DDL>)
    requires a.id != b.id
    ensures C.Built([a, b, a]) == C.Coordinator(map[a.id := a, b.id := b], [b.id, a.id])
  {
    BuiltTwo(a, b);
    assert [a, b, a][..2] == [a, b];
    assert [a.id, b.id][1..] == [b.id];
  }

  lemma BuiltFour(a: C.Action<DDL>, b: C.Action<DDL>, d: C.Action<DDL>)
    requires a.id != b.id && a.id != d.id && b.id != d.id
    ensures C.Built([a, b, d, a]) == C.Coordinator(map[a.id := a, b.id := b, d.id := d], [b.id, d.id, a.id])
  {
    BuiltTwo(a, b);
    assert [a, b, d, a][..3] == [a, b, d] && [a, b, d][..2] == [a, b];
    C.RemovedAbsent([a.id, b.id], d.id);
    assert C.Built([a, b, d]) == C.Coordinator(map[a.id := a, b.id := b, d.id := d], [a.id, b.id, d.id]);
    assert [a.id, b.id, d.id][1..] == [b.id, d.id];
  }

  /** Two drops whose ids coincide, because ids join names with an underscore. */
  function CollidingDrops(t: string, x: string, c: string): seq<Op>
  {
    [DropColumn(t + "_" + x, c), DropColumn(t, x + "_" + c)]
  }

  /** Only the first is carried out, and the second column stays. */
  lemma IdCollision(db: Relations, t: string, x: string, c: string)
    requires t + "_" + x in db && c in db[t + "_" + x].columns && t in db && x + "_" + c in db[t].columns
    ensures var ops := CollidingDrops(t, x, c);
            && Accepted(db, ops) && !DistinctActions(ops)
            && Drain(db, ops).Some? && t in Drain(db, ops).value && x + "_" + c in Drain(db, ops).value[t].columns
            && Drain(db, ops) != Meanings(db, ops)
  {
    hide *;
    var p, q := DropColumn(t + "_" + x, c), DropColumn(t, x + "_" + c);
    CollidingAre(db, t, x, c);
    SameId(t, x, c);
    OnlyFirstRuns(db, p, q);
  }

  lemma CollidingAre(db: Relations, t: string, x: string, c: string)
    requires t + "_" + x in db && c in db[t + "_" + x].columns && t in db && x + "_" + c in db[t].columns
    ensures var p, q, ops := DropColumn(t + "_" + x, c), DropColumn(t, x + "_" + c), CollidingDrops(t, x, c);
            && ops == [p, q] && Accepted(db, ops)
            && Direct(p) == DropAttribute(t + "_" + x, c) && Direct(q) == DropAttribute(t, x + "_" + c)
            && var first := Exec(db, Direct(p));
               first.Some? && t in first.value && x + "_" + c in first.value[t].columns && first != Meanings(db, ops)
  {
    var p, q := DropColumn(t + "_" + x, c), DropColumn(t, x + "_" + c);
    assert |t + "_" + x| > |t|;
    MeaningsTwo(db, p, q);
    assert [p, q][1..] == [q] && [q][1..] == [];
    assert Validates(db, [q]);
  }

  /** Of two operations with one id, the first is carried out. */
  lemma OnlyFirstRuns(db: Relations, p: Op, q: Op)
    requires IdOf(Direct(p)) == IdOf(Direct(q)) && Meanings(db, [p, q]).Some?
    ensures !DistinctActions([p, q]) && Drain(db, [p, q]) == Exec(db, Direct(p))
  {
    hide IdOf, Exec, Meaning, Complete;
    var a, b := ActionFor(Direct(p)), ActionFor(Direct(q));
    assert DirectActions([p, q]) == [a, b];
    assert !DistinctActions([p, q]) by { assert DirectActions([p, q])[0].id == DirectActions([p, q])[1].id; }
    var s := ReadNames(db);
    assert forall n :: s.Stack(n) == [];
    CompletesDirect(db, s, [p, q]);
    BuiltTwo(a, b);
    assert C.Effective(C.Built([a, b])) == [a];
    ExecOne(db, a);
  }

  lemma SameId(t: string, x: string, c: string)
    ensures IdOf(DropAttribute(t + "_" + x, c)) == IdOf(DropAttribute(t, x + "_" + c))
  {
    assert "drop_column_" + (t + "_" + x) + "_" + c == "drop_column_" + t + "_" + (x + "_" + c);
  }

  lemma ExecOne(db: Relations, a: C.Action<DDL>)
    ensures ExecAll(db, [a]) == Exec(db, a.body)
  {
    assert [a][1..] == [];
  }

  /** Dropping a column, renaming its table away, giving the name to another table and dropping its column too. */
  function DropRenameDrop(c: string): seq<Op>
  {
    [DropColumn("t", c), Op.RenameTable("t", "u"), Op.RenameTable("w", "t"), DropColumn("t", c)]
  }

  /**
   * The two drops share an id, so only one runs, after the renames, on the second table: the column of the first
   * stays, under the table's new name.
   */
  lemma DropRenameDropKeeps(db: Relations, c: string)
    requires "t" in db && "w" in db && "u" !in db && c in db["t"].columns && c in db["w"].columns
    ensures var ops := DropRenameDrop(c);
            && Accepted(db, ops) && !DistinctActions(ops) && Drain(db, ops).Some?
            && "u" in Drain(db, ops).value && c in Drain(db, ops).value["u"].columns
            && "u" in Meanings(db, ops).value && c !in Meanings(db, ops).value["u"].columns
  {
    hide *;
    var ops := DropRenameDrop(c);
    var a, b, d := ActionFor(DropAttribute("t", c)), ActionFor(RenameRelation("t", "u")), ActionFor(RenameRelation("w", "t"));
    DropRenameDropMeans(db, c);
    DropRenameDropIds(c);
    DrainRuns(db, ops);
    BuiltFour(a, b, d);
    EffectiveThree(a, b, d);
    DropRenameDropRuns(db, c);
  }

  lemma EffectiveThree(a: C.Action<DDL>, b: C.Action<DDL>, d: C.Action<DDL>)
    requires a.id != b.id && a.id != d.id && b.id != d.id
    ensures var c := C.Coordinator(map[a.id := a, b.id := b, d.id := d], [b.id, d.id, a.id]);
            (forall i :: 0 <= i < |c.ordered| ==> c.ordered[i] in c.actions) && C.Effective(c) == [b, d, a]
  {
  }

  lemma DropRenameDropMeans(db: Relations, c: string)
    requires "t" in db && "w" in db && "u" !in db && c in db["t"].columns && c in db["w"].columns
    ensures var ops := DropRenameDrop(c);
            Accepted(db, ops) && "u" in Meanings(db, ops).value && c !in Meanings(db, ops).value["u"].columns
  {
    var ops := DropRenameDrop(c);
    var one := Meaning(db, ops[0]).value;
    var two := Meaning(one, ops[1]).value;
    var three := Meaning(two, ops[2]).value;
    assert ops[1..] == [ops[1], ops[2], ops[3]] && ops[1..][1..] == [ops[2], ops[3]];
    MeaningsTwo(two, ops[2], ops[3]);
    assert Meanings(one, ops[1..]) == Meanings(two, ops[1..][1..]);
    ValidatesDropRename(db, c);
  }

  lemma ValidatesDropRename(db: Relations, c: string)
    requires "t" in db && "w" in db && "u" !in db && c in db["t"].columns && c in db["w"].columns
    ensures Validates(db, DropRenameDrop(c))
  {
    var ops := DropRenameDrop(c);
    var two := Meaning(db, ops[1]).value;
    var three := Meaning(two, ops[2]).value;
    assert ops[1..][1..][1..] == [ops[3]] && [ops[3]][1..] == [];
    assert Validates(three, [ops[3]]);
    assert Validates(two, ops[1..][1..]);
    assert Validates(db, ops[1..]);
  }

  lemma DropRenameDropIds(c: string)
    ensures var a, b, d := ActionFor(DropAttribute("t", c)), ActionFor(RenameRelation("t", "u")), ActionFor(RenameRelation("w", "t"));
            && a.id != b.id && a.id != d.id && b.id != d.id
            && DirectActions(DropRenameDrop(c)) == [a, b, d, a] && !DistinctActions(DropRenameDrop(c))
  {
    var a, b, d := ActionFor(DropAttribute("t", c)), ActionFor(RenameRelation("t", "u")), ActionFor(RenameRelation("w", "t"));
    assert a.id[0] == 'd' && b.id[0] == 'r' && d.id[0] == 'r' && b.id[13] == 't' && d.id[13] == 'w';
    var actions := DirectActions(DropRenameDrop(c));
    assert actions == [a, b, d, a];
    assert actions[0].id == actions[3].id;
  }

  lemma DropRenameDropRuns(db: Relations, c: string)
    requires "t" in db && "w" in db && "u" !in db && c in db["t"].columns && c in db["w"].columns
    ensures var r := ExecAll(db, [ActionFor(RenameRelation("t", "u")), ActionFor(RenameRelation("w", "t")), ActionFor(DropAttribute("t", c))]);
            r.Some? && "u" in r.value && c in r.value["u"].columns
  {
    var a, b, d := ActionFor(DropAttribute("t", c)), ActionFor(RenameRelation("t", "u")), ActionFor(RenameRelation("w", "t"));
    var one := Exec(db, b.body).value;
    var two := Exec(one, d.body).value;
    assert [b, d, a][1..] == [d, a] && [d, a][1..] == [a];
    ExecOne(two, a);
    assert ExecAll(one, [d, a]) == ExecAll(two, [a]);
  }

  /** Renaming there, back and there again. */
  const THERE_AND_BACK := [Op.RenameTable("a", "b"), Op.RenameTable("b", "a"), Op.RenameTable("a", "b")]

  /** A repeated rename id need not do harm. */
  lemma RenameThereAndBack(db: Relations)
    requires "a" in db && "b" !in db
    ensures Accepted(db, THERE_AND_BACK) && !DistinctActions(THERE_AND_BACK) && Drain(db, THERE_AND_BACK) == Meanings(db, THERE_AND_BACK)
  {
    hide *;
    var p, q := Op.RenameTable("a", "b"), Op.RenameTable("b", "a");
    var a, b := ActionFor(Direct(p)), ActionFor(Direct(q));
    ThereAndBack(db, p, q);
    ThereAndBackIds(p, q);
    DrainRuns(db, THERE_AND_BACK);
    BuiltThree(a, b);
    EffectiveTwo(a, b);
    ThereAndBackRuns(db, p, q);
  }

  lemma EffectiveTwo(a: C.Action<DDL>, b: C.Action<DDL>)
    requires a.id != b.id
    ensures var c := C.Coordinator(map[a.id := a, b.id := b], [b.id, a.id]);
            (forall i :: 0 <= i < |c.ordered| ==> c.ordered[i] in c.actions) && C.Effective(c) == [b, a]
  {
  }

  lemma ThereAndBackIds(p: Op, q: Op)
    requires p == Op.RenameTable("a", "b") && q == Op.RenameTable("b", "a")
    ensures var a, b := ActionFor(Direct(p)), ActionFor(Direct(q));
            a.id != b.id && DirectActions(THERE_AND_BACK) == [a, b, a] && !DistinctActions(THERE_AND_BACK)
  {
    var a, b := ActionFor(Direct(p)), ActionFor(Direct(q));
    assert a.id[13] == 'a' && b.id[13] == 'b';
    assert DirectActions(THERE_AND_BACK)[0].id == DirectActions(THERE_AND_BACK)[2].id;
  }

  lemma ThereAndBackRuns(db: Relations, p: Op, q: Op)
    requires Exec(db, Direct(q)) == Some(db)
    ensures ExecAll(db, [ActionFor(Direct(q)), ActionFor(Direct(p))]) == Exec(db, Direct(p))
  {
    var a, b := ActionFor(Direct(p)), ActionFor(Direct(q));
    hide Exec, Direct;
    assert [b, a][1..] == [a];
    ExecOne(db, a);
  }

  lemma ThereAndBack(db: Relations, p: Op, q: Op)
    requires p == Op.RenameTable("a", "b") && q == Op.RenameTable("b", "a") && "a" in db && "b" !in db
    ensures Accepted(db, THERE_AND_BACK) && Meanings(db, THERE_AND_BACK) == Meaning(db, p)
    ensures Exec(db, Direct(q)) == Some(db) && Exec(db, Direct(p)) == Meaning(db, p)
  {
    var one := Meaning(db, p).value;
    assert Meaning(one, q).value == db;
    assert THERE_AND_BACK == [p, q, p] && [p, q, p][1..] == [q, p] && [q, p][1..] == [p] && [p][1..] == [];
    MeaningsTwo(one, q, p);
    assert Validates(db, [p]);
    assert Validates(one, [q, p]);
  }

  /** Renaming away, the new name on, another table to the old name, and that away again. */
  const RENAME_CHAIN := [Op.RenameTable("a", "b"), Op.RenameTable("b", "c"), Op.RenameTable("d", "a"), Op.RenameTable("a", "b")]

  /** A repeated rename id can do harm too: the drain finds a name taken and fails. */
  lemma RenameChainFails(db: Relations)
    requires "a" in db && "d" in db && "b" !in db && "c" !in db
    ensures Accepted(db, RENAME_CHAIN) && !DistinctActions(RENAME_CHAIN) && Drain(db, RENAME_CHAIN) == None
  {
    hide *;
    var a, b, d := ActionFor(RenameRelation("a", "b")), ActionFor(RenameRelation("b", "c")), ActionFor(RenameRelation("d", "a"));
    ChainMeans(db);
    ChainIds();
    DrainRuns(db, RENAME_CHAIN);
    BuiltFour(a, b, d);
    EffectiveThree(a, b, d);
    ChainRuns(db);
  }

  lemma ChainMeans(db: Relations)
    requires "a" in db && "d" in db && "b" !in db && "c" !in db
    ensures Accepted(db, RENAME_CHAIN)
  {
    var ops := RENAME_CHAIN;
    var one := Meaning(db, ops[0]).value;
    var two := Meaning(one, ops[1]).value;
    var three := Meaning(two, ops[2]).value;
    assert ops[1..] == [ops[1], ops[2], ops[3]] && ops[1..][1..] == [ops[2], ops[3]] && ops[1..][1..][1..] == [ops[3]] && [ops[3]][1..] == [];
    MeaningsTwo(two, ops[2], ops[3]);
    assert Meanings(one, ops[1..]) == Meanings(two, ops[1..][1..]);
    assert Validates(three, [ops[3]]);
    assert Validates(two, ops[1..][1..]);
    assert Validates(one, ops[1..]);
  }

  lemma ChainIds()
    ensures var a, b, d := ActionFor(RenameRelation("a", "b")), ActionFor(RenameRelation("b", "c")), ActionFor(RenameRelation("d", "a"));
            && a.id != b.id && a.id != d.id && b.id != d.id
            && DirectActions(RENAME_CHAIN) == [a, b, d, a] && !DistinctActions(RENAME_CHAIN)
  {
    var a, b, d := ActionFor(RenameRelation("a", "b")), ActionFor(RenameRelation("b", "c")), ActionFor(RenameRelation("d", "a"));
    assert a.id[13] == 'a' && b.id[13] == 'b' && d.id[13] == 'd';
    assert DirectActions(RENAME_CHAIN)[0].id == DirectActions(RENAME_CHAIN)[3].id;
  }

  lemma ChainRuns(db: Relations)
    requires "a" in db && "d" in db && "b" !in db && "c" !in db
    ensures ExecAll(db, [ActionFor(RenameRelation("b", "c")), ActionFor(RenameRelation("d", "a")), ActionFor(RenameRelation("a", "b"))]) == None
  {
    var a, b, d := ActionFor(RenameRelation("a", "b")), ActionFor(RenameRelation("b", "c")), ActionFor(RenameRelation("d", "a"));
    assert [b, d, a][1..] == [d, a];
    assert Exec(db, b.body) == Some(db) && Exec(db, d.body) == None;
    assert ExecAll(db, [d, a]) == None;
  }
}
