/** The lifecycle of migrations: every command as a program of statements, run with crashes anywhere. */
module Lifecycle {
  import opened Database
  import opened History
  import opened Revert
  import State
  import Rebaseline

  // ----- The commands as programs -----

  /** The names of the rows whose Complete is queued, in chain order. */
  function QueueNames(rows: seq<Row>): seq<string>
  {
    if rows == [] then [] else (if rows[0].deferred then [rows[0].name] else []) + QueueNames(rows[1..])
  }

  /** Some queued Complete may invalidate the live views. */
  predicate NeedsLiveDrop(rows: seq<Row>)
  {
    exists i :: 0 <= i < |rows| && rows[i].deferred && rows[i].migration.CompleteRequiresLiveSchemaDrop()
  }

  function DrainOne(name: string): seq<Stmt>
  {
    [BeginComplete(name), EndComplete(name), UnsetDeferred(name)]
  }

  function Drain(names: seq<string>): seq<Stmt>
  {
    if names == [] then [] else DrainOne(names[0]) + Drain(names[1..])
  }

  /** Start: the row, the expand DDL, and the projection unless it is an intermediate. */
  function StartProgram(db: DB, name: string, m: Migration, now: int, project: bool): seq<Stmt>
  {
    if name in RowNames(db.rows) || (exists r :: r in db.rows && (!r.done || now <= r.createdAt)) then [] else
      var row := State.NewRow(db.rows, name, m, now);
      [Insert(row), OtherDDL] + if project then [CreateSchema(row.VersionSchema())] else []
  }

  /** An intermediate of a batch: its Start without a projection, then its Complete queued or inline. */
  function IntermediateProgram(db: DB, name: string, m: Migration, now: int): seq<Stmt>
  {
    var start := StartProgram(db, name, m, now, false);
    if start == [] then [] else
      start + if m.CompleteMustBeDeferred() then [SetDeferred(name)] else [BeginComplete(name), EndComplete(name), SetDone(name)]
  }

  predicate HasActive(rows: seq<Row>)
  {
    exists r :: r in rows && !r.done
  }

  /** The stamp, the drop a raw SQL Complete forces, and the drain; nothing when nothing is queued. */
  function SealedDrain(q: seq<string>, dropped: seq<string>): seq<Stmt>
  {
    if q == [] then [] else [Seal] + (Drops(dropped) + Drain(q))
  }

  function Drops(names: seq<string>): seq<Stmt>
  {
    if names == [] then [] else [DropSchema(names[0])] + Drops(names[1..])
  }

  /** The active migration's own Complete, the rebuild of views that may have changed, and the second seal. */
  function OwnComplete(name: string, rebuilt: seq<string>): seq<Stmt>
  {
    if rebuilt == [] then [BeginComplete(name), EndComplete(name), SetDone(name), Seal]
    else [BeginComplete(name), EndComplete(name), CreateSchema(rebuilt[0]), SetDone(name), Seal]
  }

  /** The live version schema when some Complete may invalidate its views, else nothing. */
  function LiveDrop(needed: bool, live: string, views: bool): seq<string>
  {
    if views && needed then [live] else []
  }

  /** The version schemas to drop: all but the kept one. */
  function Others(schemas: seq<string>, keep: string, views: bool): (r: seq<string>)
  {
    if views then Without(schemas, keep) else []
  }

  /** Full Complete of the active migration `a`, draining and sealing the deployment. */
  function CompleteProgram(db: DB, a: Row, views: bool): seq<Stmt>
  {
    var q, live := QueueNames(db.rows), a.VersionSchema();
    var needed := a.migration.CompleteRequiresLiveSchemaDrop() || NeedsLiveDrop(db.rows);
    var dropped, rebuilt := LiveDrop(needed, live, views), LiveDrop(needed || a.migration.RequiresSchemaRefresh(), live, views);
    Drops(Others(db.schemas, live, views)) + (SealedDrain(q, dropped) + OwnComplete(a.name, rebuilt))
  }

  /** Some row is sealed and still queued: the durable signature of an interrupted contraction. */
  predicate Resuming(rows: seq<Row>)
  {
    exists r :: r in rows && r.deferred && r.sealed
  }

  /** A queue that is not being resumed and whose batch cannot be shown to have finished is refused. */
  predicate ContractionRefused(db: DB, force: bool, views: bool)
  {
    && QueueNames(db.rows) != [] && !Resuming(db.rows) && !force
    && (!views || db.rows[|db.rows| - 1].VersionSchema() !in db.schemas)
  }

  /** The end of a contraction: the last flag outlives the projection rebuild. */
  function LastDrain(last: string, rebuilt: seq<string>): seq<Stmt>
  {
    [BeginComplete(last), EndComplete(last), OtherDDL]
    + (if rebuilt == [] then [UnsetDeferred(last), Seal] else [CreateSchema(rebuilt[0]), UnsetDeferred(last), Seal])
  }

  /** The drops and the drain of a queue that is not empty. */
  function DrainProgram(schemas: seq<string>, q: seq<string>, dropped: seq<string>, live: string, views: bool): seq<Stmt>
    requires q != []
  {
    Drops(Others(schemas, live, views) + dropped) + (Drain(q[..|q| - 1]) + LastDrain(q[|q| - 1], dropped))
  }

  function ContractionProgram(db: DB, force: bool, views: bool): seq<Stmt>
  {
    if db.rows == [] then [Seal] else
      var q, live := QueueNames(db.rows), db.rows[|db.rows| - 1].VersionSchema();
      if q == [] then [Seal] + Drops(Others(db.schemas, live, views && live in db.schemas))
      else if ContractionRefused(db, force, views) then []
      else [Seal] + DrainProgram(db.schemas, q, LiveDrop(NeedsLiveDrop(db.rows), live, views), live, views)
  }

  function RollbackProgram(a: Row): seq<Stmt>
  {
    [DropSchema(a.VersionSchema()), OtherDDL, DeleteRow(a.name)]
  }

  /** The version schema of the leaf, when projections are on. */
  function LeafProjection(rows: seq<Row>, views: bool): seq<Stmt>
  {
    if views && rows != [] then [CreateSchema(rows[|rows| - 1].VersionSchema())] else []
  }

  /** The newest `n` rows, one at a time, then the projection of the new leaf. */
  function RevertProgram(rows: seq<Row>, n: nat, views: bool): seq<Stmt>
    requires n <= |rows|
  {
    if n == 0 then LeafProjection(rows, views)
    else RollbackProgram(rows[|rows| - 1]) + RevertProgram(rows[..|rows| - 1], n - 1, views)
  }

  datatype Command =
    | CmdStart(name: string, m: Migration, now: int, project: bool)
    | CmdIntermediate(name: string, m: Migration, now: int)
    | CmdComplete(views: bool)
    | CmdContract(force: bool, views: bool)
    | CmdRollback
    | CmdRevert(n: nat, views: bool)
    | CmdPrune(names: set<string>)
    | CmdRecord(name: string, m: Migration, now: int, kind: Kind)
    | CmdRebaseline(name: string)

  /** The statements a command issues on this database; none when it refuses. */
  ghost function Program(db: DB, c: Command): seq<Stmt>
  {
    match c
    case CmdStart(name, m, now, project) => StartProgram(db, name, m, now, project)
    case CmdIntermediate(name, m, now) => IntermediateProgram(db, name, m, now)
    case CmdComplete(views) => if HasActive(db.rows) then CompleteProgram(db, Active(db.rows), views) else []
    case CmdContract(force, views) => if HasActive(db.rows) then [] else ContractionProgram(db, force, views)
    case CmdRollback => if HasActive(db.rows) then RollbackProgram(Active(db.rows)) else []
    case CmdRevert(n, views) =>
      if 0 < n && Window(db.rows) && n <= |WindowTargets(db.rows)| && n <= |db.rows| then RevertProgram(db.rows, n, views) else []
    case CmdPrune(names) => if HasActive(db.rows) then [] else [PruneRows(names)]
    case CmdRecord(name, m, now, kind) =>
      if name in RowNames(db.rows) || (exists r :: r in db.rows && now <= r.createdAt) then [] else
        [Insert(State.NewRow(db.rows, name, m, now).(done := true, sealed := true, kind := kind))]
    case CmdRebaseline(name) =>
      if exists a :: a in db.rows && a.name == name && Rebaseline.AuditsPass(db.rows, a) then [ToBaseline(name)] else []
  }

  /** The active row: the index on active rows admits only one, so the first is the one. */
  function Active(rows: seq<Row>): (r: Row)
    requires HasActive(rows)
    ensures r in rows && !r.done
  {
    if !rows[0].done then rows[0] else
      assert rows == [rows[0]] + rows[1..];
      Active(rows[1..])
  }

  /** Commands carried out in full, one after the other. */
  ghost function Carry(db: DB, cs: seq<Command>): DB
    decreases |cs|
  {
    if cs == [] then db else Carry(Run(db, Program(db, cs[0])), cs[1..])
  }

  lemma {:induction false} CarryConcat(db: DB, a: seq<Command>, b: seq<Command>)
    ensures Carry(db, a + b) == Carry(Carry(db, a), b)
    decreases |a|
  {
    if a == [] {
      assert a + b == b;
    } else {
      assert (a + b)[0] == a[0] && (a + b)[1..] == a[1..] + b;
      CarryConcat(Run(db, Program(db, a[0])), a[1..], b);
    }
  }

  lemma CarryOne(db: DB, c: Command)
    ensures Carry(db, [c]) == Run(db, Program(db, c))
  {
    hide Program;
    assert [c][1..] == [];
    assert Carry(Run(db, Program(db, c)), []) == Run(db, Program(db, c));
  }

  /** A run: commands, each cut off by a crash after the given number of statements. */
  ghost function Reach(db: DB, run: seq<(Command, nat)>): DB
    decreases |run|
  {
    if run == [] then db else
      var p := Program(db, run[0].0);
      Reach(Run(db, if run[0].1 < |p| then p[..run[0].1] else p), run[1..])
  }

  /** Commands carried out in full are a run that no crash cuts short. */
  lemma {:induction false} CarryIsReach(db: DB, cs: seq<Command>) returns (run: seq<(Command, nat)>)
    ensures Reach(db, run) == Carry(db, cs)
    decreases |cs|
  {
    run := [];
    if cs != [] {
      hide Program, Run;
      run := CarryIsReach(Run(db, Program(db, cs[0])), cs[1..]);
      var first := (cs[0], |Program(db, cs[0])|);
      assert ([first] + run)[1..] == run;
      run := [first] + run;
    }
  }

  // ----- Sealed precedes contraction -----

  /** What every row satisfies in every reachable state. */
  predicate RowOk(r: Row)
  {
    && (r.deferred ==> r.done && r.viaDeferral)
    && (r.viaDeferral ==> r.done)
    && (r.viaDeferral && (r.contracting || !r.deferred) ==> r.sealed)
  }

  ghost predicate Inv(db: DB)
  {
    Linear(db.rows) && forall i :: 0 <= i < |db.rows| ==> RowOk(db.rows[i])
  }

  /** A row completed by deferral and named so is sealed. */
  predicate SealedIfDeferred(rows: seq<Row>, name: string)
  {
    forall i :: 0 <= i < |rows| && rows[i].name == name && rows[i].viaDeferral ==> rows[i].sealed
  }

  /** What a statement needs of the state it runs in to keep the invariant. */
  ghost predicate Ok(db: DB, s: Stmt)
  {
    match s
    case Insert(row) =>
      && row.name !in RowNames(db.rows) && row.parent == ParentAt(db.rows, |db.rows|) && RowOk(row)
      && forall r | r in db.rows :: r.createdAt < row.createdAt
    case SetDeferred(name) => forall i :: 0 <= i < |db.rows| && db.rows[i].name == name && !db.rows[i].done ==> !db.rows[i].contracting
    case UnsetDeferred(name) => SealedIfDeferred(db.rows, name)
    case BeginComplete(name) => SealedIfDeferred(db.rows, name)
    case _ => true
  }

  ghost predicate AllOk(db: DB, ss: seq<Stmt>)
    decreases |ss|
  {
    ss != [] ==> Ok(db, ss[0]) && AllOk(Apply(db, ss[0]), ss[1..])
  }

  lemma StmtKeepsInv(db: DB, s: Stmt)
    requires Inv(db) && Ok(db, s)
    ensures Inv(Apply(db, s))
  {
    var after := Apply(db, s).rows;
    match s
    case Insert(row) => LinearAppend(db.rows, row);
    case DeleteRow(name) =>
      if ParentAt(db.rows, |db.rows|) == Some(name) {
        LinearPrefix(db.rows, |db.rows| - 1);
      }
    case PruneRows(names) => PruneKeepsInv(db, names);
    case _ =>
      assert SameChain(db.rows, after);
      LinearSameChain(db.rows, after);
  }

  lemma PruneKeepsInv(db: DB, names: set<string>)
    requires Inv(db)
    ensures Inv(db.(rows := Pruned(db.rows, names)))
  {
    PruneLinear(db.rows, names);
    var kept, after := Keep(db.rows, names), Pruned(db.rows, names);
    forall i | 0 <= i < |after| ensures RowOk(after[i]) {
      assert kept[i] in kept && RowOk(kept[i]);
    }
  }

  lemma {:induction false} PrefixKeepsInv(db: DB, ss: seq<Stmt>, k: nat)
    requires Inv(db) && AllOk(db, ss) && k <= |ss|
    ensures Inv(Run(db, ss[..k]))
    decreases k
  {
    if k != 0 {
      StmtKeepsInv(db, ss[0]);
      assert ss[..k][1..] == ss[1..][..k - 1];
      PrefixKeepsInv(Apply(db, ss[0]), ss[1..], k - 1);
    }
  }

  lemma {:induction false} AllOkConcat(db: DB, a: seq<Stmt>, b: seq<Stmt>)
    requires AllOk(db, a) && AllOk(Run(db, a), b)
    ensures AllOk(db, a + b)
    decreases |a|
  {
    if a == [] {
      assert a + b == b;
    } else {
      assert (a + b)[0] == a[0] && (a + b)[1..] == a[1..] + b;
      AllOkConcat(Apply(db, a[0]), a[1..], b);
    }
  }

  // ----- A discipline on programs that keeps the invariant -----

  predicate DoneSealed(rows: seq<Row>)
  {
    forall i :: 0 <= i < |rows| && rows[i].done ==> rows[i].sealed
  }

  /** The active row is still active. */
  predicate NotDone(rows: seq<Row>, active: Option<string>)
  {
    forall i :: 0 <= i < |rows| && active == Some(rows[i].name) ==> !rows[i].done
  }

  /** Contraction and flag clearing only after a stamp; only the active row is exempt. */
  predicate Disciplined(ss: seq<Stmt>, stamped: bool, active: Option<string>)
  {
    ss == [] ||
    match ss[0]
    case CreateSchema(_) => Disciplined(ss[1..], stamped, active)
    case DropSchema(_) => Disciplined(ss[1..], stamped, active)
    case EndComplete(_) => Disciplined(ss[1..], stamped, active)
    case OtherDDL => Disciplined(ss[1..], stamped, active)
    case DeleteRow(_) => Disciplined(ss[1..], false, None)
    case Seal => Disciplined(ss[1..], true, active)
    case BeginComplete(n) => (stamped || active == Some(n)) && Disciplined(ss[1..], stamped, active)
    case UnsetDeferred(_) => stamped && Disciplined(ss[1..], stamped, active)
    case SetDone(_) => Disciplined(ss[1..], false, None)
    case _ => false
  }

  lemma {:induction false} DisciplinedIsOk(db: DB, ss: seq<Stmt>, stamped: bool, active: Option<string>)
    requires Inv(db) && Disciplined(ss, stamped, active)
    requires (stamped ==> DoneSealed(db.rows)) && NotDone(db.rows, active)
    ensures AllOk(db, ss)
    decreases |ss|
  {
    if ss != [] {
      StmtKeepsInv(db, ss[0]);
      var still := ss[0].Seal? || (stamped && !ss[0].SetDone? && !ss[0].DeleteRow?);
      DisciplinedIsOk(Apply(db, ss[0]), ss[1..], still, if ss[0].SetDone? || ss[0].DeleteRow? then None else active);
    }
  }

  /** Statements after which a stamp still covers every done row. */
  predicate Calm(s: Stmt)
  {
    s.CreateSchema? || s.DropSchema? || s.EndComplete? || s.OtherDDL? || s.Seal? || s.BeginComplete? || s.UnsetDeferred?
  }

  predicate AllCalm(ss: seq<Stmt>)
  {
    forall i :: 0 <= i < |ss| ==> Calm(ss[i])
  }

  lemma {:induction false} CalmFirst(a: seq<Stmt>, b: seq<Stmt>, active: Option<string>)
    requires AllCalm(a) && Disciplined(b, true, active)
    ensures Disciplined(a + b, true, active)
  {
    if a == [] {
      assert a + b == b;
    } else {
      assert (a + b)[0] == a[0] && (a + b)[1..] == a[1..] + b;
      CalmFirst(a[1..], b, active);
    }
  }

  lemma {:induction false} DropsFirst(names: seq<string>, b: seq<Stmt>, stamped: bool, active: Option<string>)
    requires Disciplined(b, stamped, active)
    ensures AllCalm(Drops(names)) && Disciplined(Drops(names) + b, stamped, active)
  {
    var a := Drops(names);
    if names == [] {
      assert a + b == b;
    } else {
      DropsFirst(names[1..], b, stamped, active);
      assert (a + b)[0] == a[0] && (a + b)[1..] == Drops(names[1..]) + b;
    }
  }

  lemma SealFirst(a: seq<Stmt>, b: seq<Stmt>, stamped: bool, active: Option<string>)
    requires Disciplined(a + b, true, active)
    ensures Disciplined([Seal] + a + b, stamped, active)
  {
    assert ([Seal] + a + b)[1..] == a + b;
  }

  lemma {:induction false} DrainCalm(q: seq<string>)
    ensures AllCalm(Drain(q))
  {
    if q != [] {
      DrainCalm(q[1..]);
    }
  }

  lemma OwnDisciplined(name: string, rebuilt: seq<string>, stamped: bool)
    ensures Disciplined(OwnComplete(name, rebuilt), stamped, Some(name))
  {
    var p := OwnComplete(name, rebuilt);
    assert p[1..][1..][1..] == if rebuilt == [] then [Seal] else [SetDone(name), Seal];
    assert [SetDone(name), Seal][1..] == [Seal] && [Seal][1..] == [];
    assert Disciplined([Seal], false, None);
    assert Disciplined([SetDone(name), Seal], stamped, Some(name));
    assert Disciplined(p[1..][1..], stamped, Some(name));
  }

  lemma DrainDisciplined(q: seq<string>, dropped: seq<string>, b: seq<Stmt>, stamped: bool, active: Option<string>)
    requires forall s :: Disciplined(b, s, active)
    ensures Disciplined(SealedDrain(q, dropped) + b, stamped, active)
  {
    var calm := Drops(dropped) + Drain(q);
    DropsFirst(dropped, b, true, active);
    DrainCalm(q);
    hide Drain, Drops;
    CalmFirst(calm, b, active);
    SealFirst(calm, b, stamped, active);
    hide Disciplined;
    if q == [] {
      assert [] + b == b;
    }
  }

  lemma CompleteDisciplined(db: DB, a: Row, views: bool)
    ensures Disciplined(CompleteProgram(db, a, views), false, Some(a.name))
  {
    hide Disciplined, Drops, SealedDrain, OwnComplete;
    var q, live := QueueNames(db.rows), a.VersionSchema();
    var needed := a.migration.CompleteRequiresLiveSchemaDrop() || NeedsLiveDrop(db.rows);
    var dropped, rebuilt := LiveDrop(needed, live, views), LiveDrop(needed || a.migration.RequiresSchemaRefresh(), live, views);
    forall s ensures Disciplined(OwnComplete(a.name, rebuilt), s, Some(a.name)) {
      OwnDisciplined(a.name, rebuilt, s);
    }
    DrainDisciplined(q, dropped, OwnComplete(a.name, rebuilt), false, Some(a.name));
    DropsFirst(Others(db.schemas, live, views), SealedDrain(q, dropped) + OwnComplete(a.name, rebuilt), false, Some(a.name));
  }

  lemma DrainProgramCalm(schemas: seq<string>, q: seq<string>, dropped: seq<string>, live: string, views: bool)
    requires q != []
    ensures AllCalm(DrainProgram(schemas, q, dropped, live, views))
  {
    DropsFirst(Others(schemas, live, views) + dropped, [], true, None);
    DrainCalm(q[..|q| - 1]);
    hide Drain, Drops;
  }

  lemma ContractionDisciplined(db: DB, force: bool, views: bool)
    ensures Disciplined(ContractionProgram(db, force, views), false, None)
  {
    var p := ContractionProgram(db, force, views);
    if p != [] {
      var rest := p[1..];
      assert p[0] == Seal;
      assert AllCalm(rest) by {
        if db.rows != [] {
          var q, live := QueueNames(db.rows), db.rows[|db.rows| - 1].VersionSchema();
          var dropped := LiveDrop(NeedsLiveDrop(db.rows), live, views);
          hide Drops, DrainProgram, QueueNames, NeedsLiveDrop, Others, AllCalm;
          if q == [] {
            DropsFirst(Others(db.schemas, live, views && live in db.schemas), [], true, None);
            assert rest == Drops(Others(db.schemas, live, views && live in db.schemas));
          } else {
            DrainProgramCalm(db.schemas, q, dropped, live, views);
            assert rest == DrainProgram(db.schemas, q, dropped, live, views);
          }
        }
      }
      hide ContractionProgram, AllCalm;
      assert Disciplined([], true, None);
      CalmFirst(rest, [], None);
      assert rest + [] == rest;
    }
  }

  lemma {:induction false} RevertDisciplined(rows: seq<Row>, n: nat, views: bool)
    requires n <= |rows|
    ensures Disciplined(RevertProgram(rows, n, views), false, None)
  {
    if n > 0 {
      var rest := RevertProgram(rows[..|rows| - 1], n - 1, views);
      RevertDisciplined(rows[..|rows| - 1], n - 1, views);
      RollbackFirst(rows[|rows| - 1], rest);
    } else {
      assert forall s: Stmt :: [s][1..] == [];
    }
  }

  lemma RollbackFirst(a: Row, rest: seq<Stmt>)
    requires Disciplined(rest, false, None)
    ensures Disciplined(RollbackProgram(a) + rest, false, None)
  {
    var p := RollbackProgram(a) + rest;
    assert p[1..][1..][1..] == rest;
    assert Disciplined(p[1..][1..], false, None);
  }

  lemma StartOk(db: DB, name: string, m: Migration, now: int, project: bool)
    requires Inv(db)
    ensures AllOk(db, StartProgram(db, name, m, now, project))
  {
    var p := StartProgram(db, name, m, now, project);
    if p != [] {
      assert Ok(db, p[0]);
      assert p[1..][1..] == if project then [p[2]] else [];
      var db1 := Apply(db, p[0]);
      StmtKeepsInv(db, p[0]);
      assert Disciplined(p[1..][1..], false, None);
      DisciplinedIsOk(db1, p[1..], false, None);
    }
  }

  lemma IntermediateOk(db: DB, name: string, m: Migration, now: int)
    requires Inv(db)
    ensures AllOk(db, IntermediateProgram(db, name, m, now))
  {
    var start := StartProgram(db, name, m, now, false);
    if start != [] {
      StartOk(db, name, m, now, false);
      var row := State.NewRow(db.rows, name, m, now);
      var db2 := Run(db, start);
      assert start == [Insert(row), OtherDDL];
      assert start[1..] == [OtherDDL] && start[1..][1..] == [];
      RunTwo(db, Insert(row), OtherDDL);
      assert db2.rows == db.rows + [row];
      assert forall r | r in db.rows :: r.name != name;
      StmtKeepsInv(db, start[0]);
      if m.CompleteMustBeDeferred() {
        assert AllOk(db2, [SetDeferred(name)]);
        AllOkConcat(db, start, [SetDeferred(name)]);
      } else {
        var inline := [BeginComplete(name), EndComplete(name), SetDone(name)];
        assert inline[1..][1..][1..] == [];
        assert Disciplined(inline[1..][1..], false, Some(name));
        DisciplinedIsOk(db2, inline, false, Some(name));
        AllOkConcat(db, start, inline);
      }
    }
  }

  lemma ProgramOk(db: DB, c: Command)
    requires Inv(db)
    ensures AllOk(db, Program(db, c))
  {
    match c
    case CmdStart(name, m, now, project) => StartOk(db, name, m, now, project);
    case CmdIntermediate(name, m, now) => IntermediateOk(db, name, m, now);
    case CmdComplete(views) => CompleteOk(db, views);
    case CmdContract(force, views) =>
      ContractionDisciplined(db, force, views);
      EmptyOk(db);
      hide ContractionProgram, AllOk, Disciplined, Inv;
      if !HasActive(db.rows) {
        UnstampedOk(db, ContractionProgram(db, force, views));
      }
    case CmdRollback =>
      EmptyOk(db);
      if HasActive(db.rows) {
        var p := RollbackProgram(Active(db.rows));
        RollbackFirst(Active(db.rows), []);
        assert p + [] == p;
        UnstampedOk(db, p);
      }
    case CmdRevert(n, views) =>
      EmptyOk(db);
      hide RevertProgram, AllOk, Disciplined, Inv, Window, WindowTargets;
      if n <= |db.rows| {
        RevertDisciplined(db.rows, n, views);
        UnstampedOk(db, RevertProgram(db.rows, n, views));
      }
    case _ => SingleOk(db, c);
  }

  lemma EmptyOk(db: DB)
    ensures AllOk(db, []) && Disciplined([], false, None)
  {
  }

  lemma UnstampedOk(db: DB, p: seq<Stmt>)
    requires Inv(db) && Disciplined(p, false, None)
    ensures AllOk(db, p)
  {
    hide Inv, Disciplined, AllOk;
    DisciplinedIsOk(db, p, false, None);
  }

  lemma CompleteOk(db: DB, views: bool)
    requires Inv(db)
    ensures AllOk(db, if HasActive(db.rows) then CompleteProgram(db, Active(db.rows), views) else [])
  {
    if HasActive(db.rows) {
      var a := Active(db.rows);
      CompleteDisciplined(db, a, views);
      assert NotDone(db.rows, Some(a.name));
      hide CompleteProgram, AllOk, Disciplined, Inv, Active, HasActive, NotDone;
      DisciplinedIsOk(db, CompleteProgram(db, a, views), false, Some(a.name));
    }
  }

  lemma SingleOk(db: DB, c: Command)
    requires Inv(db) && (c.CmdPrune? || c.CmdRecord? || c.CmdRebaseline?)
    ensures AllOk(db, Program(db, c))
  {
    var p := Program(db, c);
    assert p != [] ==> p[1..] == [];
  }

  lemma {:induction false} ReachKeepsInv(db: DB, run: seq<(Command, nat)>)
    requires Inv(db)
    ensures Inv(Reach(db, run))
    decreases |run|
  {
    if run != [] {
      var p := Program(db, run[0].0);
      var k := if run[0].1 < |p| then run[0].1 else |p|;
      ProgramOk(db, run[0].0);
      PrefixKeepsInv(db, p, k);
      assert p[..|p|] == p;
      ReachKeepsInv(Run(db, p[..k]), run[1..]);
    }
  }

  /**
   * Over every run, with a crash allowed after any statement: a row completed by deferral has its
   * contraction begun only once sealed. So in a revert window every target labelled queued is
   * untouched by contraction, and every one labelled applied is inline-class and was completed inline.
   */
  lemma SealedPrecedesContraction(run: seq<(Command, nat)>)
    ensures var rows := Reach(DB([], [], []), run).rows;
            && Linear(rows)
            && (forall r | r in rows && r.viaDeferral && r.contracting :: r.sealed)
            && (Window(rows) ==> forall i | OpenFrom(rows) <= i < |rows| && rows[i].kind != Baseline ::
                 match StateOf(rows[i])
                 case InProgress => !rows[i].done
                 case Queued => !rows[i].contracting
                 case Applied => !rows[i].migration.CompleteMustBeDeferred() && !rows[i].viaDeferral)
  {
    ReachKeepsInv(DB([], [], []), run);
    hide Reach;
  }
}
