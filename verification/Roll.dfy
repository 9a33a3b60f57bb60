/** The engine: each operation issues its statements one at a time against the database. */
module Roll {
  import opened Database
  import opened History
  import opened Lifecycle
  import opened State

  lemma {:induction false} DropsAppend(names: seq<string>, last: string)
    ensures Drops(names + [last]) == Drops(names) + [DropSchema(last)]
  {
    if names == [] {
      assert [last][1..] == [];
    } else {
      assert (names + [last])[0] == names[0] && (names + [last])[1..] == names[1..] + [last];
      DropsAppend(names[1..], last);
    }
  }

  lemma {:induction false} WithoutAppend(schemas: seq<string>, last: string, keep: string)
    ensures Without(schemas + [last], keep) == Without(schemas, keep) + if last == keep then [] else [last]
  {
    if schemas == [] {
      assert [last][1..] == [];
    } else {
      assert (schemas + [last])[0] == schemas[0] && (schemas + [last])[1..] == schemas[1..] + [last];
      WithoutAppend(schemas[1..], last, keep);
    }
  }

  lemma DropsStart(schemas: seq<string>, keep: string)
    ensures Drops(Without(schemas[..0], keep)) == []
  {
  }

  lemma DropsStep(schemas: seq<string>, i: nat, keep: string)
    requires i < |schemas|
    ensures Drops(Without(schemas[..i + 1], keep)) ==
            Drops(Without(schemas[..i], keep)) + if schemas[i] == keep then [] else [DropSchema(schemas[i])]
  {
    var before := Without(schemas[..i], keep);
    assert schemas[..i + 1] == schemas[..i] + [schemas[i]];
    WithoutAppend(schemas[..i], schemas[i], keep);
    hide Drops, Without;
    if schemas[i] == keep {
      assert before + [] == before;
    } else {
      DropsAppend(before, schemas[i]);
    }
  }

  lemma {:induction false} DrainAppend(names: seq<string>, last: string)
    ensures Drain(names + [last]) == Drain(names) + DrainOne(last)
  {
    if names == [] {
      assert [last][1..] == [];
    } else {
      assert (names + [last])[0] == names[0] && (names + [last])[1..] == names[1..] + [last];
      DrainAppend(names[1..], last);
    }
  }

  lemma {:induction false} QueueAppend(rows: seq<Row>, r: Row)
    ensures QueueNames(rows + [r]) == QueueNames(rows) + if r.deferred then [r.name] else []
  {
    QueueStep(rows + [r]);
    if rows == [] {
      assert [r][1..] == [];
    } else {
      assert (rows + [r])[1..] == rows[1..] + [r];
      QueueStep(rows);
      QueueAppend(rows[1..], r);
      hide QueueNames;
      Associate(if rows[0].deferred then [rows[0].name] else [], QueueNames(rows[1..]), if r.deferred then [r.name] else []);
    }
  }

  lemma QueueStep(rows: seq<Row>)
    requires rows != []
    ensures QueueNames(rows) == (if rows[0].deferred then [rows[0].name] else []) + QueueNames(rows[1..])
  {
  }

  lemma Associate(a: seq<string>, b: seq<string>, c: seq<string>)
    ensures a + (b + c) == (a + b) + c
  {
  }

  lemma CompleteParts(t: seq<Stmt>, db: DB, a: Row, views: bool)
    ensures var live := a.VersionSchema();
            var needed := NeedsLiveDrop(db.rows) || a.migration.CompleteRequiresLiveSchemaDrop();
            t + CompleteProgram(db, a, views) ==
            t + Drops(Others(db.schemas, live, views)) + SealedDrain(QueueNames(db.rows), LiveDrop(needed, live, views))
            + OwnComplete(a.name, LiveDrop(needed || a.migration.RequiresSchemaRefresh(), live, views))
  {
    hide Drops, SealedDrain, OwnComplete, NeedsLiveDrop, QueueNames, Others;
  }

  lemma SealedDrainShape(names: seq<string>, live: string)
    ensures SealedDrain(names, []) == (if names == [] then [] else [Seal] + Drain(names))
    ensures SealedDrain(names, [live]) == (if names == [] then [] else [Seal] + ([DropSchema(live)] + Drain(names)))
  {
    assert [live][1..] == [];
    assert Drops([live]) == [DropSchema(live)];
  }

  lemma LiveDropIs(needed: bool, live: string, views: bool)
    ensures LiveDrop(needed, live, views) == if views && needed then [live] else []
  {
  }

  lemma DropsNone()
    ensures Drops([]) == []
  {
  }

  function NamesOf(q: seq<Row>): (r: seq<string>)
    ensures |r| == |q| && forall i :: 0 <= i < |q| ==> r[i] == q[i].name
  {
    seq(|q|, i requires 0 <= i < |q| => q[i].name)
  }

  /** The cases of a contraction, by its queue. */
  lemma QueueShape(db: DB, queued: seq<Row>, force: bool, views: bool)
    requires NamesOf(queued) == QueueNames(db.rows) && forall r :: r in queued <==> r in db.rows && r.deferred
    ensures |queued| == 0 ==> QueueNames(db.rows) == [] && !ContractionRefused(db, force, views)
                              && ContractionProgram(db, force, views) == ContractionProgram(db, false, views)
    ensures |queued| > 0 ==>
      var live, resuming := db.rows[|db.rows| - 1].VersionSchema(), exists r :: r in db.rows && r.deferred && r.sealed;
      && NamesOf(queued) != [] && db.rows != []
      && (ContractionRefused(db, force, views) <==> !resuming && !force && (!views || live !in db.schemas))
      && (ContractionProgram(db, force, views) ==
          if ContractionRefused(db, force, views) then []
          else [Seal] + DrainProgram(db.schemas, NamesOf(queued), LiveDrop(NeedsLiveDrop(db.rows), live, views), live, views))
  {
    hide QueueNames, DrainProgram, NeedsLiveDrop, Drops, Others;
    assert |NamesOf(queued)| == |queued|;
    if |queued| > 0 {
      assert queued[0] in db.rows;
    }
  }

  /** Statements the engine issues one by one: a row is inserted active, under the leaf, and later than all. */
  predicate Plain(db: DB, s: Stmt)
  {
    match s
    case Insert(row) =>
      && row == NewRow(db.rows, row.name, row.migration, row.createdAt) && row.name !in RowNames(db.rows)
      && forall r | r in db.rows :: r.done && r.createdAt < row.createdAt
    case PruneRows(_) => false
    case ToBaseline(_) => false
    case _ => true
  }

  lemma SealedLeaf(rows: seq<Row>)
    ensures |Sealed(rows)| == |rows|
    ensures rows != [] ==> Sealed(rows)[|rows| - 1].VersionSchema() == rows[|rows| - 1].VersionSchema()
  {
  }

  lemma BeginLinear(rows: seq<Row>, name: string)
    requires Linear(rows)
    ensures Linear(Updated(rows, name, Begin))
  {
    LinearSameChain(rows, Updated(rows, name, Begin));
  }

  /** A contraction with nothing queued. */
  lemma ClosingProgram(db: DB, views: bool)
    requires QueueNames(db.rows) == []
    ensures ContractionProgram(db, false, views) == [Seal] +
            if views && |db.rows| > 0 && db.rows[|db.rows| - 1].VersionSchema() in db.schemas
            then Drops(Without(db.schemas, db.rows[|db.rows| - 1].VersionSchema())) else []
  {
    hide QueueNames, Without;
    assert [Seal] + [] == [Seal];
  }

  datatype Outcome = Done | NotActive | Unfinished | AlreadyActive

  class Roll {
    const views: bool
    const state: MigrationTable
    var schemas: seq<string>
    /** History variables: the completions that have run, and every statement issued so far. A crash leaves
        the database as some prefix of the trace did. */
    ghost var completed: seq<int>
    ghost var trace: seq<Stmt>
    ghost const origin: DB

    constructor (table: MigrationTable, versionSchemas: bool, existing: seq<string>, ghost done: seq<int>)
      requires Linear(table.rows)
      ensures Valid() && state == table && schemas == existing && completed == done && trace == [] && views == versionSchemas
    {
      views, state, schemas, completed := versionSchemas, table, existing, done;
      trace, origin := [], DB(table.rows, existing, done);
    }

    ghost function Db(): DB
      reads this, state
    {
      DB(state.rows, schemas, completed)
    }

    ghost predicate Valid()
      reads this, state
    {
      Linear(state.rows) && Db() == Run(origin, trace)
    }

    /** What a stretch of the trace has done to the database. */
    lemma Carried(before: DB, t: seq<Stmt>, p: seq<Stmt>)
      requires Valid() && before == Run(origin, t) && trace == t + p
      ensures Db() == Run(before, p)
    {
      RunConcat(origin, t, p);
    }

    /** Records a statement that has been carried out. */
    ghost method Record(before: DB, s: Stmt)
      requires Linear(state.rows) && before == Run(origin, trace) && Db() == Apply(before, s)
      modifies this`trace
      ensures Valid() && trace == old(trace) + [s]
    {
      RunAppend(origin, trace, s);
      trace := trace + [s];
    }

    /** Issues one statement; those on the migrations table go through it. */
    method Exec(s: Stmt)
      requires Valid() && Plain(Db(), s)
      modifies this, state
      ensures Valid() && Db() == Apply(old(Db()), s) && trace == old(trace) + [s]
    {
      ghost var before := Db();
      hide Run, Linear, Updated, Sealed, Once, IdsNamed, Without, Pruned, Begin;
      match s {
        case Insert(row) =>
          var ok := state.Start(row.name, row.migration, row.createdAt);
        case SetDone(name) =>
          var ok := state.Complete(name, false);
        case SetDeferred(name) =>
          var ok := state.Complete(name, true);
        case UnsetDeferred(name) => state.ClearCompleteDeferred(name);
        case Seal =>
          var stamped := state.MarkSealed();
        case DeleteRow(name) =>
          var ok := state.DeleteMigration(name);
        case CreateSchema(name) => schemas := if name in schemas then schemas else schemas + [name];
        case DropSchema(name) => schemas := Without(schemas, name);
        case BeginComplete(name) =>
          BeginLinear(state.rows, name);
          state.rows := Updated(state.rows, name, Begin);
        case EndComplete(name) => completed := Once(completed, IdsNamed(state.rows, name));
        case OtherDDL =>
      }
      Record(before, s);
    }

    /** Prunes history in one transaction. */
    method PruneHistory(names: seq<string>) returns (ok: bool)
      requires Valid()
      modifies this, state
      ensures Valid() && (ok <==> CanPrune(old(state.rows), names))
      ensures trace == old(trace) + if ok then [PruneRows(NameSet(names))] else []
      ensures Db() == if ok then Apply(old(Db()), PruneRows(NameSet(names))) else old(Db())
    {
      hide Run;
      ghost var before := Db();
      ok := state.Prune(names);
      if ok {
        Record(before, PruneRows(NameSet(names)));
      }
    }

    /** The migrations whose Complete is queued, in chain order. */
    method DeferredCompletes() returns (queued: seq<Row>)
      ensures NamesOf(queued) == QueueNames(state.rows)
      ensures forall r :: r in queued <==> r in state.rows && r.deferred
    {
      queued := [];
      for i := 0 to |state.rows|
        invariant NamesOf(queued) == QueueNames(state.rows[..i])
        invariant forall r :: r in queued <==> r in state.rows[..i] && r.deferred
      {
        assert state.rows[..i + 1] == state.rows[..i] + [state.rows[i]];
        QueueAppend(state.rows[..i], state.rows[i]);
        if state.rows[i].deferred {
          queued := queued + [state.rows[i]];
        }
      }
      assert state.rows[..|state.rows|] == state.rows;
    }

    /** Drops every version schema but one, in listing order. */
    method DropVersionSchemasExcept(keep: string)
      requires Valid()
      modifies this, state
      ensures Valid() && state.rows == old(state.rows) && trace == old(trace) + Drops(Without(old(schemas), keep))
    {
      hide Drops, Without, Run;
      var existing := schemas;
      DropsStart(existing, keep);
      for i := 0 to |existing|
        invariant Valid() && state.rows == old(state.rows) && trace == old(trace) + Drops(Without(existing[..i], keep))
      {
        DropsStep(existing, i, keep);
        if existing[i] != keep {
          Exec(DropSchema(existing[i]));
        }
      }
      assert existing[..|existing|] == existing;
    }

    /** Whether some queued migration has `onComplete` raw SQL. */
    method QueueNeedsLiveDrop(queued: seq<Row>) returns (needed: bool)
      requires forall r :: r in queued <==> r in state.rows && r.deferred
      ensures needed == NeedsLiveDrop(state.rows)
    {
      needed := false;
      for i := 0 to |queued|
        invariant !needed && forall j :: 0 <= j < i ==> !queued[j].migration.CompleteRequiresLiveSchemaDrop()
      {
        if queued[i].migration.CompleteRequiresLiveSchemaDrop() {
          assert queued[i] in state.rows;
          return true;
        }
      }
    }

    /** Runs one queued Complete and takes it off the queue. */
    method DrainDeferredMigration(name: string)
      requires Valid()
      modifies this, state
      ensures Valid() && trace == old(trace) + DrainOne(name)
    {
      Exec(BeginComplete(name));
      Exec(EndComplete(name));
      Exec(UnsetDeferred(name));
    }

    /** Drains a prefix of the queue, oldest first. */
    method DrainQueue(names: seq<string>)
      requires Valid()
      modifies this, state
      ensures Valid() && trace == old(trace) + Drain(names)
    {
      for i := 0 to |names|
        invariant Valid() && trace == old(trace) + Drain(names[..i])
      {
        assert names[..i + 1] == names[..i] + [names[i]];
        DrainAppend(names[..i], names[i]);
        DrainDeferredMigration(names[i]);
      }
      assert names[..|names|] == names;
    }

    /** Contracts what the deployment left pending when nothing is active. */
    method FinishContraction(force: bool) returns (outcome: Outcome)
      requires Valid() && !HasActive(state.rows)
      modifies this, state
      ensures Valid() && trace == old(trace) + ContractionProgram(old(Db()), force, views)
      ensures outcome == if ContractionRefused(old(Db()), force, views) then Unfinished else Done
    {
      hide Run, Apply, Drain, Drops, LastDrain, SealedDrain, OwnComplete, DrainProgram, CompleteProgram, ContractionProgram,
        QueueNames, NeedsLiveDrop, Others, LiveDrop, ContractionRefused, Linear, NamesOf, Active;
      var queued := DeferredCompletes();
      QueueShape(Db(), queued, force, views);
      if |queued| == 0 {
        CloseWindow();
        return Done;
      }
      var live := state.rows[|state.rows| - 1].VersionSchema();
      var resuming := exists r :: r in state.rows && r.deferred && r.sealed;
      if !resuming && !force && (!views || live !in schemas) {
        return Unfinished;
      }
      var needsLiveDrop := QueueNeedsLiveDrop(queued);
      SealThenDrain(NamesOf(queued), needsLiveDrop, live);
      return Done;
    }

    method SealThenDrain(names: seq<string>, needsLiveDrop: bool, live: string)
      requires Valid() && names != []
      modifies this, state
      ensures Valid()
      ensures trace == old(trace) + ([Seal] + DrainProgram(old(schemas), names, LiveDrop(needsLiveDrop, live, views), live, views))
    {
      hide DrainProgram, Run, LiveDrop;
      Exec(Seal);
      assert schemas == old(schemas);
      DrainAll(names, needsLiveDrop, live);
    }

    /** Nothing queued: stamp what is open, and converge the schemas when the leaf has its projection. */
    method CloseWindow()
      requires Valid() && QueueNames(state.rows) == []
      modifies this, state
      ensures Valid() && trace == old(trace) + ContractionProgram(old(Db()), false, views)
    {
      hide Run, Drops, QueueNames, ContractionProgram, Without, Linear;
      ClosingProgram(Db(), views);
      Exec(Seal);
      SealedLeaf(old(state.rows));
      if views && |state.rows| > 0 && state.rows[|state.rows| - 1].VersionSchema() in schemas {
        DropVersionSchemasExcept(state.rows[|state.rows| - 1].VersionSchema());
      }
    }

    /** After the stamp: the drops, the drain, and the last flag once the projection is rebuilt. */
    method DrainAll(names: seq<string>, needsLiveDrop: bool, live: string)
      requires Valid() && names != []
      modifies this, state
      ensures Valid()
      ensures trace == old(trace) + DrainProgram(old(schemas), names, LiveDrop(needsLiveDrop, live, views), live, views)
    {
      hide Run, Drain, Drops, Without, Apply;
      DropAll(needsLiveDrop, live);
      var last := names[|names| - 1];
      DrainQueue(names[..|names| - 1]);
      CloseQueue(last, needsLiveDrop, live);
    }

    method DropAll(needsLiveDrop: bool, live: string)
      requires Valid()
      modifies this, state
      ensures Valid() && trace == old(trace) + Drops(Others(old(schemas), live, views) + LiveDrop(needsLiveDrop, live, views))
    {
      if views {
        DropVersionSchemasExcept(live);
        if needsLiveDrop {
          DropsAppend(Without(old(schemas), live), live);
          Exec(DropSchema(live));
        } else {
          assert Without(old(schemas), live) + [] == Without(old(schemas), live);
        }
      }
    }

    method CloseQueue(last: string, needsLiveDrop: bool, live: string)
      requires Valid()
      modifies this, state
      ensures Valid() && trace == old(trace) + LastDrain(last, LiveDrop(needsLiveDrop, live, views))
    {
      hide Run, Apply;
      Exec(BeginComplete(last));
      Exec(EndComplete(last));
      Exec(OtherDDL);
      if views && needsLiveDrop {
        Exec(CreateSchema(live));
      }
      Exec(UnsetDeferred(last));
      Exec(Seal);
    }

    /** Full Complete of the active migration. */
    method Complete() returns (outcome: Outcome)
      requires Valid()
      modifies this, state
      ensures Valid()
      ensures outcome == if HasActive(old(state.rows)) then Done else NotActive
      ensures trace == old(trace) + if HasActive(old(state.rows)) then CompleteProgram(old(Db()), Active(old(state.rows)), views) else []
    {
      if !HasActive(state.rows) {
        return NotActive;
      }
      CompleteActive(Active(state.rows));
      return Done;
    }

    method CompleteActive(a: Row)
      requires Valid()
      modifies this, state
      ensures Valid() && trace == old(trace) + CompleteProgram(old(Db()), a, views)
    {
      hide Run, Apply, Drain, Drops, LastDrain, SealedDrain, OwnComplete, DrainProgram, CompleteProgram, ContractionProgram,
        QueueNames, NeedsLiveDrop, Others, LiveDrop, ContractionRefused, Linear, NamesOf, Active;
      var live := a.VersionSchema();
      DropOthers(live);
      var queued := DeferredCompletes();
      var needsLiveDrop := QueueNeedsLiveDrop(queued);
      needsLiveDrop := needsLiveDrop || a.migration.CompleteRequiresLiveSchemaDrop();
      SealAndDrain(NamesOf(queued), needsLiveDrop, live);
      OwnCompletion(a.name, needsLiveDrop || a.migration.RequiresSchemaRefresh(), live);
      CompleteParts(old(trace), old(Db()), a, views);
    }

    method DropOthers(keep: string)
      requires Valid()
      modifies this, state
      ensures Valid() && state.rows == old(state.rows) && trace == old(trace) + Drops(Others(old(schemas), keep, views))
    {
      assert Drops([]) == [] by { DropsNone(); }
      if views {
        DropVersionSchemasExcept(keep);
      }
    }

    method SealAndDrain(names: seq<string>, needsLiveDrop: bool, live: string)
      requires Valid()
      modifies this, state
      ensures Valid() && trace == old(trace) + SealedDrain(names, LiveDrop(needsLiveDrop, live, views))
    {
      hide Run, Apply, Drain, Drops, LastDrain, SealedDrain, OwnComplete, DrainProgram, CompleteProgram, ContractionProgram,
        QueueNames, NeedsLiveDrop, Others, LiveDrop, ContractionRefused, Linear, NamesOf, Active;
      SealedDrainShape(names, live);
      LiveDropIs(needsLiveDrop, live, views);
      if |names| == 0 {
        return;
      }
      Exec(Seal);
      if needsLiveDrop && views {
        Exec(DropSchema(live));
      }
      DrainQueue(names);
    }

    method OwnCompletion(name: string, rebuild: bool, live: string)
      requires Valid()
      modifies this, state
      ensures Valid() && trace == old(trace) + OwnComplete(name, LiveDrop(rebuild, live, views))
    {
      hide Run, Apply;
      Exec(BeginComplete(name));
      Exec(EndComplete(name));
      if views && rebuild {
        Exec(CreateSchema(live));
      }
      Exec(SetDone(name));
      Exec(Seal);
    }

    /** Start: refused while a migration is active or when the name is taken. */
    method Start(name: string, m: Migration, now: int, project: bool) returns (outcome: Outcome)
      requires Valid() && forall r | r in state.rows :: r.createdAt < now
      modifies this, state
      ensures Valid() && trace == old(trace) + StartProgram(old(Db()), name, m, now, project)
      ensures outcome == Done <==> name !in RowNames(old(state.rows)) && !HasActive(old(state.rows))
    {
      hide Run, Apply;
      if HasActive(state.rows) || name in RowNames(state.rows) {
        return AlreadyActive;
      }
      var row := NewRow(state.rows, name, m, now);
      Exec(Insert(row));
      Exec(OtherDDL);
      if project {
        Exec(CreateSchema(row.VersionSchema()));
      }
      return Done;
    }

    /** One step of a batch: destructive completions are queued, the others run inline. */
    method StartAndComplete(name: string, m: Migration, now: int) returns (outcome: Outcome)
      requires Valid() && forall r | r in state.rows :: r.createdAt < now
      modifies this, state
      ensures Valid() && trace == old(trace) + IntermediateProgram(old(Db()), name, m, now)
      ensures outcome == Done <==> name !in RowNames(old(state.rows)) && !HasActive(old(state.rows))
    {
      hide Run, Apply;
      outcome := Start(name, m, now, false);
      if outcome != Done {
        return;
      }
      if m.CompleteMustBeDeferred() {
        Exec(SetDeferred(name));
      } else {
        Exec(BeginComplete(name));
        Exec(EndComplete(name));
        Exec(SetDone(name));
      }
    }

    /** Gives the leaf its version schema when it has none. */
    method EnsureLeafVersionSchema()
      requires Valid()
      modifies this, state
      ensures Valid() && state.rows == old(state.rows) && trace == old(trace) + LeafProjection(state.rows, views)
    {
      hide Run;
      if views && |state.rows| > 0 {
        Exec(CreateSchema(state.rows[|state.rows| - 1].VersionSchema()));
      }
    }

    /** Undoes the expand phase of one migration and removes its row. */
    method RollbackRow(a: Row)
      requires Valid()
      modifies this, state
      ensures Valid() && trace == old(trace) + RollbackProgram(a)
      ensures state.rows == if ParentAt(old(state.rows), |old(state.rows)|) == Some(a.name) then old(state.rows)[..|old(state.rows)| - 1] else old(state.rows)
    {
      hide Run;
      Exec(DropSchema(a.VersionSchema()));
      Exec(OtherDDL);
      Exec(DeleteRow(a.name));
    }

    method Rollback() returns (outcome: Outcome)
      requires Valid()
      modifies this, state
      ensures Valid()
      ensures outcome == if HasActive(old(state.rows)) then Done else NotActive
      ensures trace == old(trace) + if HasActive(old(state.rows)) then RollbackProgram(Active(old(state.rows))) else []
    {
      if !HasActive(state.rows) {
        return NotActive;
      }
      RollbackRow(Active(state.rows));
      return Done;
    }

    /** Reverts the newest `n` rows, leaf by leaf, then gives the new leaf its projection. */
    method RevertNewest(n: nat)
      requires Valid() && n <= |state.rows|
      modifies this, state
      ensures Valid() && trace == old(trace) + RevertProgram(old(state.rows), n, views)
      ensures state.rows == old(state.rows)[..|old(state.rows)| - n]
    {
      hide Run, Apply, Linear, RevertProgram, RollbackProgram, LeafProjection;
      ghost var rows, before := state.rows, trace;
      for i := 0 to n
        invariant Valid() && state.rows == rows[..|rows| - i]
        invariant before + RevertProgram(rows, n, views) == trace + RevertProgram(state.rows, n - i, views)
      {
        RevertStep(trace, state.rows, n - i, views);
        RollbackNewest(state.rows[|state.rows| - 1]);
      }
      RevertEnd(state.rows, views);
      EnsureLeafVersionSchema();
    }

    method RollbackNewest(leaf: Row)
      requires Valid() && |state.rows| > 0 && leaf == state.rows[|state.rows| - 1]
      modifies this, state
      ensures Valid() && trace == old(trace) + RollbackProgram(leaf) && state.rows == old(state.rows)[..|old(state.rows)| - 1]
    {
      hide Run, Apply, Linear, RollbackProgram;
      RollbackRow(leaf);
    }
  }

  lemma RevertStep(t: seq<Stmt>, rows: seq<Row>, n: nat, views: bool)
    requires 0 < n <= |rows|
    ensures var leaf, below := rows[|rows| - 1], rows[..|rows| - 1];
            t + RevertProgram(rows, n, views) == (t + RollbackProgram(leaf)) + RevertProgram(below, n - 1, views)
  {
    hide RollbackProgram, LeafProjection;
  }

  lemma RevertEnd(rows: seq<Row>, views: bool)
    ensures RevertProgram(rows, 0, views) == LeafProjection(rows, views)
  {
  }
}
