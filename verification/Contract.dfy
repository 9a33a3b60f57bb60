/** Contracting a deployment: what an interrupted contraction leaves, and what re-running it does. */
module Contract {
  import opened Database
  import opened History
  import opened Lifecycle

  // ----- The queue -----

  /** The identities of the queued rows, in chain order. */
  function QueueIds(rows: seq<Row>): (ids: seq<int>)
    ensures |ids| == |QueueNames(rows)|
  {
    if rows == [] then [] else (if rows[0].deferred then [rows[0].createdAt] else []) + QueueIds(rows[1..])
  }

  predicate SameQueue(a: seq<Row>, b: seq<Row>)
  {
    |a| == |b| && forall i :: 0 <= i < |a| ==> a[i].name == b[i].name && a[i].createdAt == b[i].createdAt && a[i].deferred == b[i].deferred
  }

  lemma {:induction false} SameQueueNames(a: seq<Row>, b: seq<Row>)
    requires SameQueue(a, b)
    ensures QueueNames(a) == QueueNames(b) && QueueIds(a) == QueueIds(b)
  {
    if a != [] {
      SameQueueNames(a[1..], b[1..]);
    }
  }

  ghost predicate DistinctRows(rows: seq<Row>)
  {
    forall i, j :: 0 <= i < j < |rows| ==> rows[i].name != rows[j].name
  }

  predicate Heads(rows: seq<Row>, name: string)
  {
    QueueNames(rows) != [] && QueueNames(rows)[0] == name
  }

  /** The head of the queue is the first queued row. */
  lemma {:induction false} HeadRow(rows: seq<Row>, name: string) returns (h: nat)
    requires DistinctRows(rows) && Heads(rows, name)
    ensures h < |rows| && rows[h].deferred && rows[h].name == name && rows[h].createdAt == QueueIds(rows)[0]
    ensures IdsNamed(rows, name) == [QueueIds(rows)[0]]
  {
    if rows[0].deferred {
      NoneNamed(rows[1..], name);
      h := 0;
    } else {
      h := HeadRow(rows[1..], name);
      assert rows[h + 1].name == name;
      h := h + 1;
    }
  }

  lemma {:induction false} NoneNamed(rows: seq<Row>, name: string)
    requires forall i :: 0 <= i < |rows| ==> rows[i].name != name
    ensures IdsNamed(rows, name) == [] && Updated(rows, name, ClearDeferred) == rows
  {
    if rows != [] {
      NoneNamed(rows[1..], name);
    }
  }

  /** Clearing the flag of the head takes it, and only it, off the queue. */
  lemma {:induction false} Dequeue(rows: seq<Row>, name: string)
    requires DistinctRows(rows) && Heads(rows, name)
    ensures var after := Updated(rows, name, ClearDeferred);
            QueueNames(after) == QueueNames(rows)[1..] && QueueIds(after) == QueueIds(rows)[1..]
  {
    var after := Updated(rows, name, ClearDeferred);
    assert after[1..] == Updated(rows[1..], name, ClearDeferred);
    if rows[0].deferred {
      NoneNamed(rows[1..], name);
    } else {
      Dequeue(rows[1..], name);
    }
  }

  lemma {:induction false} QueueMembers(rows: seq<Row>)
    ensures QueueNames(rows) == [] <==> forall i :: 0 <= i < |rows| ==> !rows[i].deferred
  {
    if rows != [] {
      QueueMembers(rows[1..]);
    }
  }

  // ----- Where a contraction is heading -----

  predicate AllDone(rows: seq<Row>)
  {
    forall i :: 0 <= i < |rows| ==> rows[i].done
  }

  predicate AllSealed(rows: seq<Row>)
  {
    forall i :: 0 <= i < |rows| ==> rows[i].sealed
  }

  /** Sealed, off the queue, and contracted if it was queued. */
  function FinalRows(rows: seq<Row>): (r: seq<Row>)
    ensures |r| == |rows|
    ensures forall i :: 0 <= i < |rows| ==>
              r[i] == rows[i].(sealed := true, deferred := false, contracting := rows[i].contracting || rows[i].deferred)
  {
    seq(|rows|, i requires 0 <= i < |rows| =>
      rows[i].(sealed := true, deferred := false, contracting := rows[i].contracting || rows[i].deferred))
  }

  /** Every queued Complete applied once, in chain order, after what had completed before. */
  function FinalLog(db: DB): seq<int>
  {
    Once(db.completed, QueueIds(db.rows))
  }

  lemma {:induction false} OnceAppends(completed: seq<int>, ids: seq<int>)
    requires forall i :: 0 <= i < |ids| ==> ids[i] !in completed
    requires forall i, j :: 0 <= i < j < |ids| ==> ids[i] != ids[j]
    ensures Once(completed, ids) == completed + ids
    decreases |ids|
  {
    if ids != [] {
      OnceAppends(completed + [ids[0]], ids[1..]);
      assert completed + [ids[0]] + ids[1..] == completed + ids;
    } else {
      assert completed + ids == completed;
    }
  }

  lemma OnceOne(completed: seq<int>, x: int)
    ensures Once(completed, [x]) == if x in completed then completed else completed + [x]
  {
    assert [x][1..] == [];
    assert forall c: seq<int> :: Once(c, []) == c;
  }

  /** A step of the contraction that leaves its destination unchanged. */
  predicate Steady(db: DB, s: Stmt)
  {
    match s
    case CreateSchema(_) => true
    case DropSchema(_) => true
    case OtherDDL => true
    case Seal => true
    case BeginComplete(n) => Heads(db.rows, n)
    case EndComplete(n) => Heads(db.rows, n)
    case UnsetDeferred(n) =>
      && Heads(db.rows, n) && QueueIds(db.rows)[0] in db.completed
      && forall i :: 0 <= i < |db.rows| && db.rows[i].name == n ==> db.rows[i].contracting
    case _ => false
  }

  ghost predicate Ready(db: DB)
  {
    DistinctRows(db.rows)
  }

  /** Whatever leaves the destination unchanged leaves `done` unchanged. */
  lemma DoneKept(a: seq<Row>, b: seq<Row>)
    requires FinalRows(a) == FinalRows(b)
    ensures AllDone(a) == AllDone(b)
  {
    assert |a| == |b|;
    assert forall i :: 0 <= i < |a| ==> FinalRows(a)[i].done == a[i].done && FinalRows(b)[i].done == b[i].done;
  }

  /** Beginning the head's Complete. */
  lemma BeginKeeps(rows: seq<Row>, n: string)
    requires DistinctRows(rows) && Heads(rows, n)
    ensures FinalRows(Updated(rows, n, Begin)) == FinalRows(rows)
    ensures QueueNames(Updated(rows, n, Begin)) == QueueNames(rows) && QueueIds(Updated(rows, n, Begin)) == QueueIds(rows)
  {
    var h := HeadRow(rows, n);
    SameQueueNames(rows, Updated(rows, n, Begin));
    hide QueueNames, QueueIds, Heads, IdsNamed;
    assert forall i :: 0 <= i < |rows| && rows[i].name == n ==> i == h;
  }

  lemma SealKeeps(rows: seq<Row>)
    ensures FinalRows(Sealed(rows)) == FinalRows(rows) && (AllDone(rows) ==> AllSealed(Sealed(rows)))
    ensures QueueNames(Sealed(rows)) == QueueNames(rows) && QueueIds(Sealed(rows)) == QueueIds(rows)
  {
    SameQueueNames(rows, Sealed(rows));
    hide QueueNames, QueueIds;
  }

  lemma ClearKeeps(rows: seq<Row>, n: string)
    requires forall i :: 0 <= i < |rows| && rows[i].name == n ==> rows[i].contracting
    ensures FinalRows(Updated(rows, n, ClearDeferred)) == FinalRows(rows)
  {
  }

  lemma LogKeeps(completed: seq<int>, ids: seq<int>)
    requires ids != []
    ensures Once(Once(completed, ids[..1]), ids) == Once(completed, ids)
    ensures ids[0] in completed ==> Once(completed, ids[1..]) == Once(completed, ids)
  {
    OnceOne(completed, ids[0]);
    assert ids[..1] == [ids[0]];
  }

  lemma SteadyKeeps(db: DB, s: Stmt)
    requires Ready(db) && Steady(db, s)
    ensures var after := Apply(db, s);
            && Ready(after) && FinalRows(after.rows) == FinalRows(db.rows) && FinalLog(after) == FinalLog(db)
            && (AllSealed(db.rows) ==> AllSealed(after.rows))
  {
    hide FinalRows, QueueNames, QueueIds, Once, IdsNamed;
    match s
    case BeginComplete(n) => BeginKeeps(db.rows, n);
    case EndComplete(n) =>
      var h := HeadRow(db.rows, n);
      LogKeeps(db.completed, QueueIds(db.rows));
      assert QueueIds(db.rows)[..1] == [QueueIds(db.rows)[0]];
    case UnsetDeferred(n) =>
      Dequeue(db.rows, n);
      ClearKeeps(db.rows, n);
      LogKeeps(db.completed, QueueIds(db.rows));
    case Seal => SealKeeps(db.rows);
    case _ =>
  }

  ghost predicate AllSteady(db: DB, ss: seq<Stmt>)
    decreases |ss|
  {
    ss != [] ==> Steady(db, ss[0]) && AllSteady(Apply(db, ss[0]), ss[1..])
  }

  lemma {:induction false} SteadyRun(db: DB, ss: seq<Stmt>, k: nat)
    requires Ready(db) && AllSteady(db, ss) && k <= |ss|
    ensures var after := Run(db, ss[..k]);
            && Ready(after) && FinalRows(after.rows) == FinalRows(db.rows) && FinalLog(after) == FinalLog(db)
            && AllSteady(after, ss[k..])
            && (AllSealed(db.rows) ==> AllSealed(after.rows))
    decreases k
  {
    if k != 0 {
      SteadyKeeps(db, ss[0]);
      assert ss[..k][1..] == ss[1..][..k - 1] && ss[1..][k - 1..] == ss[k..];
      SteadyRun(Apply(db, ss[0]), ss[1..], k - 1);
    } else {
      assert ss[..k] == [] && ss[k..] == ss;
    }
  }

  lemma {:induction false} SteadyConcat(db: DB, a: seq<Stmt>, b: seq<Stmt>)
    requires AllSteady(db, a) && AllSteady(Run(db, a), b)
    ensures AllSteady(db, a + b)
    decreases |a|
  {
    if a == [] {
      assert a + b == b;
    } else {
      assert (a + b)[0] == a[0] && (a + b)[1..] == a[1..] + b;
      SteadyConcat(Apply(db, a[0]), a[1..], b);
    }
  }

  /** Draining the head is steady and takes it off the queue. */
  lemma CompleteHead(db: DB, n: string) returns (after: DB)
    requires Ready(db) && Heads(db.rows, n)
    ensures after == Apply(Apply(db, BeginComplete(n)), EndComplete(n))
    ensures Ready(after) && Steady(db, BeginComplete(n)) && Steady(Apply(db, BeginComplete(n)), EndComplete(n))
    ensures Steady(after, UnsetDeferred(n)) && QueueNames(after.rows) == QueueNames(db.rows)
    ensures QueueNames(Apply(after, UnsetDeferred(n)).rows) == QueueNames(db.rows)[1..]
  {
    hide QueueNames, QueueIds, IdsNamed, Once, FinalRows;
    BeginKeeps(db.rows, n);
    var begun := Apply(db, BeginComplete(n));
    SteadyKeeps(db, BeginComplete(n));
    SteadyKeeps(begun, EndComplete(n));
    after := Apply(begun, EndComplete(n));
    var h := HeadRow(begun.rows, n);
    OnceOne(begun.completed, QueueIds(begun.rows)[0]);
    Dequeue(after.rows, n);
  }

  lemma {:induction false} DrainSteady(db: DB, names: seq<string>, rest: seq<string>)
    requires Ready(db) && QueueNames(db.rows) == names + rest
    ensures AllSteady(db, Drain(names))
    ensures var after := Run(db, Drain(names)); Ready(after) && QueueNames(after.rows) == rest
    decreases |names|
  {
    if names == [] {
      assert names + rest == rest;
    } else {
      var n := names[0];
      var before := CompleteHead(db, n);
      var next := Apply(before, UnsetDeferred(n));
      SteadyKeeps(before, UnsetDeferred(n));
      assert (names + rest)[1..] == names[1..] + rest;
      DrainSteady(next, names[1..], rest);
      var p := Drain(names);
      assert p[1..][1..][1..] == Drain(names[1..]);
      hide QueueNames, Ready, Apply, Steady, Drain;
      UnfoldThree(db, p);
    }
  }

  lemma UnfoldThree(db: DB, p: seq<Stmt>)
    requires |p| >= 3
    ensures var third := Apply(Apply(Apply(db, p[0]), p[1]), p[2]);
            && Run(db, p) == Run(third, p[1..][1..][1..])
            && (AllSteady(db, p) <==> Steady(db, p[0]) && Steady(Apply(db, p[0]), p[1]) && Steady(Apply(Apply(db, p[0]), p[1]), p[2])
                                      && AllSteady(third, p[1..][1..][1..]))
  {
    hide Apply, Steady;
    var one, two := Apply(db, p[0]), Apply(Apply(db, p[0]), p[1]);
    assert Run(one, p[1..]) == Run(two, p[1..][1..]);
    assert AllSteady(one, p[1..]) <==> Steady(one, p[1]) && AllSteady(two, p[1..][1..]);
    assert AllSteady(two, p[1..][1..]) <==> Steady(two, p[2]) && AllSteady(Apply(two, p[2]), p[1..][1..][1..]);
  }

  function WithoutAll(schemas: seq<string>, names: seq<string>): (r: seq<string>)
    ensures forall s :: s in r <==> s in schemas && s !in names
    decreases |names|
  {
    if names == [] then schemas else
      assert names == [names[0]] + names[1..];
      WithoutAll(Without(schemas, names[0]), names[1..])
  }

  lemma {:induction false} DropsSteady(db: DB, names: seq<string>)
    ensures AllSteady(db, Drops(names)) && Run(db, Drops(names)) == db.(schemas := WithoutAll(db.schemas, names))
    decreases |names|
  {
    if names != [] {
      assert Drops(names)[1..] == Drops(names[1..]);
      DropsSteady(Apply(db, DropSchema(names[0])), names[1..]);
    }
  }

  /** The end of a contraction once the last Complete has run. */
  function Closing(last: string, rebuilt: seq<string>): seq<Stmt>
  {
    if rebuilt == [] then [UnsetDeferred(last), Seal] else [CreateSchema(rebuilt[0])] + [UnsetDeferred(last), Seal]
  }

  lemma ClosingSteady(db: DB, last: string, rebuilt: seq<string>)
    requires Ready(db) && Steady(db, UnsetDeferred(last)) && QueueNames(Apply(db, UnsetDeferred(last)).rows) == []
    ensures AllSteady(db, Closing(last, rebuilt)) && QueueNames(Run(db, Closing(last, rebuilt)).rows) == []
  {
    var built := if rebuilt == [] then db else Apply(db, CreateSchema(rebuilt[0]));
    assert built.rows == db.rows && built.completed == db.completed;
    var cleared := Apply(built, UnsetDeferred(last));
    SteadyKeeps(built, UnsetDeferred(last));
    SealKeeps(cleared.rows);
    assert Steady(built, UnsetDeferred(last)) && Steady(cleared, Seal);
    hide QueueNames, QueueIds, Sealed, Updated, FinalRows, FinalLog, AllSteady, Steady, Run;
    UnfoldTwo(built, UnsetDeferred(last), Seal);
    if rebuilt != [] {
      CreateSteady(db, rebuilt[0], [UnsetDeferred(last), Seal]);
    }
  }

  /** The last flag goes once the projection is back, and the window is closed behind it. */
  lemma LastSteady(db: DB, last: string, rebuilt: seq<string>)
    requires Ready(db) && QueueNames(db.rows) == [last]
    ensures AllSteady(db, LastDrain(last, rebuilt))
    ensures QueueNames(Run(db, LastDrain(last, rebuilt)).rows) == []
  {
    var ddl := CompleteHead(db, last);
    ClosingSteady(ddl, last, rebuilt);
    hide Steady, QueueNames, AllSteady, Run, Ready;
    var p := LastDrain(last, rebuilt);
    assert p[1..][1..][1..] == Closing(last, rebuilt);
    OtherSteady(ddl);
    hide Closing, LastDrain, Apply;
    UnfoldThree(db, p);
  }

  lemma OtherSteady(db: DB)
    ensures Steady(db, OtherDDL) && Apply(db, OtherDDL) == db
  {
  }

  lemma CreateSteady(db: DB, name: string, rest: seq<Stmt>)
    requires AllSteady(Apply(db, CreateSchema(name)), rest)
    ensures AllSteady(db, [CreateSchema(name)] + rest)
    ensures Run(db, [CreateSchema(name)] + rest) == Run(Apply(db, CreateSchema(name)), rest)
  {
    assert ([CreateSchema(name)] + rest)[1..] == rest;
  }

  lemma UnfoldTwo(db: DB, a: Stmt, b: Stmt)
    ensures Run(db, [a, b]) == Apply(Apply(db, a), b)
    ensures AllSteady(db, [a, b]) <==> Steady(db, a) && Steady(Apply(db, a), b)
  {
    hide Apply, Steady;
    RunTwo(db, a, b);
    assert [a, b][1..] == [b] && [b][1..] == [];
    assert AllSteady(Apply(db, a), [b]) <==> Steady(Apply(db, a), b);
  }

  lemma DrainProgramSteady(db: DB, dropped: seq<string>, live: string, views: bool)
    requires Ready(db) && AllSealed(db.rows) && QueueNames(db.rows) != []
    ensures var p := DrainProgram(db.schemas, QueueNames(db.rows), dropped, live, views);
            AllSteady(db, p) && QueueNames(Run(db, p).rows) == []
  {
    hide *;
    var q := QueueNames(db.rows);
    var names := Others(db.schemas, live, views) + dropped;
    var init, last := q[..|q| - 1], q[|q| - 1];
    var a, b, c := Drops(names), Drain(init), LastDrain(last, dropped);
    DropsSteady(db, names);
    var db1 := Run(db, a);
    SameRows(db, db1);
    assert q == init + [last];
    DrainSteady(db1, init, [last]);
    var db2 := Run(db1, b);
    LastSteady(db2, last, dropped);
    SteadyConcat(db1, b, c);
    RunConcat(db1, b, c);
    SteadyConcat(db, a, b + c);
    RunConcat(db, a, b + c);
    DrainProgramIs(db.schemas, q, dropped, live, views);
  }

  lemma SameRows(a: DB, b: DB)
    requires a.rows == b.rows
    ensures Ready(a) == Ready(b)
  {
  }

  lemma DrainProgramIs(schemas: seq<string>, q: seq<string>, dropped: seq<string>, live: string, views: bool)
    requires q != []
    ensures DrainProgram(schemas, q, dropped, live, views) ==
            Drops(Others(schemas, live, views) + dropped) + (Drain(q[..|q| - 1]) + LastDrain(q[|q| - 1], dropped))
  {
  }

  /** What a contraction does after its first stamp. */
  function AfterSeal(db: DB, views: bool): seq<Stmt>
  {
    if db.rows == [] then [] else
      var q, live := QueueNames(db.rows), db.rows[|db.rows| - 1].VersionSchema();
      if q == [] then Drops(Others(db.schemas, live, views && live in db.schemas))
      else DrainProgram(db.schemas, q, LiveDrop(NeedsLiveDrop(db.rows), live, views), live, views)
  }

  lemma AfterSealSteady(db: DB, views: bool)
    requires Ready(db) && AllSealed(db.rows)
    ensures AllSteady(db, AfterSeal(db, views)) && QueueNames(Run(db, AfterSeal(db, views)).rows) == []
  {
    hide *;
    AfterSealIs(db, views);
    if db.rows == [] || QueueNames(db.rows) == [] {
      var names := if db.rows == [] then [] else OldSchemas(db, views);
      DropsSteady(db, names);
    } else {
      var live := db.rows[|db.rows| - 1].VersionSchema();
      DrainProgramSteady(db, LiveDrop(NeedsLiveDrop(db.rows), live, views), live, views);
    }
  }

  function OldSchemas(db: DB, views: bool): seq<string>
    requires db.rows != []
  {
    var live := db.rows[|db.rows| - 1].VersionSchema();
    Others(db.schemas, live, views && live in db.schemas)
  }

  lemma AfterSealIs(db: DB, views: bool)
    ensures QueueNames([]) == []
    ensures db.rows == [] ==> AfterSeal(db, views) == Drops([])
    ensures db.rows != [] && QueueNames(db.rows) == [] ==> AfterSeal(db, views) == Drops(OldSchemas(db, views))
    ensures db.rows != [] && QueueNames(db.rows) != [] ==>
              var live := db.rows[|db.rows| - 1].VersionSchema();
              AfterSeal(db, views) == DrainProgram(db.schemas, QueueNames(db.rows), LiveDrop(NeedsLiveDrop(db.rows), live, views), live, views)
  {
    hide DrainProgram, NeedsLiveDrop, Others;
  }

  /** Nothing the rest of a contraction is made from depends on the stamp. */
  lemma ContractionShape(db: DB, force: bool, views: bool)
    requires AllDone(db.rows)
    ensures ContractionProgram(db, force, views) ==
            if ContractionRefused(db, force, views) then [] else [Seal] + AfterSeal(Apply(db, Seal), views)
  {
    hide *;
    StampChangesNothing(db.rows);
    StampedParts(db);
    ContractionIs(db, force, views);
    AfterSealUnfolds(Apply(db, Seal), views);
    RefusedIs(db, force, views);
    assert db.rows == [] ==> [Seal] + [] == [Seal];
  }

  lemma AfterSealUnfolds(db: DB, views: bool)
    ensures AfterSeal(db, views) ==
            if db.rows == [] then []
            else
              var q, live := QueueNames(db.rows), db.rows[|db.rows| - 1].VersionSchema();
              if q == [] then Drops(Others(db.schemas, live, views && live in db.schemas))
              else DrainProgram(db.schemas, q, LiveDrop(NeedsLiveDrop(db.rows), live, views), live, views)
  {
    hide QueueNames, NeedsLiveDrop, Drops, DrainProgram, Others, LiveDrop;
  }

  lemma StampedParts(db: DB)
    ensures Apply(db, Seal).rows == Sealed(db.rows) && Apply(db, Seal).schemas == db.schemas && |Sealed(db.rows)| == |db.rows|
  {
  }

  lemma RefusedIs(db: DB, force: bool, views: bool)
    ensures ContractionRefused(db, force, views) ==> QueueNames(db.rows) != [] && db.rows != []
  {
  }

  lemma ContractionIs(db: DB, force: bool, views: bool)
    ensures ContractionProgram(db, force, views) ==
            if db.rows == [] then [Seal]
            else
              var q, live := QueueNames(db.rows), db.rows[|db.rows| - 1].VersionSchema();
              if q == [] then [Seal] + Drops(Others(db.schemas, live, views && live in db.schemas))
              else if ContractionRefused(db, force, views) then []
              else [Seal] + DrainProgram(db.schemas, q, LiveDrop(NeedsLiveDrop(db.rows), live, views), live, views)
  {
    hide QueueNames, NeedsLiveDrop, Drops, DrainProgram, Others, ContractionRefused, LiveDrop;
  }

  lemma StampChangesNothing(rows: seq<Row>)
    requires AllDone(rows)
    ensures QueueNames(Sealed(rows)) == QueueNames(rows) && NeedsLiveDrop(Sealed(rows)) == NeedsLiveDrop(rows) && |Sealed(rows)| == |rows|
    ensures rows != [] ==> Sealed(rows)[|rows| - 1].VersionSchema() == rows[|rows| - 1].VersionSchema()
  {
    SealKeeps(rows);
    hide QueueNames;
  }

  /** Every statement of a contraction leaves its destination unchanged, and a full run arrives. */
  lemma ContractionSteady(db: DB, force: bool, views: bool)
    requires Ready(db) && AllDone(db.rows)
    ensures var p := ContractionProgram(db, force, views);
            && AllSteady(db, p)
            && (!ContractionRefused(db, force, views) ==> QueueNames(Run(db, p).rows) == [] && AllSealed(Run(db, p).rows))
  {
    hide *;
    var sealed := Apply(db, Seal);
    var rest := AfterSeal(sealed, views);
    ContractionShape(db, force, views);
    SealKeeps(db.rows);
    StampedParts(db);
    StampSteady(db);
    SealIsSteady(db);
    AfterSealSteady(sealed, views);
    assert rest[..|rest|] == rest;
    SteadyRun(sealed, rest, |rest|);
    SteadyConcat(db, [Seal], rest);
    RunConcat(db, [Seal], rest);
    NoneSteady(db);
  }

  lemma SealIsSteady(db: DB)
    ensures AllSteady(db, [Seal]) && Run(db, [Seal]) == Apply(db, Seal)
  {
    RunOne(db, Seal);
    assert [Seal][1..] == [] && AllSteady(Apply(db, Seal), []);
  }

  lemma NoneSteady(db: DB)
    ensures AllSteady(db, [])
  {
  }

  /** A contraction that is not refused ends with every row sealed, no flag set, and every queued Complete applied in order. */
  lemma Finishes(db: DB, force: bool, views: bool)
    requires Ready(db) && AllDone(db.rows) && !ContractionRefused(db, force, views)
    ensures var after := Run(db, ContractionProgram(db, force, views));
            after.rows == FinalRows(db.rows) && after.completed == FinalLog(db)
  {
    hide *;
    var p := ContractionProgram(db, force, views);
    var after := Run(db, p);
    ContractionSteady(db, force, views);
    SteadyRun(db, p, |p|);
    assert p[..|p|] == p;
    Arrived(after);
  }

  lemma Arrived(db: DB)
    requires QueueNames(db.rows) == [] && AllSealed(db.rows)
    ensures FinalRows(db.rows) == db.rows && FinalLog(db) == db.completed
  {
    QueueMembers(db.rows);
    assert QueueIds(db.rows) == [];
    hide QueueNames, QueueIds;
  }

  /** A state some interrupted contraction of `db` can leave. */
  ghost predicate Interrupted(db: DB, hit: DB)
  {
    Ready(hit) && AllDone(hit.rows) && AllSealed(hit.rows) && FinalRows(hit.rows) == FinalRows(db.rows) && FinalLog(hit) == FinalLog(db)
  }

  /** The contraction cut off after `k` statements. */
  ghost function CutOff(db: DB, k: nat, force: bool, views: bool): DB
  {
    var p := ContractionProgram(db, force, views);
    Run(db, p[..if k < |p| then k else |p|])
  }

  lemma CutOffIsInterrupted(db: DB, k: nat, force: bool, views: bool)
    requires Ready(db) && AllDone(db.rows) && !ContractionRefused(db, force, views) && (k > 0 || AllSealed(db.rows))
    ensures Interrupted(db, CutOff(db, k, force, views))
  {
    var p := ContractionProgram(db, force, views);
    ContractionShape(db, force, views);
    ContractionSteady(db, force, views);
    var n := if k < |p| then k else |p|;
    hide ContractionProgram, ContractionRefused, AfterSeal, AllSealed, FinalRows, FinalLog, Run, AllSteady;
    SteadyRun(db, p, n);
    DoneKept(Run(db, p[..n]).rows, db.rows);
    if k > 0 {
      StampedFirst(db, p, n);
    }
  }

  lemma StampedFirst(db: DB, p: seq<Stmt>, n: nat)
    requires Ready(db) && AllDone(db.rows) && AllSteady(db, p) && 0 < n <= |p| && p[0] == Seal
    ensures AllSealed(Run(db, p[..n]).rows)
  {
    SteadyKeeps(db, Seal);
    SealKeeps(db.rows);
    hide AllSealed, FinalRows, FinalLog, Steady, Sealed;
    assert p[..n][0] == Seal && p[..n][1..] == p[1..][..n - 1];
    SteadyRun(Apply(db, Seal), p[1..], n - 1);
  }

  /** A queue left by an interrupted contraction is recognised as such. */
  lemma NeverRefused(hit: DB, force: bool, views: bool)
    requires AllSealed(hit.rows)
    ensures !ContractionRefused(hit, force, views)
  {
    QueueMembers(hit.rows);
    if QueueNames(hit.rows) != [] {
      var i :| 0 <= i < |hit.rows| && hit.rows[i].deferred;
      assert hit.rows[i] in hit.rows;
    }
  }

  /** Re-running again and again, each attempt cut off somewhere. */
  ghost function Retried(db: DB, cuts: seq<(nat, bool)>, views: bool): DB
    decreases |cuts|
  {
    if cuts == [] then db else Retried(CutOff(db, cuts[0].0, cuts[0].1, views), cuts[1..], views)
  }

  lemma {:induction false} RetriedIsInterrupted(db: DB, hit: DB, cuts: seq<(nat, bool)>, views: bool)
    requires Interrupted(db, hit)
    ensures Interrupted(db, Retried(hit, cuts, views))
    decreases |cuts|
  {
    if cuts != [] {
      NeverRefused(hit, cuts[0].1, views);
      hide CutOff, ContractionRefused, FinalRows, FinalLog;
      CutOffIsInterrupted(hit, cuts[0].0, cuts[0].1, views);
      RetriedIsInterrupted(db, CutOff(hit, cuts[0].0, cuts[0].1, views), cuts[1..], views);
    }
  }

  /**
   * A contraction cut off anywhere after its first stamp, re-run and cut off again any number of
   * times, is never refused, and once a run gets through it has left exactly the rows and applied
   * exactly the Completes, in chain order, of an uninterrupted run.
   */
  lemma ContractionResumes(db: DB, force: bool, first: nat, cuts: seq<(nat, bool)>, again: bool, views: bool)
    requires Linear(db.rows) && AllDone(db.rows) && !ContractionRefused(db, force, views) && first > 0
    ensures var hit := Retried(CutOff(db, first, force, views), cuts, views);
            var resumed, straight := Run(hit, ContractionProgram(hit, again, views)), Run(db, ContractionProgram(db, force, views));
            && !ContractionRefused(hit, again, views)
            && resumed.rows == straight.rows == FinalRows(db.rows)
            && resumed.completed == straight.completed == FinalLog(db)
  {
    hide CutOff, ContractionRefused, ContractionProgram, FinalRows, FinalLog;
    CutOffIsInterrupted(db, first, force, views);
    RetriedIsInterrupted(db, CutOff(db, first, force, views), cuts, views);
    var hit := Retried(CutOff(db, first, force, views), cuts, views);
    NeverRefused(hit, again, views);
    Finishes(hit, again, views);
    Finishes(db, force, views);
  }

  /** With no queued Complete applied yet, the log gains exactly the queue, oldest first. */
  lemma LogGainsQueue(db: DB)
    requires Linear(db.rows) && forall r | r in db.rows && r.deferred :: r.createdAt !in db.completed
    ensures FinalLog(db) == db.completed + QueueIds(db.rows)
    ensures forall i, j :: 0 <= i < j < |QueueIds(db.rows)| ==> QueueIds(db.rows)[i] < QueueIds(db.rows)[j]
  {
    var ids := QueueIds(db.rows);
    QueueIncreasing(db.rows);
    assert forall i :: 0 <= i < |ids| ==> ids[i] in ids;
    OnceAppends(db.completed, ids);
  }

  lemma {:induction false} QueueIncreasing(rows: seq<Row>)
    requires forall i, j :: 0 <= i < j < |rows| ==> rows[i].createdAt < rows[j].createdAt
    ensures forall x | x in QueueIds(rows) :: exists r :: r in rows && r.deferred && r.createdAt == x
    ensures forall i, j :: 0 <= i < j < |QueueIds(rows)| ==> QueueIds(rows)[i] < QueueIds(rows)[j]
  {
    if rows != [] {
      var rest := QueueIds(rows[1..]);
      QueueIncreasing(rows[1..]);
      assert rows == [rows[0]] + rows[1..];
      assert forall i :: 0 <= i < |rest| ==> rest[i] in rest;
      assert QueueIds(rows) == (if rows[0].deferred then [rows[0].createdAt] else []) + rest;
      assert forall x | x in QueueIds(rows) :: x in rest || (rows[0].deferred && rows[0].createdAt == x);
    }
  }

  // ----- What a full Complete leaves -----

  function CompleteRow(r: Row): Row { r.(done := true, contracting := true) }

  /** The active row is the only one not done. */
  ghost predicate OnlyActive(rows: seq<Row>, a: Row)
  {
    a in rows && !a.deferred && !a.done && forall i :: 0 <= i < |rows| && rows[i] != a ==> rows[i].done
  }

  lemma SealedDrainRows(db: DB, dropped: seq<string>)
    requires Ready(db)
    ensures var mid := Run(db, SealedDrain(QueueNames(db.rows), dropped));
            Ready(mid) && FinalRows(mid.rows) == FinalRows(db.rows) && QueueNames(mid.rows) == []
  {
    hide *;
    var q := QueueNames(db.rows);
    SealedDrainIs(q, dropped);
    if q == [] {
      RunNothing(db);
    } else {
      var sealed, a, b := Apply(db, Seal), Drops(dropped), Drain(q);
      StampSteady(db);
      DropsSteady(sealed, dropped);
      var clear := Run(sealed, a);
      SameRows(sealed, clear);
      assert q + [] == q;
      DrainSteady(clear, q, []);
      SteadyRun(clear, b, |b|);
      assert b[..|b|] == b;
      RunConcat(db, [Seal], a + b);
      RunOne(db, Seal);
      RunConcat(sealed, a, b);
    }
  }

  lemma StampSteady(db: DB)
    requires Ready(db)
    ensures Ready(Apply(db, Seal)) && FinalRows(Apply(db, Seal).rows) == FinalRows(db.rows)
    ensures QueueNames(Apply(db, Seal).rows) == QueueNames(db.rows)
  {
    SealKeeps(db.rows);
    hide QueueNames, QueueIds;
  }

  lemma RunNothing(db: DB)
    ensures Run(db, []) == db
  {
  }

  lemma SealedDrainIs(q: seq<string>, dropped: seq<string>)
    ensures SealedDrain(q, dropped) == if q == [] then [] else [Seal] + (Drops(dropped) + Drain(q))
  {
  }

  /** From a drained state: the active row contracted and done, and everything sealed. */
  lemma OwnRows(db: DB, start: seq<Row>, a: Row, rebuilt: seq<string>)
    requires DistinctRows(start) && OnlyActive(start, a) && FinalRows(db.rows) == FinalRows(start) && QueueNames(db.rows) == []
    ensures Run(db, OwnComplete(a.name, rebuilt)).rows == Updated(FinalRows(start), a.name, CompleteRow)
  {
    OwnRun(db, a.name, rebuilt);
    QueueMembers(db.rows);
    hide QueueNames, Run, OwnComplete;
    var rows := db.rows;
    var after := Sealed(Updated(Updated(rows, a.name, Begin), a.name, MarkDone));
    forall i | 0 <= i < |rows| ensures after[i] == Updated(FinalRows(start), a.name, CompleteRow)[i] {
      assert FinalRows(rows)[i] == FinalRows(start)[i];
    }
  }

  lemma OwnRun(db: DB, name: string, rebuilt: seq<string>)
    ensures Run(db, OwnComplete(name, rebuilt)).rows == Sealed(Updated(Updated(db.rows, name, Begin), name, MarkDone))
  {
    var begun := Apply(Apply(db, BeginComplete(name)), EndComplete(name));
    RunTwo(db, BeginComplete(name), EndComplete(name));
    var built := if rebuilt == [] then begun else Apply(begun, CreateSchema(rebuilt[0]));
    RunTwo(built, SetDone(name), Seal);
    var head, tail := [BeginComplete(name), EndComplete(name)], [SetDone(name), Seal];
    hide Run;
    if rebuilt == [] {
      assert OwnComplete(name, rebuilt) == head + tail;
      RunConcat(db, head, tail);
    } else {
      assert OwnComplete(name, rebuilt) == head + ([CreateSchema(rebuilt[0])] + tail);
      RunConcat(db, head, [CreateSchema(rebuilt[0])] + tail);
      RunConcat(begun, [CreateSchema(rebuilt[0])], tail);
      RunOne(begun, CreateSchema(rebuilt[0]));
    }
  }

  /** A full Complete settles every row: sealed, off the queue, contracted if it was queued or active. */
  lemma CompletedRows(db: DB, a: Row, views: bool)
    requires DistinctRows(db.rows) && OnlyActive(db.rows, a)
    ensures Run(db, CompleteProgram(db, a, views)).rows == Updated(FinalRows(db.rows), a.name, CompleteRow)
  {
    hide *;
    var dropped, rebuilt := CompleteParts(db, a, views);
    var others := Others(db.schemas, a.VersionSchema(), views);
    DropsSteady(db, others);
    var clear := Run(db, Drops(others));
    ReadyIs(db, clear);
    SealedDrainRows(clear, dropped);
    var mid := Run(clear, SealedDrain(QueueNames(db.rows), dropped));
    OwnRows(mid, db.rows, a, rebuilt);
    RunConcat(clear, SealedDrain(QueueNames(db.rows), dropped), OwnComplete(a.name, rebuilt));
    RunConcat(db, Drops(others), SealedDrain(QueueNames(db.rows), dropped) + OwnComplete(a.name, rebuilt));
  }

  lemma ReadyIs(db: DB, same: DB)
    requires DistinctRows(db.rows) && same.rows == db.rows
    ensures Ready(same)
  {
  }

  lemma CompleteParts(db: DB, a: Row, views: bool) returns (dropped: seq<string>, rebuilt: seq<string>)
    ensures CompleteProgram(db, a, views) ==
            Drops(Others(db.schemas, a.VersionSchema(), views)) + (SealedDrain(QueueNames(db.rows), dropped) + OwnComplete(a.name, rebuilt))
    ensures forall s | s in dropped + rebuilt :: s == a.VersionSchema()
  {
    var needed := a.migration.CompleteRequiresLiveSchemaDrop() || NeedsLiveDrop(db.rows);
    dropped := LiveDrop(needed, a.VersionSchema(), views);
    rebuilt := LiveDrop(needed || a.migration.RequiresSchemaRefresh(), a.VersionSchema(), views);
    hide Drops, SealedDrain, OwnComplete, Others, QueueNames, NeedsLiveDrop;
  }
}
