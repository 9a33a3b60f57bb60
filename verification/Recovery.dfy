/** Re-running a sealed revert that a crash has cut short. */
module Recovery {
  import opened Contract
  import opened Database
  import opened History
  import opened InverseTrain
  import opened Lifecycle
  import opened Revert
  import opened RevertSealed
  import opened SealedRevert
  import opened State
  import I = Invert

  // ----- A database that can be walked back -----

  /** An inverse the window revert can take back out. */
  predicate Walkable(r: Row)
  {
    !r.sealed && r.migration.revertOf != "" && r.kind == Pgroll && Revertible(r)
  }

  /** A row of the old history: sealed still, and settling to what it did before. */
  predicate Settles(b: Row, r: Row)
  {
    r.sealed && FinalRows([r]) == FinalRows([b])
  }

  /** The old history, some of it perhaps contracted meanwhile, with walkable inverses on top. */
  ghost predicate Back(base: seq<Row>, cur: seq<Row>)
  {
    && |base| <= |cur| && Linear(cur)
    && (forall i :: 0 <= i < |base| ==> Settles(base[i], cur[i]))
    && forall i :: |base| <= i < |cur| ==> Walkable(cur[i])
  }

  /** A statement that keeps it so. */
  ghost predicate Gentle(m: nat, cur: seq<Row>, s: Stmt)
  {
    match s
    case CreateSchema(_) => true
    case DropSchema(_) => true
    case EndComplete(_) => true
    case OtherDDL => true
    case Insert(row) => Walkable(row) && Linear(cur + [row])
    case Seal => forall i :: m <= i < |cur| ==> !cur[i].done
    case SetDone(n) => forall i :: 0 <= i < |cur| && cur[i].name == n && !cur[i].done ==> m <= i && !cur[i].migration.CompleteMustBeDeferred()
    case SetDeferred(n) => forall i :: 0 <= i < |cur| && cur[i].name == n && !cur[i].done ==> m <= i
    case BeginComplete(n) => forall i :: 0 <= i < |cur| && cur[i].name == n ==> m <= i || cur[i].deferred
    case UnsetDeferred(n) => forall i :: 0 <= i < |cur| && cur[i].name == n ==> i < m && cur[i].contracting
    case _ => false
  }

  ghost predicate AllGentle(m: nat, db: DB, ss: seq<Stmt>)
    decreases |ss|
  {
    ss != [] ==> Gentle(m, db.rows, ss[0]) && AllGentle(m, Apply(db, ss[0]), ss[1..])
  }

  lemma SettlesUnder(b: Row, r: Row)
    requires Settles(b, r)
    ensures Settles(b, r.(sealed := r.sealed || r.done))
    ensures r.deferred ==> Settles(b, Begin(r))
    ensures r.contracting ==> Settles(b, ClearDeferred(r))
  {
    assert FinalRows([r])[0] == FinalRows([b])[0];
    assert [Begin(r)][0] == Begin(r);
    assert r.deferred ==> FinalRows([Begin(r)])[0] == FinalRows([r])[0];
    assert r.contracting ==> FinalRows([ClearDeferred(r)])[0] == FinalRows([r])[0];
    assert FinalRows([r.(sealed := r.sealed || r.done)])[0] == FinalRows([r])[0];
  }

  lemma WalkableUnder(r: Row)
    requires Walkable(r)
    ensures !r.done ==> Walkable(r.(sealed := r.sealed || r.done))
    ensures Walkable(Begin(r)) && Walkable(MarkDeferred(r))
    ensures r.done || !r.migration.CompleteMustBeDeferred() ==> Walkable(MarkDone(r))
  {
  }

  lemma GentleKeeps(base: seq<Row>, db: DB, s: Stmt)
    requires Back(base, db.rows) && Gentle(|base|, db.rows, s)
    ensures Back(base, Apply(db, s).rows)
  {
    var cur, after := db.rows, Apply(db, s).rows;
    if !s.Insert? {
      LinearSameChain(cur, after);
    }
    hide Linear, Settles, Walkable, FinalRows;
    forall i | 0 <= i < |base| ensures Settles(base[i], after[i]) {
      SettlesUnder(base[i], cur[i]);
    }
    forall i | |base| <= i < |after| ensures Walkable(after[i]) {
      if i < |cur| {
        WalkableUnder(cur[i]);
      }
    }
  }

  lemma {:induction false} GentleRun(base: seq<Row>, db: DB, ss: seq<Stmt>, k: nat)
    requires Back(base, db.rows) && AllGentle(|base|, db, ss) && k <= |ss|
    ensures Back(base, Run(db, ss[..k]).rows)
    decreases k
  {
    hide Back, Gentle, Apply;
    if k != 0 {
      GentleKeeps(base, db, ss[0]);
      assert ss[..k][1..] == ss[1..][..k - 1];
      GentleRun(base, Apply(db, ss[0]), ss[1..], k - 1);
    }
  }

  lemma {:induction false} GentleConcat(m: nat, db: DB, a: seq<Stmt>, b: seq<Stmt>)
    requires AllGentle(m, db, a) && AllGentle(m, Run(db, a), b)
    ensures AllGentle(m, db, a + b)
    decreases |a|
  {
    hide Gentle, Apply;
    if a == [] {
      assert a + b == b;
    } else {
      assert (a + b)[0] == a[0] && (a + b)[1..] == a[1..] + b;
      GentleConcat(m, Apply(db, a[0]), a[1..], b);
    }
  }

  lemma GentleTwo(m: nat, db: DB, a: Stmt, b: Stmt)
    requires Gentle(m, db.rows, a) && Gentle(m, Apply(db, a).rows, b)
    ensures AllGentle(m, db, [a, b])
  {
    hide Gentle, Apply;
    assert [a, b][1..] == [b] && [b][1..] == [];
    assert AllGentle(m, Apply(Apply(db, a), b), []);
    assert AllGentle(m, Apply(db, a), [b]);
  }

  lemma GentleOne(m: nat, db: DB, a: Stmt)
    requires Gentle(m, db.rows, a)
    ensures AllGentle(m, db, [a])
  {
    hide Gentle, Apply;
    assert [a][1..] == [];
    assert AllGentle(m, Apply(db, a), []);
  }

  // ----- The train up to its last Start -----

  lemma StartGentle(base: seq<Row>, db: DB, name: string, m: Migration, at: int, project: bool)
    requires Back(base, db.rows) && Free(db.rows, name, at) && m.revertOf != "" && !m.irreversible
    ensures AllGentle(|base|, db, StartProgram(db, name, m, at, project))
  {
    var r := NewRow(db.rows, name, m, at);
    LinearAppend(db.rows, r);
    GentleTwo(|base|, db, Insert(r), OtherDDL);
    var start, view := [Insert(r), OtherDDL], if project then [CreateSchema(r.VersionSchema())] else [];
    assert StartProgram(db, name, m, at, project) == start + view;
    hide Linear, Back, Run, Apply;
    if project {
      GentleOne(|base|, Run(db, start), CreateSchema(r.VersionSchema()));
    }
    GentleConcat(|base|, db, start, view);
  }

  lemma TailGentle(m: nat, db: DB, rows: seq<Row>, r: Row)
    requires db.rows == rows + [r] && m <= |rows| && r.name !in RowNames(rows) && !r.done
    ensures AllGentle(m, db, [SetDeferred(r.name)])
    ensures !r.migration.CompleteMustBeDeferred() ==> AllGentle(m, db, [BeginComplete(r.name), EndComplete(r.name), SetDone(r.name)])
  {
    assert forall i :: 0 <= i < |rows| ==> rows[i] in rows && rows[i].name != r.name;
    GentleOne(m, db, SetDeferred(r.name));
    if !r.migration.CompleteMustBeDeferred() {
      CompleteGentle(m, db, |rows|, r.name, []);
      assert ([BeginComplete(r.name), EndComplete(r.name)] + []) + [SetDone(r.name)] == [BeginComplete(r.name), EndComplete(r.name), SetDone(r.name)];
    }
  }

  /** The own Complete of the row at `last`, which alone bears the name. */
  lemma CompleteGentle(m: nat, db: DB, last: nat, name: string, rebuilt: seq<string>)
    requires m <= last < |db.rows| && (forall i :: 0 <= i < |db.rows| ==> (db.rows[i].name == name <==> i == last))
    ensures var head := [BeginComplete(name), EndComplete(name)] + (if rebuilt == [] then [] else [CreateSchema(rebuilt[0])]);
            AllGentle(m, db, head)
            && (!db.rows[last].migration.CompleteMustBeDeferred() ==> AllGentle(m, db, head + [SetDone(name)]))
  {
    var two, view := [BeginComplete(name), EndComplete(name)], if rebuilt == [] then [] else [CreateSchema(rebuilt[0])];
    GentleTwo(m, db, BeginComplete(name), EndComplete(name));
    RunTwo(db, BeginComplete(name), EndComplete(name));
    var mid := Run(db, two);
    assert mid.rows == Updated(db.rows, name, Begin);
    if rebuilt != [] {
      GentleOne(m, mid, CreateSchema(rebuilt[0]));
      RunOne(mid, CreateSchema(rebuilt[0]));
    }
    GentleConcat(m, db, two, view);
    RunConcat(db, two, view);
    if !db.rows[last].migration.CompleteMustBeDeferred() {
      GentleOne(m, Run(db, two + view), SetDone(name));
      hide Run, Apply, Gentle;
      GentleConcat(m, db, two + view, [SetDone(name)]);
    }
  }

  lemma IntermediateGentle(base: seq<Row>, db: DB, inv: I.Inverse, at: int)
    requires Back(base, db.rows) && Free(db.rows, inv.name, at) && inv.revertOf != ""
    ensures AllGentle(|base|, db, Program(db, Intermediate(inv, at)))
  {
    hide Run, Apply, AllGentle, StartProgram, Linear, Walkable, Settles, Classes;
    var m := InverseMigration(inv, "");
    StartGentle(base, db, inv.name, m, at, false);
    StartedRows(db, inv.name, m, at);
    var start := StartProgram(db, inv.name, m, at, false);
    var db1, r := Run(db, start), NewRow(db.rows, inv.name, m, at);
    TailGentle(|base|, db1, db.rows, r);
    var tail := if m.CompleteMustBeDeferred() then [SetDeferred(r.name)] else [BeginComplete(r.name), EndComplete(r.name), SetDone(r.name)];
    GentleConcat(|base|, db, start, tail);
  }

  // ----- The Complete of the train -----

  lemma {:induction false} DropsGentle(m: nat, db: DB, names: seq<string>)
    ensures AllGentle(m, db, Drops(names))
    decreases |names|
  {
    if names != [] {
      assert Drops(names)[1..] == Drops(names[1..]);
      DropsGentle(m, Apply(db, DropSchema(names[0])), names[1..]);
    }
  }

  predicate NoneQueuedAbove(rows: seq<Row>, m: nat)
  {
    forall i :: m <= i < |rows| ==> !rows[i].deferred
  }

  lemma SteadyIsGentle(m: nat, db: DB, s: Stmt)
    requires Contract.Ready(db) && Steady(db, s) && !s.Seal? && NoneQueuedAbove(db.rows, m)
    ensures Gentle(m, db.rows, s) && NoneQueuedAbove(Apply(db, s).rows, m)
  {
    if s.BeginComplete? || s.UnsetDeferred? {
      var h := HeadRow(db.rows, s.name);
    }
    hide QueueNames, QueueIds, IdsNamed, Once;
  }

  lemma {:induction false} AllSteadyGentle(m: nat, db: DB, ss: seq<Stmt>)
    requires Contract.Ready(db) && AllSteady(db, ss) && (forall s | s in ss :: !s.Seal?) && NoneQueuedAbove(db.rows, m)
    ensures AllGentle(m, db, ss)
    decreases |ss|
  {
    hide Contract.Ready, Steady, Gentle, Apply, NoneQueuedAbove, FinalRows, FinalLog;
    if ss != [] {
      SteadyIsGentle(m, db, ss[0]);
      SteadyKeeps(db, ss[0]);
      AllSteadyGentle(m, Apply(db, ss[0]), ss[1..]);
    }
  }

  lemma {:induction false} DrainHasNoSeal(names: seq<string>)
    ensures forall s | s in Drain(names) :: !s.Seal?
  {
    if names != [] {
      DrainHasNoSeal(names[1..]);
    }
  }

  /** With nothing of the train queued or done, the stamp and the drain leave it walkable. */
  lemma SealedDrainGentle(m: nat, db: DB, dropped: seq<string>)
    requires Contract.Ready(db) && NoneQueuedAbove(db.rows, m)
    requires QueueNames(db.rows) != [] ==> forall i :: m <= i < |db.rows| ==> !db.rows[i].done
    ensures AllGentle(m, db, SealedDrain(QueueNames(db.rows), dropped))
  {
    hide Contract.Ready, QueueNames, Drain, Drops, Run, FinalRows, AllSteady;
    var q := QueueNames(db.rows);
    if q != [] {
      var sealed, a, b := Apply(db, Seal), Drops(dropped), Drain(q);
      StampSteady(db);
      DropsSteady(sealed, dropped);
      DropsGentle(m, sealed, dropped);
      var clear := Run(sealed, a);
      assert clear.rows == sealed.rows;
      SameRows(sealed, clear);
      assert q + [] == q;
      DrainSteady(clear, q, []);
      DrainHasNoSeal(q);
      AllSteadyGentle(m, clear, b);
      GentleConcat(m, sealed, a, b);
      GentleOne(m, db, Seal);
      RunOne(db, Seal);
      GentleConcat(m, db, [Seal], a + b);
    }
  }

  predicate MustWait(inv: I.Inverse)
  {
    InverseMigration(inv, "").CompleteMustBeDeferred()
  }

  function OwnUntilDone(name: string, rebuilt: seq<string>): seq<Stmt>
  {
    [BeginComplete(name), EndComplete(name)] + (if rebuilt == [] then [] else [CreateSchema(rebuilt[0])]) + [SetDone(name)]
  }

  /** Everything the last Complete does before its final stamp. */
  function BeforeStamp(others: seq<string>, q: seq<string>, dropped: seq<string>, name: string, rebuilt: seq<string>): seq<Stmt>
  {
    Drops(others) + (SealedDrain(q, dropped) + OwnUntilDone(name, rebuilt))
  }

  lemma CompleteIsStamped(db: DB, views: bool) returns (others: seq<string>, dropped: seq<string>, rebuilt: seq<string>)
    requires HasActive(db.rows)
    ensures Program(db, CmdComplete(views)) == BeforeStamp(others, QueueNames(db.rows), dropped, Active(db.rows).name, rebuilt) + [Seal]
  {
    hide *;
    var a := Active(db.rows);
    dropped, rebuilt := CompleteParts(db, a, views);
    others := Others(db.schemas, a.VersionSchema(), views);
    var q := QueueNames(db.rows);
    CompleteIs(db, views);
    OwnStamped(a.name, rebuilt);
    OwnIs(a.name, rebuilt);
    BeforeStampIs(others, q, dropped, a.name, rebuilt);
    Reassociate(Drops(others), SealedDrain(q, dropped), OwnUntilDone(a.name, rebuilt), [Seal]);
  }

  lemma OwnStamped(name: string, rebuilt: seq<string>)
    ensures OwnComplete(name, rebuilt) == OwnUntilDone(name, rebuilt) + [Seal]
  {
  }

  lemma Reassociate(a: seq<Stmt>, b: seq<Stmt>, c: seq<Stmt>, d: seq<Stmt>)
    ensures a + (b + (c + d)) == (a + (b + c)) + d
  {
  }

  lemma StampGentle(m: nat, db: DB, last: nat, others: seq<string>, dropped: seq<string>, name: string, rebuilt: seq<string>)
    requires Contract.Ready(db) && NoneQueuedAbove(db.rows, m)
    requires QueueNames(db.rows) != [] ==> forall i :: m <= i < |db.rows| ==> !db.rows[i].done
    requires m <= last < |db.rows| && (forall i :: 0 <= i < |db.rows| ==> (db.rows[i].name == name <==> i == last))
    requires !db.rows[last].migration.CompleteMustBeDeferred()
    ensures AllGentle(m, db, BeforeStamp(others, QueueNames(db.rows), dropped, name, rebuilt))
  {
    hide *;
    var q := QueueNames(db.rows);
    DropsGentle(m, db, others);
    DropsSteady(db, others);
    var clear := Run(db, Drops(others));
    assert clear.rows == db.rows;
    SameRows(db, clear);
    SealedDrainGentle(m, clear, dropped);
    SealedDrainRows(clear, dropped);
    var mid := Run(clear, SealedDrain(q, dropped));
    SameFinal(db.rows, mid.rows);
    CompleteGentle(m, mid, last, name, rebuilt);
    OwnIs(name, rebuilt);
    GentleConcat(m, clear, SealedDrain(q, dropped), OwnUntilDone(name, rebuilt));
    GentleConcat(m, db, Drops(others), SealedDrain(q, dropped) + OwnUntilDone(name, rebuilt));
    BeforeStampIs(others, q, dropped, name, rebuilt);
  }

  lemma SameFinal(a: seq<Row>, b: seq<Row>)
    requires FinalRows(a) == FinalRows(b)
    ensures |a| == |b|
    ensures forall i :: 0 <= i < |a| ==> a[i].name == b[i].name && a[i].migration == b[i].migration && a[i].done == b[i].done && a[i].kind == b[i].kind
  {
    assert forall i :: 0 <= i < |FinalRows(a)| ==> FinalRows(a)[i] == FinalRows(b)[i];
    assert |FinalRows(a)| == |FinalRows(b)|;
  }

  lemma OwnIs(name: string, rebuilt: seq<string>)
    ensures OwnUntilDone(name, rebuilt) ==
            [BeginComplete(name), EndComplete(name)] + (if rebuilt == [] then [] else [CreateSchema(rebuilt[0])]) + [SetDone(name)]
  {
  }

  lemma BeforeStampIs(others: seq<string>, q: seq<string>, dropped: seq<string>, name: string, rebuilt: seq<string>)
    ensures BeforeStamp(others, q, dropped, name, rebuilt) == Drops(others) + (SealedDrain(q, dropped) + OwnUntilDone(name, rebuilt))
  {
  }

  /** Nothing waits: neither in the old history nor among the inverses below the last. */
  ghost predicate NothingWaits(rows: seq<Row>, invs: seq<I.Inverse>)
  {
    (forall i :: 0 <= i < |rows| ==> !rows[i].deferred) && forall i :: 0 <= i < |invs| - 1 ==> !MustWait(invs[i])
  }

  /** The queue of an expanded train: what the old history has queued, and the inverses that must wait. */
  lemma ExpandedQueue(rows: seq<Row>, cur: seq<Row>, invs: seq<I.Inverse>, versionSchema: string, now: int)
    requires Expanded(rows, cur, invs, versionSchema, now)
    ensures QueueNames(cur) == [] <==> NothingWaits(rows, invs)
  {
    QueueMembers(cur);
    ExpandedRows(rows, cur, invs, versionSchema, now);
    hide Expanded, QueueNames, MustWait;
    if forall i :: 0 <= i < |cur| ==> !cur[i].deferred {
      forall i | 0 <= i < |invs| - 1 ensures !MustWait(invs[i]) {
        assert !cur[|rows| + i].deferred;
      }
      assert forall i :: 0 <= i < |rows| ==> cur[i] == rows[i];
    }
    if NothingWaits(rows, invs) {
      forall i | 0 <= i < |cur| ensures !cur[i].deferred {
        if |rows| <= i < |cur| - 1 {
          assert !MustWait(invs[i - |rows|]) && cur[|rows| + (i - |rows|)] == cur[i];
        }
      }
    }
  }

  /** The rows of an expanded train one by one. */
  lemma ExpandedRows(rows: seq<Row>, cur: seq<Row>, invs: seq<I.Inverse>, versionSchema: string, now: int)
    requires Expanded(rows, cur, invs, versionSchema, now)
    ensures invs != [] && |cur| == |rows| + |invs| && forall i :: 0 <= i < |rows| ==> cur[i] == rows[i]
    ensures forall i :: 0 <= i < |invs| - 1 ==> cur[|rows| + i].deferred == MustWait(invs[i]) && IsTrainRow(cur[|rows| + i], invs[i], now + i)
    ensures var last := cur[|cur| - 1];
            && !last.deferred && !last.done && !last.sealed && last.kind == Pgroll && !last.migration.irreversible
            && last.migration.revertOf == invs[|invs| - 1].revertOf
            && last.migration.CompleteMustBeDeferred() == MustWait(invs[|invs| - 1])
  {
    hide Linear, Classes;
    var base := cur[..|cur| - 1];
    SizeOnTop(rows, base, invs, now, |invs| - 1);
    forall i | 0 <= i < |rows| ensures cur[i] == rows[i] {
      assert base[..|rows|][i] == rows[i];
    }
    forall i | 0 <= i < |invs| - 1 ensures IsTrainRow(cur[|rows| + i], invs[i], now + i) {
      assert IsTrainRow(base[|rows| + i], invs[i], now + i);
    }
  }

  // ----- Where a crash can leave the database -----

  function Cut(p: seq<Stmt>, n: nat): seq<Stmt>
  {
    if n < |p| then p[..n] else p
  }

  /** The commands `cs` with a crash after `cut` statements of the `j`-th. */
  ghost function CrashedAt(d: DB, cs: seq<Command>, j: nat, cut: nat): DB
    requires j < |cs|
  {
    var before := Carry(d, cs[..j]);
    Run(before, Cut(Program(before, cs[j]), cut))
  }

  /** The inverses undo something, and the history they run on is sealed. */
  ghost predicate Sound(rows: seq<Row>, invs: seq<I.Inverse>)
  {
    AllSealed(rows) && forall i :: 0 <= i < |invs| ==> invs[i].revertOf != ""
  }

  lemma BackOnTop(rows: seq<Row>, cur: seq<Row>, invs: seq<I.Inverse>, now: int, j: nat)
    requires OnTop(rows, cur, invs, now, j) && Sound(rows, invs)
    ensures Back(rows, cur)
  {
    forall i | |rows| <= i < |cur| ensures Walkable(cur[i]) {
      assert IsTrainRow(cur[|rows| + (i - |rows|)], invs[i - |rows|], now + (i - |rows|));
    }
    forall i | 0 <= i < |rows| ensures cur[i] == rows[i] {
      assert cur[..|rows|][i] == rows[i];
    }
    hide Linear, FinalRows, IsTrainRow, Walkable;
  }

  lemma BackExpanded(rows: seq<Row>, cur: seq<Row>, invs: seq<I.Inverse>, versionSchema: string, now: int)
    requires Expanded(rows, cur, invs, versionSchema, now) && Sound(rows, invs)
    ensures Back(rows, cur)
  {
    ExpandedIs(rows, cur, invs, versionSchema, now);
    ExpandedRows(rows, cur, invs, versionSchema, now);
    hide Expanded, Linear, FinalRows, InverseMigration, MustWait;
    forall i | |rows| <= i < |cur| ensures Walkable(cur[i]) {
      if i < |cur| - 1 {
        assert IsTrainRow(cur[|rows| + (i - |rows|)], invs[i - |rows|], now + (i - |rows|));
      }
    }
  }

  lemma CutGentle(base: seq<Row>, db: DB, p: seq<Stmt>, cut: nat)
    requires Back(base, db.rows) && AllGentle(|base|, db, p)
    ensures Back(base, Run(db, Cut(p, cut)).rows)
  {
    hide *;
    var n := if cut < |p| then cut else |p|;
    CutIs(p, cut);
    GentleRun(base, db, p, n);
  }

  lemma CutIs(p: seq<Stmt>, cut: nat)
    ensures Cut(p, cut) == p[..if cut < |p| then cut else |p|]
  {
    assert p[..|p|] == p;
  }

  /** During an intermediate. */
  lemma BackInIntermediate(d: DB, invs: seq<I.Inverse>, now: int, j: nat, cut: nat)
    requires Linear(d.rows) && AllDone(d.rows) && Timed(d.rows, invs, now) && FreeUpTo(d.rows, invs, |invs|) && Sound(d.rows, invs) && j < |invs|
    ensures var before := Carry(d, Intermediates(invs, now, j));
            Back(d.rows, before.rows) && Back(d.rows, Run(before, Cut(Program(before, Intermediate(invs[j], now + j)), cut)).rows)
  {
    hide *;
    FreePrefix(d.rows, invs, j);
    TrainRows(d, invs, now, j);
    var before := Carry(d, Intermediates(invs, now, j));
    BackOnTop(d.rows, before.rows, invs, now, j);
    FreeName(d.rows, before.rows, invs, now, j);
    SoundAt(d.rows, invs, j);
    IntermediateGentle(d.rows, before, invs[j], now + j);
    CutGentle(d.rows, before, Program(before, Intermediate(invs[j], now + j)), cut);
  }

  lemma FreePrefix(rows: seq<Row>, invs: seq<I.Inverse>, j: nat)
    requires FreeUpTo(rows, invs, |invs|) && j < |invs|
    ensures FreeUpTo(rows, invs, j) && invs[j].name !in RowNames(rows)
  {
  }

  lemma SoundAt(rows: seq<Row>, invs: seq<I.Inverse>, j: nat)
    requires Sound(rows, invs) && j < |invs|
    ensures invs[j].revertOf != ""
  {
  }

  /** During the last inverse's Start. */
  lemma BackInStart(d: DB, invs: seq<I.Inverse>, versionSchema: string, now: int, views: bool, cut: nat)
    requires Linear(d.rows) && AllDone(d.rows) && Timed(d.rows, invs, now) && FreeUpTo(d.rows, invs, |invs|) && Sound(d.rows, invs) && invs != []
    ensures var n := |invs| - 1; var before := Carry(d, Intermediates(invs, now, n));
            Back(d.rows, Run(before, Cut(Program(before, CmdStart(invs[n].name, InverseMigration(invs[n], versionSchema), now + n, views)), cut)).rows)
  {
    hide *;
    var n := |invs| - 1;
    BackInIntermediate(d, invs, now, n, 0);
    FreePrefix(d.rows, invs, n);
    TrainRows(d, invs, now, n);
    var before := Carry(d, Intermediates(invs, now, n));
    FreeName(d.rows, before.rows, invs, now, n);
    SoundAt(d.rows, invs, n);
    InverseIs(invs[n], versionSchema);
    StartGentle(d.rows, before, invs[n].name, InverseMigration(invs[n], versionSchema), now + n, views);
    StartCases(before, invs[n], versionSchema, now + n, views);
    CutGentle(d.rows, before, Program(before, CmdStart(invs[n].name, InverseMigration(invs[n], versionSchema), now + n, views)), cut);
  }

  lemma InverseIs(inv: I.Inverse, versionSchema: string)
    ensures var m := InverseMigration(inv, versionSchema);
            m.revertOf == inv.revertOf && !m.irreversible && (m.CompleteMustBeDeferred() <==> MustWait(inv))
  {
  }

  /** The last inverse need not wait, and below it nothing does, unless it is the only one. */
  ghost predicate WaitsSafely(rows: seq<Row>, invs: seq<I.Inverse>)
  {
    invs != [] && !MustWait(invs[|invs| - 1]) && (|invs| == 1 || NothingWaits(rows, invs))
  }

  /** Moreover, no inverse of an earlier revert is among the migrations to undo. */
  ghost predicate SafeToCrash(rows: seq<Row>, k: nat, invs: seq<I.Inverse>)
  {
    WaitsSafely(rows, invs) && NoInverseAbove(rows, k)
  }

  /** During the last Complete, before its final stamp. */
  lemma BackInComplete(d: DB, up: DB, invs: seq<I.Inverse>, versionSchema: string, now: int, views: bool, cut: nat)
    requires Expanded(d.rows, up.rows, invs, versionSchema, now) && Sound(d.rows, invs) && WaitsSafely(d.rows, invs)
    requires cut < |Program(up, CmdComplete(views))|
    ensures Back(d.rows, Run(up, Cut(Program(up, CmdComplete(views)), cut)).rows)
  {
    hide *;
    BackExpanded(d.rows, up.rows, invs, versionSchema, now);
    var a := ExpandedActive(d.rows, up.rows, invs, versionSchema, now);
    var others, dropped, rebuilt := CompleteIsStamped(up, views);
    ExpandedQuiet(d.rows, up.rows, invs, versionSchema, now);
    var head := BeforeStamp(others, QueueNames(up.rows), dropped, a.name, rebuilt);
    ReadyIs(up, up);
    StampGentle(|d.rows|, up, |up.rows| - 1, others, dropped, a.name, rebuilt);
    CutGentle(d.rows, up, head, cut);
    CutHead(head, Seal, cut);
  }

  lemma CutHead(head: seq<Stmt>, s: Stmt, cut: nat)
    requires cut < |head + [s]|
    ensures Cut(head + [s], cut) == Cut(head, cut)
  {
  }

  lemma ExpandedQuiet(rows: seq<Row>, cur: seq<Row>, invs: seq<I.Inverse>, versionSchema: string, now: int)
    requires Expanded(rows, cur, invs, versionSchema, now) && WaitsSafely(rows, invs)
    ensures |rows| <= |cur| - 1 && NoneQueuedAbove(cur, |rows|)
    ensures QueueNames(cur) != [] ==> forall i :: |rows| <= i < |cur| ==> !cur[i].done
    ensures forall i :: 0 <= i < |cur| ==> (cur[i].name == cur[|cur| - 1].name <==> i == |cur| - 1)
    ensures !cur[|cur| - 1].migration.CompleteMustBeDeferred()
  {
    hide *;
    ExpandedQueue(rows, cur, invs, versionSchema, now);
    ExpandedRows(rows, cur, invs, versionSchema, now);
    QueueMembers(cur);
    ExpandedIs(rows, cur, invs, versionSchema, now);
    OnlyLast(cur);
    SafeIs(rows, invs);
    if |invs| == 1 {
      OneAbove(cur, |rows|);
    } else {
      NoneQueuedIs(cur, |rows|);
    }
  }

  lemma OnlyLast(cur: seq<Row>)
    requires Linear(cur) && cur != []
    ensures forall i :: 0 <= i < |cur| ==> (cur[i].name == cur[|cur| - 1].name <==> i == |cur| - 1)
  {
  }

  lemma SafeIs(rows: seq<Row>, invs: seq<I.Inverse>)
    requires WaitsSafely(rows, invs)
    ensures invs != [] && !MustWait(invs[|invs| - 1]) && (|invs| == 1 || NothingWaits(rows, invs))
  {
  }

  lemma OneAbove(cur: seq<Row>, m: nat)
    requires |cur| == m + 1 && !cur[m].deferred && !cur[m].done
    ensures NoneQueuedAbove(cur, m) && forall i :: m <= i < |cur| ==> !cur[i].done
  {
  }

  lemma NoneQueuedIs(cur: seq<Row>, m: nat)
    requires forall i :: 0 <= i < |cur| ==> !cur[i].deferred
    ensures NoneQueuedAbove(cur, m)
  {
  }

  // ----- Running again -----

  lemma RollbackRows(db: DB, a: Row)
    ensures Run(db, RollbackProgram(a)).rows == if ParentAt(db.rows, |db.rows|) == Some(a.name) then db.rows[..|db.rows| - 1] else db.rows
  {
    hide Run;
    var two := [DropSchema(a.VersionSchema()), OtherDDL];
    assert RollbackProgram(a) == two + [DeleteRow(a.name)];
    RunAppend(db, two, DeleteRow(a.name));
    RunTwo(db, DropSchema(a.VersionSchema()), OtherDDL);
  }

  lemma {:induction false} RevertRows(db: DB, n: nat, views: bool)
    requires n <= |db.rows|
    ensures Run(db, RevertProgram(db.rows, n, views)).rows == db.rows[..|db.rows| - n]
    decreases n
  {
    hide Run, Apply, RollbackProgram;
    var rows := db.rows;
    if n == 0 {
      ProjectionRows(db, views);
    } else {
      var k := |rows| - 1;
      RollbackRows(db, rows[k]);
      var next := Run(db, RollbackProgram(rows[k]));
      RevertRows(next, n - 1, views);
      RunConcat(db, RollbackProgram(rows[k]), RevertProgram(rows[..k], n - 1, views));
      assert rows[..k][..k - (n - 1)] == rows[..|rows| - n];
    }
  }

  lemma ProjectionRows(db: DB, views: bool)
    ensures Run(db, LeafProjection(db.rows, views)).rows == db.rows
  {
    if views && db.rows != [] {
      RunOne(db, CreateSchema(db.rows[|db.rows| - 1].VersionSchema()));
    }
  }

  /** The revert window of such a database is open exactly down to the old history, and can be reverted. */
  lemma BackWindow(base: seq<Row>, cur: seq<Row>)
    requires Back(base, cur) && base != []
    ensures Window(cur) && |WindowTargets(cur)| == |cur| - |base|
    ensures PartialTrain(cur) <==> |base| < |cur|
  {
    hide FinalRows;
    OpenAt(base, cur);
    PathFromLeaf(cur);
    if |base| < |cur| {
      assert cur[|base|] in cur && Walkable(cur[|base|]);
    }
    forall i | 0 <= i < |cur| ensures cur[i].sealed || cur[i].migration.revertOf != "" {
      if i < |base| {
        assert Settles(base[i], cur[i]);
      } else {
        assert Walkable(cur[i]);
      }
    }
    hide Linear, TargetsFrom;
  }

  lemma OpenAt(base: seq<Row>, cur: seq<Row>)
    requires Back(base, cur) && base != []
    ensures OpenFrom(cur) == |base| && Window(cur)
    ensures |base| < |cur| ==> cur[|base|].kind != Baseline
  {
    hide Linear, FinalRows;
    assert Settles(base[|base| - 1], cur[|base| - 1]);
    forall i | 0 <= i < |base| ensures cur[i].sealed {
      assert Settles(base[i], cur[i]);
    }
    assert forall i :: |base| <= i < |cur| ==> Walkable(cur[i]);
  }

  /** Two histories with the same names and migrations in the same order. */
  ghost predicate Kin(a: seq<Row>, b: seq<Row>)
  {
    |a| == |b| && forall i :: 0 <= i < |a| ==> a[i].name == b[i].name && a[i].migration == b[i].migration && a[i].kind == b[i].kind
  }

  /** Walking back leaves the old history, settled or not. */
  lemma BackResumed(base: seq<Row>, c: DB, views: bool)
    requires Back(base, c.rows) && base != [] && AllDone(base)
    ensures var rows := Resumed(c, views).rows;
            rows == c.rows[..|base|] && Linear(rows) && AllSealed(rows) && AllDone(rows) && FinalRows(rows) == FinalRows(base) && Kin(base, rows)
  {
    hide *;
    BackWindow(base, c.rows);
    BackIs(base, c.rows);
    ResumedIs(c, views);
    RevertRows(c, |WindowTargets(c.rows)|, views);
    assert c.rows[..|c.rows|] == c.rows;
    BackRows(base, c.rows);
  }

  lemma BackIs(base: seq<Row>, cur: seq<Row>)
    requires Back(base, cur)
    ensures Linear(cur) && |base| <= |cur|
  {
  }

  lemma ResumedIs(db: DB, views: bool)
    ensures var n := |WindowTargets(db.rows)|;
            Resumed(db, views) == if PartialTrain(db.rows) && n <= |db.rows| then Run(db, RevertProgram(db.rows, n, views)) else db
  {
    hide PartialTrain, WindowTargets, Run, RevertProgram;
  }

  lemma BackRows(base: seq<Row>, cur: seq<Row>)
    requires Back(base, cur) && AllDone(base)
    ensures |base| <= |cur|
    ensures var rows := cur[..|base|];
            Linear(rows) && AllSealed(rows) && AllDone(rows) && FinalRows(rows) == FinalRows(base) && Kin(base, rows)
  {
    LinearPrefix(cur, |base|);
    var rows := cur[..|base|];
    hide Linear;
    forall i | 0 <= i < |base| ensures FinalRows(rows)[i] == FinalRows(base)[i] && rows[i].sealed {
      assert Settles(base[i], cur[i]);
      assert FinalRows([cur[i]])[0] == FinalRows([base[i]])[0];
    }
    SameFinal(base, rows);
  }

  lemma KinNames(a: seq<Row>, b: seq<Row>)
    requires Kin(a, b)
    ensures RowNames(a) == RowNames(b) && LeafIsInverse(a) == LeafIsInverse(b)
  {
    forall r | r in a ensures r.name in RowNames(b) {
      var i :| 0 <= i < |a| && a[i] == r;
      assert b[i] in b;
    }
    forall r | r in b ensures r.name in RowNames(a) {
      var i :| 0 <= i < |b| && b[i] == r;
      assert a[i] in a;
    }
  }

  lemma KinBoundary(a: seq<Row>, b: seq<Row>, to: string, k: nat)
    requires Kin(a, b) && IsBoundary(a, to, k)
    ensures IsBoundary(b, to, k) && k < |a| == |b|
  {
    SameKinds(a, b);
    hide VisibleFrom;
  }

  lemma KinForward(a: seq<Row>, b: seq<Row>, store: Store, k: nat)
    requires Kin(a, b) && k < |a|
    ensures PlannedInverses(a, k, store) == PlannedInverses(b, k, store) && a[k].name == b[k].name
  {
    hide I.Inverted;
    assert Forward(a, k, store) == Forward(b, k, store);
  }

  lemma KinPlannable(a: seq<Row>, b: seq<Row>, store: Store, k: nat)
    requires Kin(a, b) && Plannable(a, k, store)
    ensures Plannable(b, k, store)
  {
    KinForward(a, b, store, k);
    hide PlannedInverses, Invertible;
    forall i | k < i < |b| ensures Invertible(b[i]) {
      assert Invertible(a[i]);
      SameInvertible(a[i], b[i]);
    }
  }

  lemma KinMirrors(a: seq<Row>, b: seq<Row>, k: nat, invs: seq<I.Inverse>)
    requires Kin(a, b) && MirrorsSegment(a, k, invs)
    ensures MirrorsSegment(b, k, invs)
  {
  }

  /** The same plan is carried out on what was walked back. */
  lemma SamePlan(a: DB, b: DB, to: string, k: nat, store: Store, invs: seq<I.Inverse>, now: int, later: int)
    requires CarriesOut(a, to, k, store, invs, now) && Kin(a.rows, b.rows)
    requires Linear(b.rows) && AllSealed(b.rows) && AllDone(b.rows) && forall x | x in b.rows :: x.createdAt < later
    ensures CarriesOut(b, to, k, store, invs, later)
  {
    hide Linear, Plannable, IsBoundary, MirrorsSegment, PlannedInverses, Kin, Open, AllSealed, AllDone, RowNames;
    KinBoundary(a.rows, b.rows, to, k);
    KinPlannable(a.rows, b.rows, store, k);
    KinForward(a.rows, b.rows, store, k);
    KinMirrors(a.rows, b.rows, k, invs);
    NotOpen(b.rows);
  }

  lemma SameInvertible(a: Row, b: Row)
    requires a.migration == b.migration
    ensures Invertible(a) == Invertible(b)
  {
  }

  lemma NotOpen(rows: seq<Row>)
    requires AllSealed(rows) && AllDone(rows)
    ensures !Open(rows)
  {
  }

  /** A plan that can be carried out is the one that is, to the end. */
  lemma PlanRestores(d: DB, to: string, k: nat, store: Store, invs: seq<I.Inverse>, later: int, views: bool,
                     r: SealedOutcome, k2: nat, invs2: seq<I.Inverse>, end: DB)
    requires CarriesOut(d, to, k, store, invs, later) && FreeUpTo(d.rows, invs, |invs|) && Linear(d.rows)
    requires RunResult(d, to, store, later, false, views, r, k2, invs2, end)
    ensures k < |d.rows| && r.Restored? && end.rows == FinalRows(d.rows)[..k + 1]
  {
    hide *;
    CarriedBoundary(d, to, k, store, invs, later);
    BoundaryOnce(d.rows, to, k);
    ResultIs(d, to, store, later, views, r, k2, invs2, end);
    if !r.Unplanned? {
      CarriedBoundary(d, to, k2, store, invs2, later);
      if r.TrainStuck? {
        NotFree(d.rows, invs, r.started);
      }
    }
  }

  /** A run that is not expand-only ends in one of three ways. */
  lemma ResultIs(d: DB, to: string, store: Store, later: int, views: bool, r: SealedOutcome, k: nat, invs: seq<I.Inverse>, end: DB)
    requires RunResult(d, to, store, later, false, views, r, k, invs, end)
    ensures r.Unplanned? || r.TrainStuck? || r.Restored?
    ensures r.Unplanned? ==> !HasPlan(d.rows, to, store) && end == d
    ensures !r.Unplanned? ==> CarriesOut(d, to, k, store, invs, later)
    ensures r.TrainStuck? ==> r.started < |invs| && invs[r.started].name in RowNames(d.rows)
    ensures r.Restored? ==> k < |d.rows| && end.rows == FinalRows(d.rows)[..k + 1]
  {
    hide CarriesOut, HasPlan, FinalRows, RowNames, Standing, Train, Carry, FreeUpTo;
  }

  lemma CarriedBoundary(d: DB, to: string, k: nat, store: Store, invs: seq<I.Inverse>, later: int)
    requires CarriesOut(d, to, k, store, invs, later)
    ensures IsBoundary(d.rows, to, k) && k < |d.rows| && PlannedInverses(d.rows, k, store) == Some(invs) && HasPlan(d.rows, to, store)
  {
    hide Linear, PlannedInverses;
  }

  lemma KinFree(a: seq<Row>, b: seq<Row>, invs: seq<I.Inverse>)
    requires Kin(a, b) && FreeUpTo(a, invs, |invs|)
    ensures FreeUpTo(b, invs, |invs|)
  {
    KinNames(a, b);
    hide RowNames, Kin;
  }

  /** A plan for `d`, down to row `k`, whose names are free. */
  ghost predicate CanRevert(d: DB, to: string, k: nat, store: Store, invs: seq<I.Inverse>, now: int)
  {
    Linear(d.rows) && CarriesOut(d, to, k, store, invs, now) && FreeUpTo(d.rows, invs, |invs|) && HasSegment(d.rows, k)
  }

  lemma CanRevertIs(d: DB, to: string, k: nat, store: Store, invs: seq<I.Inverse>, now: int)
    requires CanRevert(d, to, k, store, invs, now)
    ensures Linear(d.rows) && CarriesOut(d, to, k, store, invs, now) && FreeUpTo(d.rows, invs, |invs|) && HasSegment(d.rows, k)
    ensures CanRun(d.rows, k, invs, now) && Timed(d.rows, invs, now) && AllDone(d.rows) && Sound(d.rows, invs) && k + 1 < |d.rows|
    ensures invs != [] && d.rows[k].name == to && (NoInverseAbove(d.rows, k) ==> PlainSegment(d.rows, k) && !LeafIsInverse(d.rows))
  {
    RunTimed(d.rows, k, invs, now);
    hide Linear, Plannable, PlannedInverses, VisibleFrom, Timed;
    assert AllSealed(d.rows);
  }

  /** From a database that can be walked back, the whole revert runs anew. */
  lemma RerunBack(d: DB, c: DB, to: string, k: nat, store: Store, invs: seq<I.Inverse>, now: int, later: int, views: bool,
                  r: SealedOutcome, k2: nat, invs2: seq<I.Inverse>, end: DB)
    requires CanRevert(d, to, k, store, invs, now) && NoInverseAbove(d.rows, k) && Back(d.rows, c.rows) && forall x | x in c.rows :: x.createdAt < later
    requires SealedResult(c, to, store, later, false, views, r, k2, invs2, end)
    ensures k < |d.rows| && r.Restored? && end.rows == FinalRows(d.rows)[..k + 1]
  {
    hide *;
    CanRevertIs(d, to, k, store, invs, now);
    BackWindow(d.rows, c.rows);
    BackResumed(d.rows, c, views);
    var back := Resumed(c, views);
    EarlierRows(c.rows, back.rows, later);
    KinNames(d.rows, back.rows);
    NotInverse(back.rows, to);
    SamePlan(d, back, to, k, store, invs, now, later);
    KinFree(d.rows, back.rows, invs);
    SealedResultIs(c, to, store, later, views, r, k2, invs2, end);
    PlanRestores(back, to, k, store, invs, later, views, r, k2, invs2, end);
  }

  lemma NotInverse(rows: seq<Row>, to: string)
    requires !LeafIsInverse(rows)
    ensures FinishOutcome(rows, to) == NothingPending
  {
  }

  lemma SealedResultIs(db: DB, to: string, store: Store, now: int, views: bool, r: SealedOutcome, k: nat, invs: seq<I.Inverse>, end: DB)
    requires SealedResult(db, to, store, now, false, views, r, k, invs, end)
    ensures PartialTrain(db.rows) && !Window(db.rows) ==> r == PartialStuck && end == db
    ensures !(PartialTrain(db.rows) && !Window(db.rows)) ==>
              var f := FinishOutcome(Resumed(db, views).rows, to);
              if f.Finished? || f.PruneFailed? then r == Resume(f) && end.rows == FinishedRows(Resumed(db, views).rows, f)
              else RunResult(Resumed(db, views), to, store, now, false, views, r, k, invs, end)
  {
    hide PartialTrain, Window, Resumed, FinishOutcome, FinishedRows, RunResult;
  }

  /** From a completed train that was not pruned, the prune is finished. */
  lemma RerunDone(d: DB, c: DB, to: string, k: nat, store: Store, invs: seq<I.Inverse>, now: int, later: int, views: bool,
                  r: SealedOutcome, k2: nat, invs2: seq<I.Inverse>, end: DB)
    requires CanRevert(d, to, k, store, invs, now) && NoInverseAbove(d.rows, k)
    requires Linear(c.rows) && AllSealed(c.rows) && Reverted(FinalRows(d.rows), k, c.rows)
    requires SealedResult(c, to, store, later, false, views, r, k2, invs2, end)
    ensures k < |d.rows| && r == Resume(Finished(to)) && end.rows == FinalRows(d.rows)[..k + 1]
  {
    hide *;
    CanRevertIs(d, to, k, store, invs, now);
    SealedNotPartial(c, views);
    FinalSegment(d.rows, k);
    PlainIs(FinalRows(d.rows), k);
    FinalNames(d.rows);
    FinishesAbove(FinalRows(d.rows), k, c.rows);
    SealedResultIs(c, to, store, later, views, r, k2, invs2, end);
  }

  lemma SealedNotPartial(c: DB, views: bool)
    requires AllSealed(c.rows)
    ensures !PartialTrain(c.rows) && Resumed(c, views) == c
  {
  }

  /** Once pruned, there is nothing left to do. */
  lemma RerunPruned(d: DB, c: DB, to: string, k: nat, store: Store, invs: seq<I.Inverse>, now: int, later: int, views: bool,
                    r: SealedOutcome, k2: nat, invs2: seq<I.Inverse>, end: DB)
    requires CanRevert(d, to, k, store, invs, now) && k < |d.rows| && c.rows == FinalRows(d.rows)[..k + 1]
    requires SealedResult(c, to, store, later, false, views, r, k2, invs2, end)
    ensures end.rows == FinalRows(d.rows)[..k + 1]
  {
    hide *;
    CanRevertIs(d, to, k, store, invs, now);
    FinalNames(d.rows);
    SealedPrefix(FinalRows(d.rows), k + 1);
    SealedNotPartial(c, views);
    LeafIsBoundary(c.rows, to);
    FinalLinear(d.rows);
    LinearPrefix(FinalRows(d.rows), k + 1);
    NoPlanAtLeaf(c.rows, to, store);
    SealedResultIs(c, to, store, later, views, r, k2, invs2, end);
    ResultIs(c, to, store, later, views, r, k2, invs2, end);
    if !r.Unplanned? {
      CarriedBoundary(c, to, k2, store, invs2, later);
    }
  }

  lemma FinalLinear(rows: seq<Row>)
    requires Linear(rows)
    ensures Linear(FinalRows(rows))
  {
    LinearSameChain(rows, FinalRows(rows));
  }

  lemma SealedPrefix(rows: seq<Row>, n: nat)
    requires AllSealed(rows) && n <= |rows|
    ensures AllSealed(rows[..n])
  {
  }

  lemma LeafIsBoundary(rows: seq<Row>, to: string)
    requires rows != [] && rows[|rows| - 1].name == to
    ensures FinishOutcome(rows, to) == NothingPending
  {
  }

  lemma NoPlanAtLeaf(rows: seq<Row>, to: string, store: Store)
    requires Linear(rows) && rows != [] && rows[|rows| - 1].name == to
    ensures !HasPlan(rows, to, store)
  {
    hide PlannedInverses, VisibleFrom, Open;
    forall k: nat | IsBoundary(rows, to, k) ensures k == |rows| - 1 {
    }
  }

  // ----- The commands of a whole revert -----

  function WholeRun(invs: seq<I.Inverse>, versionSchema: string, now: int, views: bool): seq<Command>
    requires invs != []
  {
    OneShot(invs, versionSchema, now, views) + [CmdPrune(NameSet(PlanNames(invs)))]
  }

  lemma WholeAt(invs: seq<I.Inverse>, versionSchema: string, now: int, views: bool, j: nat)
    requires invs != [] && j <= |invs| + 1
    ensures var cs, n := WholeRun(invs, versionSchema, now, views), |invs| - 1;
            && |cs| == |invs| + 2
            && (j <= n ==> cs[..j] == Intermediates(invs, now, j))
            && (j < n ==> cs[j] == Intermediate(invs[j], now + j))
            && (j == n ==> cs[j] == CmdStart(invs[n].name, InverseMigration(invs[n], versionSchema), now + n, views))
            && (j == n + 1 ==> cs[..j] == Train(invs, versionSchema, now, views) && cs[j] == CmdComplete(views))
            && (j == n + 2 ==> cs[..j] == OneShot(invs, versionSchema, now, views) && cs[j] == CmdPrune(NameSet(PlanNames(invs))))
  {
    hide InverseMigration, PlanNames, NameSet, Intermediate;
  }

  lemma CrashedAtIs(d: DB, cs: seq<Command>, j: nat, cut: nat)
    requires j < |cs|
    ensures var before := Carry(d, cs[..j]); CrashedAt(d, cs, j, cut) == Run(before, Cut(Program(before, cs[j]), cut))
  {
    hide Carry, Program, Cut, Run;
  }

  /** A whole program run. */
  lemma CutWhole(p: seq<Stmt>, cut: nat)
    requires |p| <= cut
    ensures Cut(p, cut) == p
  {
  }

  /** Up to the last Start, and in the last Complete before its stamp, the database can be walked back. */
  lemma BackUntilStamped(d: DB, to: string, k: nat, store: Store, invs: seq<I.Inverse>, versionSchema: string, now: int, views: bool, j: nat, cut: nat)
    requires CanRevert(d, to, k, store, invs, now) && WaitsSafely(d.rows, invs) && j <= |invs| && invs != []
    requires j == |invs| ==> cut < |Program(Carry(d, Train(invs, versionSchema, now, views)), CmdComplete(views))|
    ensures |WholeRun(invs, versionSchema, now, views)| == |invs| + 2
    ensures Back(d.rows, CrashedAt(d, WholeRun(invs, versionSchema, now, views), j, cut).rows)
  {
    hide *;
    CanRevertIs(d, to, k, store, invs, now);
    WholeAt(invs, versionSchema, now, views, j);
    CrashedAtIs(d, WholeRun(invs, versionSchema, now, views), j, cut);
    if j < |invs| - 1 {
      BackInIntermediate(d, invs, now, j, cut);
    } else if j == |invs| - 1 {
      BackInStart(d, invs, versionSchema, now, views, cut);
    } else {
      TrainExpands(d, invs, versionSchema, now, views);
      BackInComplete(d, Carry(d, Train(invs, versionSchema, now, views)), invs, versionSchema, now, views, cut);
    }
  }

  /** Running again after a crash anywhere restores history, when nothing has to wait. */
  lemma RerunRestores(d: DB, to: string, k: nat, store: Store, invs: seq<I.Inverse>, versionSchema: string, now: int, views: bool, j: nat, cut: nat,
                      later: int, r: SealedOutcome, k2: nat, invs2: seq<I.Inverse>, end: DB)
    requires CanRevert(d, to, k, store, invs, now) && SafeToCrash(d.rows, k, invs) && invs != []
    requires j < |WholeRun(invs, versionSchema, now, views)|
    requires var c := CrashedAt(d, WholeRun(invs, versionSchema, now, views), j, cut);
             (forall x | x in c.rows :: x.createdAt < later) && SealedResult(c, to, store, later, false, views, r, k2, invs2, end)
    ensures k < |d.rows| && end.rows == FinalRows(d.rows)[..k + 1]
  {
    hide *;
    CanRevertIs(d, to, k, store, invs, now);
    SafeParts(d.rows, k, invs);
    WholeAt(invs, versionSchema, now, views, 0);
    var cs := WholeRun(invs, versionSchema, now, views);
    var c := CrashedAt(d, cs, j, cut);
    if j < |invs| || (j == |invs| && cut < |Program(Carry(d, Train(invs, versionSchema, now, views)), CmdComplete(views))|) {
      BackUntilStamped(d, to, k, store, invs, versionSchema, now, views, j, cut);
      RerunBack(d, c, to, k, store, invs, now, later, views, r, k2, invs2, end);
    } else {
      TrainReverts(d, k, invs, versionSchema, now, views);
      OneShotRestores(d, k, invs, versionSchema, now, views);
      OneShotRowsIs(d, invs, versionSchema, now, views);
      AfterStamp(d, invs, versionSchema, now, views, j, cut);
      if c.rows == Carry(d, OneShot(invs, versionSchema, now, views)).rows {
        RerunDone(d, c, to, k, store, invs, now, later, views, r, k2, invs2, end);
      } else {
        RerunPruned(d, c, to, k, store, invs, now, later, views, r, k2, invs2, end);
      }
    }
  }

  lemma SafeParts(rows: seq<Row>, k: nat, invs: seq<I.Inverse>)
    ensures SafeToCrash(rows, k, invs) <==> WaitsSafely(rows, invs) && NoInverseAbove(rows, k)
  {
  }

  /** Past the final stamp: the train completed, or pruned. */
  lemma AfterStamp(d: DB, invs: seq<I.Inverse>, versionSchema: string, now: int, views: bool, j: nat, cut: nat)
    requires invs != [] && |invs| <= j <= |invs| + 1 && |WholeRun(invs, versionSchema, now, views)| == |invs| + 2
    requires j == |invs| ==> |Program(Carry(d, Train(invs, versionSchema, now, views)), CmdComplete(views))| <= cut
    ensures var c, end := CrashedAt(d, WholeRun(invs, versionSchema, now, views), j, cut), Carry(d, OneShot(invs, versionSchema, now, views));
            c.rows == end.rows || c.rows == Pruned(end.rows, NameSet(PlanNames(invs)))
  {
    hide *;
    WholeAt(invs, versionSchema, now, views, j);
    CrashedAtIs(d, WholeRun(invs, versionSchema, now, views), j, cut);
    if j == |invs| {
      var up := Carry(d, Train(invs, versionSchema, now, views));
      CutWhole(Program(up, CmdComplete(views)), cut);
      OneShotIs(invs, versionSchema, now, views);
      CarryConcat(d, Train(invs, versionSchema, now, views), [CmdComplete(views)]);
      CarryOne(up, CmdComplete(views));
    } else {
      PruneCut(Carry(d, OneShot(invs, versionSchema, now, views)), NameSet(PlanNames(invs)), cut);
    }
  }

  lemma PruneCut(db: DB, names: set<string>, cut: nat)
    ensures var rows := Run(db, Cut(Program(db, CmdPrune(names)), cut)).rows; rows == db.rows || rows == Pruned(db.rows, names)
  {
    hide Pruned, HasActive;
    RunOne(db, PruneRows(names));
    RunNothing(db);
    assert [PruneRows(names)][..0] == [];
  }

  // ----- Where it fails -----

  /** Statements that add no row and neither finish nor queue one. */
  predicate Mild(s: Stmt)
  {
    s.CreateSchema? || s.DropSchema? || s.OtherDDL? || s.Seal? || s.BeginComplete? || s.EndComplete? || s.UnsetDeferred?
  }

  predicate OnwardRow(a: Row, b: Row)
  {
    && a.name == b.name && a.migration == b.migration && a.kind == b.kind && a.done == b.done
    && (a.sealed ==> b.sealed) && (b.sealed ==> a.sealed || a.done) && (b.deferred ==> a.deferred)
  }

  ghost predicate Onward(a: seq<Row>, b: seq<Row>)
  {
    |a| == |b| && forall i :: 0 <= i < |a| ==> OnwardRow(a[i], b[i])
  }

  lemma {:induction false} MildRun(db: DB, ss: seq<Stmt>)
    requires forall s | s in ss :: Mild(s)
    ensures Onward(db.rows, Run(db, ss).rows)
    decreases |ss|
  {
    if ss != [] {
      MildRun(Apply(db, ss[0]), ss[1..]);
      MildStep(db, ss[0]);
      OnwardTwice(db.rows, Apply(db, ss[0]).rows, Run(Apply(db, ss[0]), ss[1..]).rows);
    }
  }

  lemma MildStep(db: DB, s: Stmt)
    requires Mild(s)
    ensures Onward(db.rows, Apply(db, s).rows)
  {
  }

  lemma OnwardTwice(a: seq<Row>, b: seq<Row>, c: seq<Row>)
    requires Onward(a, b) && Onward(b, c)
    ensures Onward(a, c)
  {
    forall i | 0 <= i < |a| ensures OnwardRow(a[i], c[i]) {
      assert OnwardRow(a[i], b[i]) && OnwardRow(b[i], c[i]);
    }
  }

  lemma {:induction false} DrainMild(names: seq<string>)
    ensures forall s | s in Drain(names) + Drops(names) :: Mild(s)
  {
    if names != [] {
      DrainMild(names[1..]);
    }
  }

  /** All the last Complete does before it marks its row done. */
  lemma StampIsMild(others: seq<string>, q: seq<string>, dropped: seq<string>, name: string, rebuilt: seq<string>) returns (head: seq<Stmt>)
    ensures BeforeStamp(others, q, dropped, name, rebuilt) == head + [SetDone(name)]
    ensures forall s | s in head :: Mild(s)
  {
    var own := [BeginComplete(name), EndComplete(name)] + (if rebuilt == [] then [] else [CreateSchema(rebuilt[0])]);
    head := Drops(others) + (SealedDrain(q, dropped) + own);
    DrainMild(others);
    DrainMild(dropped);
    DrainMild(q);
    assert forall s | s in SealedDrain(q, dropped) :: Mild(s);
    assert forall s | s in own :: Mild(s);
    hide Drops, SealedDrain, Mild;
    assert OwnUntilDone(name, rebuilt) == own + [SetDone(name)];
  }

  /** A last inverse whose Complete must wait is, for one statement, done but neither queued nor sealed. */
  lemma StuckBeforeStamp(rows: seq<Row>, up: DB, invs: seq<I.Inverse>, versionSchema: string, now: int, views: bool)
    requires Expanded(rows, up.rows, invs, versionSchema, now) && Sound(rows, invs) && invs != [] && MustWait(invs[|invs| - 1])
    ensures var p := Program(up, CmdComplete(views));
            && p != []
            && var c := Run(up, p[..|p| - 1]).rows; |c| == |rows| + |invs| && PartialTrain(c) && !Window(c)
  {
    hide *;
    var a := ExpandedActive(rows, up.rows, invs, versionSchema, now);
    var others, dropped, rebuilt := CompleteIsStamped(up, views);
    var head := StampIsMild(others, QueueNames(up.rows), dropped, a.name, rebuilt);
    var p := Program(up, CmdComplete(views));
    assert p[..|p| - 1] == head + [SetDone(a.name)];
    MildRun(up, head);
    RunAppend(up, head, SetDone(a.name));
    BackExpanded(rows, up.rows, invs, versionSchema, now);
    ExpandedRows(rows, up.rows, invs, versionSchema, now);
    ExpandedIs(rows, up.rows, invs, versionSchema, now);
    DoneUnsealed(rows, up.rows, Run(up, head), |up.rows| - 1);
  }

  lemma DoneUnsealed(base: seq<Row>, up: seq<Row>, mid: DB, last: nat)
    requires Back(base, up) && last == |up| - 1 && |base| <= last && Onward(up, mid.rows)
    requires !up[last].done && !up[last].deferred && up[last].migration.CompleteMustBeDeferred()
    ensures var c := Apply(mid, SetDone(up[last].name)).rows; |c| == |up| && PartialTrain(c) && !Window(c)
  {
    var c := Apply(mid, SetDone(up[last].name)).rows;
    assert OnwardRow(up[last], mid.rows[last]) && Walkable(up[last]);
    UnsealedAreInverses(base, up, mid.rows, up[last].name);
    assert c[last] in c && !Revertible(c[last]) && c[last].kind != Baseline;
    hide Linear, FinalRows, Back, Onward;
    BadRow(c, last);
  }

  lemma UnsealedAreInverses(base: seq<Row>, up: seq<Row>, mid: seq<Row>, name: string)
    requires Back(base, up) && Onward(up, mid)
    ensures forall r :: r in Updated(mid, name, MarkDone) && !r.sealed ==> r.migration.revertOf != ""
  {
    forall i | 0 <= i < |mid| ensures mid[i].sealed || mid[i].migration.revertOf != "" {
      assert OnwardRow(up[i], mid[i]);
      if i < |base| {
        assert Settles(base[i], up[i]);
      } else {
        assert Walkable(up[i]);
      }
    }
    hide Back, Onward;
  }

  /** The old history, unchanged, and a row for each inverse; those below the last undo what they should. */
  ghost predicate TrainOnTop(rows: seq<Row>, c: seq<Row>, invs: seq<I.Inverse>)
  {
    && |c| == |rows| + |invs| && (forall i :: 0 <= i < |rows| ==> c[i] == rows[i])
    && forall i :: 0 <= i < |invs| - 1 ==>
         c[|rows| + i].name == invs[i].name && c[|rows| + i].migration.revertOf == invs[i].revertOf && c[|rows| + i].kind == Pgroll
  }

  /** After the stamp of the last Complete, its own inverse is the only row the window holds. */
  lemma StampedWindow(rows: seq<Row>, cur: seq<Row>, invs: seq<I.Inverse>, versionSchema: string, now: int)
    requires Expanded(rows, cur, invs, versionSchema, now) && Sound(rows, invs) && rows != []
    ensures var c := Sealed(cur);
            PartialTrain(c) && Window(c) && |WindowTargets(c)| == 1 && |c| == |rows| + |invs| && TrainOnTop(rows, c, invs)
  {
    hide *;
    var c := Sealed(cur);
    ExpandedRows(rows, cur, invs, versionSchema, now);
    ExpandedIs(rows, cur, invs, versionSchema, now);
    BackExpanded(rows, cur, invs, versionSchema, now);
    SealedChain(cur);
    LinearSameChain(cur, c);
    BaseSealed(rows, cur, invs);
    BackStamped(rows, cur, invs, now);
    BackWindow(c[..|c| - 1], c);
  }

  lemma SealedChain(rows: seq<Row>)
    ensures |Sealed(rows)| == |rows| && SameChain(rows, Sealed(rows))
  {
  }

  lemma BaseSealed(rows: seq<Row>, cur: seq<Row>, invs: seq<I.Inverse>)
    requires Sound(rows, invs) && |rows| <= |cur| == |Sealed(cur)| && forall i :: 0 <= i < |rows| ==> cur[i] == rows[i]
    ensures forall i :: 0 <= i < |rows| ==> Sealed(cur)[i] == rows[i] && rows[i].sealed
  {
  }

  lemma BackStamped(rows: seq<Row>, cur: seq<Row>, invs: seq<I.Inverse>, now: int)
    requires invs != [] && |cur| == |rows| + |invs| && Linear(Sealed(cur)) && Back(rows, cur)
    requires forall i :: 0 <= i < |rows| ==> Sealed(cur)[i] == rows[i] && rows[i].sealed
    requires forall i :: 0 <= i < |invs| - 1 ==> IsTrainRow(cur[|rows| + i], invs[i], now + i)
    requires !cur[|cur| - 1].done
    ensures var c := Sealed(cur); Back(c[..|c| - 1], c) && TrainOnTop(rows, c, invs)
  {
    var c := Sealed(cur);
    forall i | 0 <= i < |invs| - 1
      ensures var r := c[|rows| + i]; r.name == invs[i].name && r.migration.revertOf == invs[i].revertOf && r.kind == Pgroll
    {
      assert IsTrainRow(cur[|rows| + i], invs[i], now + i);
    }
    hide Linear, InverseMigration;
    forall i | 0 <= i < |c| - 1 ensures Settles(c[..|c| - 1][i], c[i]) {
      if |rows| <= i {
        assert IsTrainRow(cur[|rows| + (i - |rows|)], invs[i - |rows|], now + (i - |rows|));
      }
    }
    assert Walkable(cur[|cur| - 1]);
  }

  /** Walking it back leaves the other inverses, which mirror the segment above the next boundary up. */
  lemma OthersRevert(rows: seq<Row>, c: seq<Row>, k: nat, invs: seq<I.Inverse>)
    requires MirrorsSegment(rows, k, invs) && PlainSegment(rows, k) && 2 <= |invs| && Linear(c) && TrainOnTop(rows, c, invs)
    ensures |c| == |rows| + |invs|
    ensures var after := c[..|c| - 1];
            Linear(after) && Reverted(rows, k + 1, after) && PlainSegment(rows, k + 1) && Layout(after, k, |rows|)
  {
    hide *;
    OthersReverted(rows, c, k, invs);
    LinearPrefix(c, |c| - 1);
    PlainNext(rows, k);
    LayoutAfter(rows, k + 1, c[..|c| - 1]);
    LayoutLower(rows, k, c[..|c| - 1]);
  }

  lemma OthersReverted(rows: seq<Row>, c: seq<Row>, k: nat, invs: seq<I.Inverse>)
    requires MirrorsSegment(rows, k, invs) && 2 <= |invs| && TrainOnTop(rows, c, invs)
    ensures |c| == |rows| + |invs| && k + 2 < |rows| && Reverted(rows, k + 1, c[..|c| - 1])
  {
    var after := c[..|c| - 1];
    forall i | |rows| <= i < |after| ensures IsInverseOf(after[i], rows[2 * |rows| - 1 - i]) {
      var j := i - |rows|;
      assert c[|rows| + j].name == invs[j].name;
    }
  }

  lemma PlainNext(rows: seq<Row>, k: nat)
    requires PlainSegment(rows, k) && k + 2 < |rows|
    ensures PlainSegment(rows, k + 1) && rows[k + 1].migration.revertOf == ""
  {
    hide VisibleFrom;
  }

  lemma LayoutLower(rows: seq<Row>, k: nat, after: seq<Row>)
    requires Layout(after, k + 1, |rows|) && Reverted(rows, k + 1, after) && rows[k + 1].migration.revertOf == ""
    ensures Layout(after, k, |rows|)
  {
    hide IsInverseOf;
  }

  lemma SameMirror(a: seq<Row>, b: seq<Row>, after: seq<Row>, n: nat)
    requires Mirrors(a, after, n) && Mirrors(b, after, n)
    ensures a == b
  {
  }

  /** Finishing above either boundary then prunes the same rows. */
  lemma SamePending(rows: seq<Row>, k: nat, after: seq<Row>)
    requires Linear(after) && Reverted(rows, k + 1, after) && PlainSegment(rows, k + 1) && PlainSegment(rows, k) && Layout(after, k, |rows|)
    ensures k + 1 < |rows|
    ensures PendingNames(after, rows[k].name) == PendingNames(after, rows[k + 1].name)
  {
    hide *;
    TrainSize(rows, k + 1, after);
    SamePrefix(rows, k + 1, after);
    assert after[..k + 2][k] == rows[..k + 2][k] && after[..k + 2][k + 1] == rows[..k + 2][k + 1];
    VisibleFromAfter(rows, k + 1, after);
    PlainIs(rows, k);
    LayoutAfter(rows, k + 1, after);
    var b := VisibleFrom(after);
    TrainMirrored(after, k, |rows|, b);
    TrainMirrored(after, k + 1, |rows|, b);
    SameMirror(Inverses(after, b, |after|, rows[k].name), Inverses(after, b, |after|, rows[k + 1].name), after, |rows|);
    PendingNamesIs(after, rows[k].name);
    PendingNamesIs(after, rows[k + 1].name);
  }

  /** So the rest of the train is pruned, and the row above the boundary stays, applied. */
  lemma PrunesTooLittle(rows: seq<Row>, k: nat, after: seq<Row>)
    requires Linear(after) && Reverted(rows, k + 1, after) && PlainSegment(rows, k + 1) && PlainSegment(rows, k) && Layout(after, k, |rows|)
    ensures k + 1 < |rows|
    ensures FinishOutcome(after, rows[k].name) == Finished(rows[k].name)
    ensures FinishedRows(after, Finished(rows[k].name)) == rows[..k + 2]
  {
    hide *;
    SamePending(rows, k, after);
    FinishesAbove(rows, k + 1, after);
    PlainIs(rows, k + 1);
    LeafReverted(rows, k + 1, after);
    OutcomeIs(after, rows[k].name);
    OutcomeIs(after, rows[k + 1].name);
  }

  /** With a last inverse that must wait, a crash before the final stamp leaves what no re-run takes further. */
  lemma RerunStuck(d: DB, to: string, k: nat, store: Store, invs: seq<I.Inverse>, versionSchema: string, now: int, views: bool) returns (cut: nat)
    requires CanRevert(d, to, k, store, invs, now) && invs != [] && MustWait(invs[|invs| - 1])
    ensures |WholeRun(invs, versionSchema, now, views)| == |invs| + 2
    ensures var c := CrashedAt(d, WholeRun(invs, versionSchema, now, views), |invs|, cut);
            && |c.rows| == |d.rows| + |invs|
            && forall later: int :: SealedResult(c, to, store, later, false, views, PartialStuck, 0, [], c)
  {
    hide *;
    CanRevertIs(d, to, k, store, invs, now);
    WholeAt(invs, versionSchema, now, views, |invs|);
    var cs := WholeRun(invs, versionSchema, now, views);
    TrainExpands(d, invs, versionSchema, now, views);
    var up := Carry(d, Train(invs, versionSchema, now, views));
    StuckBeforeStamp(d.rows, up, invs, versionSchema, now, views);
    var p := Program(up, CmdComplete(views));
    cut := |p| - 1;
    CrashedAtIs(d, cs, |invs|, cut);
    CutIs(p, cut);
    var c := CrashedAt(d, cs, |invs|, cut);
    forall later: int ensures SealedResult(c, to, store, later, false, views, PartialStuck, 0, [], c) {
      StuckIs(c, to, store, later, false, views);
    }
  }

  /** With something waiting below the last inverse, a crash right after the first stamp loses that inverse. */
  lemma RerunLoses(d: DB, to: string, k: nat, store: Store, invs: seq<I.Inverse>, versionSchema: string, now: int, views: bool) returns (cut: nat, end: DB)
    requires CanRevert(d, to, k, store, invs, now) && 2 <= |invs| && NoInverseAbove(d.rows, k) && !NothingWaits(d.rows, invs)
    ensures |WholeRun(invs, versionSchema, now, views)| == |invs| + 2
    ensures var c := CrashedAt(d, WholeRun(invs, versionSchema, now, views), |invs|, cut);
            && k + 1 < |d.rows| && end.rows == d.rows[..k + 2]
            && forall later: int :: SealedResult(c, to, store, later, false, views, Resume(Finished(to)), 0, [], end)
  {
    hide *;
    CanRevertIs(d, to, k, store, invs, now);
    WholeAt(invs, versionSchema, now, views, |invs|);
    var cs := WholeRun(invs, versionSchema, now, views);
    TrainExpands(d, invs, versionSchema, now, views);
    var up := Carry(d, Train(invs, versionSchema, now, views));
    ExpandedQueue(d.rows, up.rows, invs, versionSchema, now);
    var stamped;
    cut, stamped := FirstStamp(d.rows, up, invs, versionSchema, now, views);
    CrashedAtIs(d, cs, |invs|, cut);
    var c := CrashedAt(d, cs, |invs|, cut);
    StampedWindow(d.rows, up.rows, invs, versionSchema, now);
    ResumedIs(c, views);
    RevertRows(c, 1, views);
    ExpandedIs(d.rows, up.rows, invs, versionSchema, now);
    SealedChain(up.rows);
    LinearSameChain(up.rows, c.rows);
    CanRunIs(d.rows, k, invs, now);
    OthersRevert(d.rows, c.rows, k, invs);
    PrunesTooLittle(d.rows, k, Resumed(c, views).rows);
    end := DB(d.rows[..k + 2], [], []);
    forall later: int ensures SealedResult(c, to, store, later, false, views, Resume(Finished(to)), 0, [], end) {
      ResumeIs(c, to, store, later, false, views, end);
    }
  }

  /** With an inverse in the segment already, a crash before the prune makes the finish take too much, or fail. */
  lemma RerunTakesMore(d: DB, to: string, k: nat, store: Store, invs: seq<I.Inverse>, versionSchema: string, now: int, views: bool)
    returns (r: SealedOutcome, end: DB)
    requires CanRevert(d, to, k, store, invs, now) && !NoInverseAbove(d.rows, k)
    ensures invs != [] && |WholeRun(invs, versionSchema, now, views)| == |invs| + 2 && k < |d.rows|
    ensures end.rows != FinalRows(d.rows)[..k + 1]
    ensures var c := CrashedAt(d, WholeRun(invs, versionSchema, now, views), |invs| + 1, 0);
            forall later: int :: SealedResult(c, to, store, later, false, views, r, 0, [], end)
  {
    hide *;
    CanRevertIs(d, to, k, store, invs, now);
    WholeAt(invs, versionSchema, now, views, |invs| + 1);
    var cs := WholeRun(invs, versionSchema, now, views);
    CrashedAtIs(d, cs, |invs| + 1, 0);
    var done := Carry(d, OneShot(invs, versionSchema, now, views));
    CutNone(done, Program(done, cs[|invs| + 1]));
    TrainReverts(d, k, invs, versionSchema, now, views);
    FinalSegment(d.rows, k);
    FinalNames(d.rows);
    var i := SomeInverse(FinalRows(d.rows), k);
    SamePrefix(FinalRows(d.rows), k, done.rows);
    assert done.rows[..k + 1][k] == FinalRows(d.rows)[..k + 1][k];
    NamesAbove(done.rows, k, to);
    PendingTakesMore(FinalRows(d.rows), k, done.rows, to, i);
    SealedNotPartial(done, views);
    var f := FinishOutcome(done.rows, to);
    r, end := Resume(f), DB(FinishedRows(done.rows, f), [], []);
    forall later: int ensures SealedResult(done, to, store, later, false, views, r, 0, [], end) {
      ResumeIs(done, to, store, later, false, views, end);
    }
  }

  lemma CutNone(db: DB, p: seq<Stmt>)
    ensures Run(db, Cut(p, 0)) == db
  {
    RunNothing(db);
    assert |p| > 0 ==> p[..0] == [];
  }

  /** A last Complete that finds a queue stamps before anything else but schema drops. */
  lemma FirstStamp(rows: seq<Row>, up: DB, invs: seq<I.Inverse>, versionSchema: string, now: int, views: bool) returns (cut: nat, stamped: DB)
    requires Expanded(rows, up.rows, invs, versionSchema, now) && QueueNames(up.rows) != []
    ensures stamped == Run(up, Cut(Program(up, CmdComplete(views)), cut)) && stamped.rows == Sealed(up.rows)
  {
    hide *;
    var a := ExpandedActive(rows, up.rows, invs, versionSchema, now);
    var others, dropped, rebuilt := CompleteIsStamped(up, views);
    var q := QueueNames(up.rows);
    SealedDrainIs(q, dropped);
    BeforeStampIs(others, q, dropped, a.name, rebuilt);
    var p, drops := Program(up, CmdComplete(views)), Drops(others);
    var head := drops + [Seal];
    HeadFirst(drops, Drops(dropped) + Drain(q), OwnUntilDone(a.name, rebuilt), p);
    cut := |head|;
    CutIs(p, cut);
    DropsSteady(up, others);
    RunAppend(up, drops, Seal);
    stamped := Run(up, head);
    SealRows(Run(up, drops));
  }

  lemma HeadFirst(drops: seq<Stmt>, drain: seq<Stmt>, own: seq<Stmt>, p: seq<Stmt>)
    requires p == (drops + (([Seal] + drain) + own)) + [Seal]
    ensures |drops + [Seal]| < |p| && p[..|drops + [Seal]|] == drops + [Seal]
  {
  }

  lemma SealRows(db: DB)
    ensures Apply(db, Seal).rows == Sealed(db.rows)
  {
  }

  // ----- Exactly when a crash is repaired by running again -----

  /** However a re-run from `c` ends, history is then what an uninterrupted run leaves. */
  ghost predicate Recovers(d: DB, to: string, k: nat, store: Store, c: DB, views: bool)
    requires k < |d.rows|
  {
    forall later, r, k2, invs2, end :: (forall x | x in c.rows :: x.createdAt < later) && SealedResult(c, to, store, later, false, views, r, k2, invs2, end)
      ==> end.rows == FinalRows(d.rows)[..k + 1]
  }

  lemma {:induction false} SomeLater(rows: seq<Row>) returns (later: int)
    ensures forall x | x in rows :: x.createdAt < later
  {
    if rows == [] {
      later := 0;
    } else {
      later := SomeLater(rows[1..]);
      later := if rows[0].createdAt < later then later else rows[0].createdAt + 1;
      assert rows == [rows[0]] + rows[1..];
    }
  }

  /** A re-run that can end with other rows. */
  lemma DoesNotRecover(d: DB, to: string, k: nat, store: Store, c: DB, views: bool, r: SealedOutcome, end: DB)
    requires k < |d.rows| && end.rows != FinalRows(d.rows)[..k + 1]
    requires forall later: int :: SealedResult(c, to, store, later, false, views, r, 0, [], end)
    ensures !Recovers(d, to, k, store, c, views)
  {
    var later := SomeLater(c.rows);
    hide SealedResult;
    assert SealedResult(c, to, store, later, false, views, r, 0, [], end);
  }

  /**
   * A one-shot revert cut off anywhere, up to its prune, is repaired by running it again exactly when the last
   * inverse need not wait, nothing else waits either unless it is the only one, and none of the migrations to
   * undo is itself an inverse.
   */
  lemma RecoversIffNothingWaits(d: DB, to: string, k: nat, store: Store, invs: seq<I.Inverse>, versionSchema: string, now: int, views: bool)
    requires CanRevert(d, to, k, store, invs, now)
    ensures invs != [] && k < |d.rows|
    ensures (forall j: nat, cut: nat :: j < |WholeRun(invs, versionSchema, now, views)| ==>
               Recovers(d, to, k, store, CrashedAt(d, WholeRun(invs, versionSchema, now, views), j, cut), views))
            <==> SafeToCrash(d.rows, k, invs)
  {
    hide *;
    CanRevertIs(d, to, k, store, invs, now);
    WholeAt(invs, versionSchema, now, views, 0);
    SafeParts(d.rows, k, invs);
    FinalNames(d.rows);
    var cs := WholeRun(invs, versionSchema, now, views);
    if SafeToCrash(d.rows, k, invs) {
      forall j: nat, cut: nat | j < |cs| ensures Recovers(d, to, k, store, CrashedAt(d, cs, j, cut), views) {
        AlwaysRecovers(d, to, k, store, invs, versionSchema, now, views, j, cut);
      }
    } else if !NoInverseAbove(d.rows, k) {
      var r, end := RerunTakesMore(d, to, k, store, invs, versionSchema, now, views);
      DoesNotRecover(d, to, k, store, CrashedAt(d, cs, |invs| + 1, 0), views, r, end);
    } else if MustWait(invs[|invs| - 1]) {
      var cut := RerunStuck(d, to, k, store, invs, versionSchema, now, views);
      var c := CrashedAt(d, cs, |invs|, cut);
      DoesNotRecover(d, to, k, store, c, views, PartialStuck, c);
    } else {
      UnsafeIs(d.rows, invs);
      var cut, end := RerunLoses(d, to, k, store, invs, versionSchema, now, views);
      DoesNotRecover(d, to, k, store, CrashedAt(d, cs, |invs|, cut), views, Resume(Finished(to)), end);
    }
  }

  lemma UnsafeIs(rows: seq<Row>, invs: seq<I.Inverse>)
    requires invs != [] && !WaitsSafely(rows, invs) && !MustWait(invs[|invs| - 1])
    ensures 2 <= |invs| && !NothingWaits(rows, invs)
  {
  }

  lemma AlwaysRecovers(d: DB, to: string, k: nat, store: Store, invs: seq<I.Inverse>, versionSchema: string, now: int, views: bool, j: nat, cut: nat)
    requires CanRevert(d, to, k, store, invs, now) && SafeToCrash(d.rows, k, invs) && invs != [] && k < |d.rows|
    requires j < |WholeRun(invs, versionSchema, now, views)|
    ensures Recovers(d, to, k, store, CrashedAt(d, WholeRun(invs, versionSchema, now, views), j, cut), views)
  {
    hide CanRevert, SafeToCrash, WholeRun, CrashedAt, SealedResult, FinalRows;
    var c := CrashedAt(d, WholeRun(invs, versionSchema, now, views), j, cut);
    forall later, r, k2, invs2, end | (forall x | x in c.rows :: x.createdAt < later) && SealedResult(c, to, store, later, false, views, r, k2, invs2, end)
      ensures end.rows == FinalRows(d.rows)[..k + 1]
    {
      RerunRestores(d, to, k, store, invs, versionSchema, now, views, j, cut, later, r, k2, invs2, end);
    }
  }
}
