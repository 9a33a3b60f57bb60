/** The leaf's version schema, which apps are pinned to, through interrupted contractions. */
module LiveSchema {
  import opened Database
  import opened History
  import opened Lifecycle
  import opened Contract

  function Live(rows: seq<Row>): string
    requires rows != []
  {
    rows[|rows| - 1].VersionSchema()
  }

  /** The last queued Complete is one that forces the live schema to be dropped and rebuilt. */
  predicate LastNeedsLiveDrop(rows: seq<Row>)
  {
    exists l :: 0 <= l < |rows| && rows[l].deferred && rows[l].migration.CompleteRequiresLiveSchemaDrop()
                && forall j :: l < j < |rows| ==> !rows[j].deferred
  }

  /** What a caller can check before contracting: `onComplete` raw SQL is queued nowhere, or also last. */
  predicate SafeQueue(rows: seq<Row>)
  {
    NeedsLiveDrop(rows) ==> LastNeedsLiveDrop(rows)
  }

  /** The live schema is there, or the remaining queue still says it must be rebuilt. */
  predicate Recoverable(db: DB)
  {
    db.rows != [] && (Live(db.rows) in db.schemas || NeedsLiveDrop(db.rows))
  }

  // ----- What calm statements leave alone -----

  /** Names and migrations stay, and flags only go down. */
  predicate Drained(a: seq<Row>, b: seq<Row>)
  {
    |a| == |b| && forall i :: 0 <= i < |a| ==>
      a[i].name == b[i].name && a[i].migration == b[i].migration && (b[i].deferred ==> a[i].deferred)
  }

  predicate StillQueued(a: seq<Row>, b: seq<Row>, name: string)
  {
    |a| == |b| && forall i :: 0 <= i < |a| && a[i].name == name ==> a[i].deferred == b[i].deferred
  }

  /** A calm statement that drops no schema in `keep`, clears no flag in `stay` and creates only what is in `make`. */
  predicate Tame(s: Stmt, keep: set<string>, stay: set<string>, make: set<string>)
  {
    Calm(s) && (s.DropSchema? ==> s.name !in keep) && (s.UnsetDeferred? ==> s.name !in stay) && (s.CreateSchema? ==> s.name in make)
  }

  predicate AllTame(ss: seq<Stmt>, keep: set<string>, stay: set<string>, make: set<string>)
  {
    forall i :: 0 <= i < |ss| ==> Tame(ss[i], keep, stay, make)
  }

  lemma TameConcat(a: seq<Stmt>, b: seq<Stmt>, keep: set<string>, stay: set<string>, make: set<string>)
    ensures AllTame(a, keep, stay, make) && AllTame(b, keep, stay, make) <==> AllTame(a + b, keep, stay, make)
  {
    hide Tame;
    var c := a + b;
    assert forall i :: 0 <= i < |a| ==> a[i] == c[i];
    assert forall i :: 0 <= i < |b| ==> b[i] == c[|a| + i];
  }

  lemma TamePrefix(ss: seq<Stmt>, m: nat, keep: set<string>, stay: set<string>, make: set<string>)
    requires AllTame(ss, keep, stay, make) && m <= |ss|
    ensures AllTame(ss[..m], keep, stay, make)
  {
    hide Tame;
  }

  lemma TameStep(db: DB, s: Stmt, keep: set<string>, stay: set<string>, make: set<string>)
    requires Tame(s, keep, stay, make)
    ensures var after := Apply(db, s);
            && Drained(db.rows, after.rows)
            && (forall x | x in keep && x in db.schemas :: x in after.schemas)
            && (forall x | x in after.schemas :: x in db.schemas || x in make)
            && (forall n | n in stay :: StillQueued(db.rows, after.rows, n))
  {
  }

  lemma {:induction false} TameRun(db: DB, ss: seq<Stmt>, keep: set<string>, stay: set<string>, make: set<string>)
    requires AllTame(ss, keep, stay, make)
    ensures var after := Run(db, ss);
            && Drained(db.rows, after.rows)
            && (forall x | x in keep && x in db.schemas :: x in after.schemas)
            && (forall x | x in after.schemas :: x in db.schemas || x in make)
            && (forall n | n in stay :: StillQueued(db.rows, after.rows, n))
    decreases |ss|
  {
    if ss != [] {
      var next := Apply(db, ss[0]);
      TameStep(db, ss[0], keep, stay, make);
      TameRun(next, ss[1..], keep, stay, make);
      hide Apply, Tame;
    }
  }

  // ----- The shape of the program -----

  lemma {:induction false} DropsTame(names: seq<string>, keep: set<string>, stay: set<string>, make: set<string>)
    requires forall n | n in keep :: n !in names
    ensures AllTame(Drops(names), keep, stay, make)
  {
    if names != [] {
      DropsTame(names[1..], keep, stay, make);
      TameConcat([DropSchema(names[0])], Drops(names[1..]), keep, stay, make);
    }
  }

  lemma {:induction false} DrainTame(names: seq<string>, keep: set<string>, stay: set<string>, make: set<string>)
    requires forall n | n in stay :: n !in names
    ensures AllTame(Drain(names), keep, stay, make)
  {
    if names != [] {
      DrainTame(names[1..], keep, stay, make);
      TameConcat(DrainOne(names[0]), Drain(names[1..]), keep, stay, make);
    }
  }

  /** The last name of the queue is that of the last queued row, and occurs once. */
  lemma {:induction false} LastQueued(rows: seq<Row>) returns (l: nat)
    requires DistinctRows(rows) && QueueNames(rows) != []
    ensures l < |rows| && rows[l].deferred && rows[l].name == QueueNames(rows)[|QueueNames(rows)| - 1]
    ensures forall j :: l < j < |rows| ==> !rows[j].deferred
    ensures rows[l].name !in QueueNames(rows)[..|QueueNames(rows)| - 1]
  {
    var q, rest := QueueNames(rows), QueueNames(rows[1..]);
    QueueMembers(rows[1..]);
    if rest == [] {
      l := 0;
      assert forall j :: 0 < j < |rows| ==> rows[j] == rows[1..][j - 1];
    } else {
      var m := LastQueued(rows[1..]);
      l := m + 1;
      assert forall j :: l < j < |rows| ==> rows[j] == rows[1..][j - 1];
      assert q[..|q| - 1] == (if rows[0].deferred then [rows[0].name] else []) + rest[..|rest| - 1];
    }
  }

  /** Everything before the last flag is cleared. */
  function BeforeLast(schemas: seq<string>, q: seq<string>, dropped: seq<string>, live: string): seq<Stmt>
    requires q != []
  {
    Drops(Others(schemas, live, true) + dropped) + (Drain(q[..|q| - 1]) +
      ([BeginComplete(q[|q| - 1]), EndComplete(q[|q| - 1]), OtherDDL] + (if dropped == [] then [] else [CreateSchema(dropped[0])])))
  }

  lemma SplitDrain(schemas: seq<string>, q: seq<string>, dropped: seq<string>, live: string)
    requires q != []
    ensures DrainProgram(schemas, q, dropped, live, true) == BeforeLast(schemas, q, dropped, live) + [UnsetDeferred(q[|q| - 1]), Seal]
  {
    hide Drops, Drain, Others;
  }

  /** What the program up to the last flag touches. */
  lemma BeforeLastTame(schemas: seq<string>, q: seq<string>, dropped: seq<string>, live: string)
    requires q != [] && q[|q| - 1] !in q[..|q| - 1] && (dropped == [] || dropped == [live])
    ensures AllTame(BeforeLast(schemas, q, dropped, live), if dropped == [] then {live} else {}, {q[|q| - 1]}, NameSet(dropped))
  {
    var keep, stay, make := if dropped == [] then {live} else {}, {q[|q| - 1]}, NameSet(dropped);
    var names, last := Others(schemas, live, true) + dropped, q[|q| - 1];
    var c := [BeginComplete(last), EndComplete(last), OtherDDL] + (if dropped == [] then [] else [CreateSchema(dropped[0])]);
    assert AllTame(c, keep, stay, make);
    DropsTame(names, keep, stay, make);
    DrainTame(q[..|q| - 1], keep, stay, make);
    hide AllTame, Drops, Drain, Others;
    TameConcat(Drain(q[..|q| - 1]), c, keep, stay, make);
    TameConcat(Drops(names), Drain(q[..|q| - 1]) + c, keep, stay, make);
  }

  /** The whole drain, last flag included. */
  lemma DrainProgramTame(schemas: seq<string>, q: seq<string>, dropped: seq<string>, live: string)
    requires q != [] && q[|q| - 1] !in q[..|q| - 1] && (dropped == [] || dropped == [live])
    ensures AllTame(DrainProgram(schemas, q, dropped, live, true), if dropped == [] then {live} else {}, {}, NameSet(dropped))
  {
    var keep, make := if dropped == [] then {live} else {}, NameSet(dropped);
    BeforeLastTame(schemas, q, dropped, live);
    SplitDrain(schemas, q, dropped, live);
    hide BeforeLast, DrainProgram;
    var pre, post := BeforeLast(schemas, q, dropped, live), [UnsetDeferred(q[|q| - 1]), Seal];
    Loosen(pre, keep, {q[|q| - 1]}, make);
    assert AllTame(post, keep, {}, make);
    hide AllTame;
    TameConcat(pre, post, keep, {}, make);
  }

  lemma Loosen(ss: seq<Stmt>, keep: set<string>, stay: set<string>, make: set<string>)
    requires AllTame(ss, keep, stay, make)
    ensures AllTame(ss, keep, {}, make)
  {
  }

  // ----- One interrupted attempt -----

  lemma DrainedLive(a: seq<Row>, b: seq<Row>)
    requires Drained(a, b) && a != []
    ensures b != [] && Live(a) == Live(b) && (NeedsLiveDrop(b) ==> NeedsLiveDrop(a))
  {
  }

  /** As long as the last flag is up, a queue that ends in raw SQL still ends in raw SQL. */
  lemma LastStays(a: seq<Row>, b: seq<Row>, l: nat)
    requires DistinctRows(a) && Drained(a, b) && l < |a| && a[l].deferred && StillQueued(a, b, a[l].name)
    requires (forall j :: l < j < |a| ==> !a[j].deferred) && LastNeedsLiveDrop(a)
    ensures NeedsLiveDrop(b) && LastNeedsLiveDrop(b)
  {
    assert b[l].deferred && b[l].migration.CompleteRequiresLiveSchemaDrop();
  }

  /** With nothing queued that needs the drop, the live schema is never touched. */
  lemma TypedKeepsLive(db: DB, m: nat)
    requires Ready(db) && db.rows != [] && !NeedsLiveDrop(db.rows) && Live(db.rows) in db.schemas
    requires m <= |AfterSeal(db, true)|
    ensures var after := Run(db, AfterSeal(db, true)[..m]);
            Drained(db.rows, after.rows) && Live(db.rows) in after.schemas && !NeedsLiveDrop(after.rows)
  {
    var p, q, live := AfterSeal(db, true), QueueNames(db.rows), Live(db.rows);
    assert AllTame(p, {live}, {}, {}) by {
      if q == [] {
        DropsTame(Others(db.schemas, live, true), {live}, {}, {});
      } else {
        var l := LastQueued(db.rows);
        DrainProgramTame(db.schemas, q, [], live);
        hide DrainProgram, QueueNames, AllTame;
        assert NameSet([]) == {};
      }
    }
    hide AfterSeal, Ready, QueueNames, AllTame;
    TamePrefix(p, m, {live}, {}, {});
    TameRun(db, p[..m], {live}, {}, {});
    DrainedLive(db.rows, Run(db, p[..m]).rows);
  }

  /** Rebuilt before the last flag goes. */
  lemma RebuiltBeforeLast(db: DB, live: string)
    requires QueueNames(db.rows) != []
    ensures live in Run(db, BeforeLast(db.schemas, QueueNames(db.rows), [live], live)).schemas
  {
    var q := QueueNames(db.rows);
    var a := Drops(Others(db.schemas, live, true) + [live]);
    var b := Drain(q[..|q| - 1]);
    var c := [BeginComplete(q[|q| - 1]), EndComplete(q[|q| - 1]), OtherDDL];
    var p := BeforeLast(db.schemas, q, [live], live);
    assert p == (a + (b + c)) + [CreateSchema(live)];
    RunConcat(db, a + (b + c), [CreateSchema(live)]);
    RunOne(Run(db, a + (b + c)), CreateSchema(live));
    hide BeforeLast, Drops, Drain, Run;
  }

  /** With raw SQL queued last, the queue keeps asking for the rebuild until the rebuild is done. */
  lemma RawRecovers(db: DB, m: nat)
    requires Ready(db) && AllSealed(db.rows) && db.rows != [] && NeedsLiveDrop(db.rows) && LastNeedsLiveDrop(db.rows)
    requires m <= |AfterSeal(db, true)|
    ensures var after := Run(db, AfterSeal(db, true)[..m]);
            && Drained(db.rows, after.rows)
            && ((Live(db.rows) in after.schemas && QueueNames(after.rows) == [])
                || (NeedsLiveDrop(after.rows) && LastNeedsLiveDrop(after.rows)))
  {
    var p, q, live := AfterSeal(db, true), QueueNames(db.rows), Live(db.rows);
    QueueMembers(db.rows);
    var l := LastQueued(db.rows);
    var pre := BeforeLast(db.schemas, q, [live], live);
    SplitDrain(db.schemas, q, [live], live);
    BeforeLastTame(db.schemas, q, [live], live);
    assert NameSet([live]) == {live};
    assert p == pre + [UnsetDeferred(q[|q| - 1]), Seal];
    RebuiltBeforeLast(db, live);
    AfterSealSteady(db, true);
    hide AfterSeal, BeforeLast, DrainProgram, QueueNames, Ready, NeedsLiveDrop, AllTame;
    if m <= |pre| {
      assert p[..m] == pre[..m];
      TamePrefix(pre, m, {}, {db.rows[l].name}, {live});
      TameRun(db, pre[..m], {}, {db.rows[l].name}, {live});
      LastStays(db.rows, Run(db, pre[..m]).rows, l);
    } else {
      PastLast(db, p, pre, q[|q| - 1], m, live);
    }
  }

  lemma PastLast(db: DB, p: seq<Stmt>, pre: seq<Stmt>, last: string, m: nat, live: string)
    requires Ready(db) && AllTame(pre, {}, {last}, {live}) && p == pre + [UnsetDeferred(last), Seal] && |pre| < m <= |p|
    requires live in Run(db, pre).schemas && AllSteady(db, p) && QueueNames(Run(db, p).rows) == []
    ensures var after := Run(db, p[..m]);
            Drained(db.rows, after.rows) && live in after.schemas && QueueNames(after.rows) == []
  {
    hide *;
    var tail := PastPrefix(p, pre, last, m);
    RunConcat(db, pre, tail);
    TameRun(db, pre, {}, {last}, {live});
    TailTame(last, tail, live);
    TameRun(Run(db, pre), tail, {live}, {}, {});
    DrainedTwice(db.rows, Run(db, pre).rows, Run(Run(db, pre), tail).rows);
    QueueBeforeSeal(db, p);
  }

  lemma PastPrefix(p: seq<Stmt>, pre: seq<Stmt>, last: string, m: nat) returns (tail: seq<Stmt>)
    requires p == pre + [UnsetDeferred(last), Seal] && |pre| < m <= |p|
    ensures tail <= [UnsetDeferred(last), Seal] && p[..m] == pre + tail && (p[..m] == p || m == |p| - 1) && p[|p| - 1] == Seal
  {
    tail := if m == |p| then [UnsetDeferred(last), Seal] else [UnsetDeferred(last)];
  }

  lemma TailTame(last: string, tail: seq<Stmt>, live: string)
    requires tail <= [UnsetDeferred(last), Seal]
    ensures AllTame(tail, {live}, {}, {})
  {
  }

  lemma DrainedTwice(a: seq<Row>, b: seq<Row>, c: seq<Row>)
    requires Drained(a, b) && Drained(b, c)
    ensures Drained(a, c)
  {
  }

  lemma QueueBeforeSeal(db: DB, p: seq<Stmt>)
    requires Ready(db) && AllSteady(db, p) && p != [] && p[|p| - 1] == Seal && QueueNames(Run(db, p).rows) == []
    ensures QueueNames(Run(db, p[..|p| - 1]).rows) == []
  {
    hide Run, AllSteady, QueueNames, FinalRows, FinalLog, AllSealed, Sealed;
    var before := Run(db, p[..|p| - 1]);
    SteadyRun(db, p, |p| - 1);
    assert p == p[..|p| - 1] + [Seal];
    RunConcat(db, p[..|p| - 1], [Seal]);
    RunOne(before, Seal);
    SealKeeps(before.rows);
  }

  // ----- Any number of attempts -----

  ghost predicate Fine(db: DB)
  {
    Ready(db) && AllDone(db.rows) && Recoverable(db) && SafeQueue(db.rows)
  }

  predicate SameFlags(a: seq<Row>, b: seq<Row>)
  {
    |a| == |b| && forall i :: 0 <= i < |a| ==>
      a[i].deferred == b[i].deferred && a[i].migration == b[i].migration && a[i].name == b[i].name
  }

  lemma FlagsDecide(a: seq<Row>, b: seq<Row>)
    requires SameFlags(a, b)
    ensures NeedsLiveDrop(a) ==> NeedsLiveDrop(b)
    ensures LastNeedsLiveDrop(a) ==> LastNeedsLiveDrop(b)
    ensures a != [] ==> Live(a) == Live(b)
  {
  }

  lemma StampFine(db: DB)
    requires Fine(db)
    ensures Fine(Apply(db, Seal)) && AllSealed(Apply(db, Seal).rows)
    ensures Live(Apply(db, Seal).rows) == Live(db.rows)
    ensures NeedsLiveDrop(Apply(db, Seal).rows) == NeedsLiveDrop(db.rows)
  {
    hide NeedsLiveDrop, LastNeedsLiveDrop, QueueNames, QueueIds, Live;
    SealKeeps(db.rows);
    FlagsDecide(db.rows, Sealed(db.rows));
    FlagsDecide(Sealed(db.rows), db.rows);
  }

  lemma EmptyNeedsNothing(rows: seq<Row>)
    requires QueueNames(rows) == []
    ensures !NeedsLiveDrop(rows)
  {
    QueueMembers(rows);
  }

  lemma SealedFine(db: DB, m: nat)
    requires Fine(db) && AllSealed(db.rows) && m <= |AfterSeal(db, true)|
    ensures var after := Run(db, AfterSeal(db, true)[..m]);
            && after.rows != [] && Live(after.rows) == Live(db.rows) && Recoverable(after) && SafeQueue(after.rows)
            && (!NeedsLiveDrop(db.rows) ==> Live(db.rows) in after.schemas && !NeedsLiveDrop(after.rows))
  {
    var after := Run(db, AfterSeal(db, true)[..m]);
    if NeedsLiveDrop(db.rows) {
      RawRecovers(db, m);
      if QueueNames(after.rows) == [] {
        EmptyNeedsNothing(after.rows);
      }
    } else {
      TypedKeepsLive(db, m);
    }
    hide AfterSeal, Run, NeedsLiveDrop, QueueNames, LastNeedsLiveDrop, AllSealed, Ready;
    DrainedLive(db.rows, after.rows);
  }

  /** Cutting a contraction off keeps the live schema recoverable. */
  lemma CutOffFine(db: DB, k: nat, force: bool)
    requires Fine(db)
    ensures var hit := CutOff(db, k, force, true);
            && Fine(hit) && Live(hit.rows) == Live(db.rows)
            && (!NeedsLiveDrop(db.rows) ==> Live(db.rows) in hit.schemas && !NeedsLiveDrop(hit.rows))
  {
    hide *;
    var p := ContractionProgram(db, force, true);
    var n := if k < |p| then k else |p|;
    FineParts(db, db);
    CutOffShape(db, k, force);
    ContractionSteady(db, force, true);
    StampFine(db);
    SteadyReady(db, p, n);
    if n > 0 {
      SealedFine(Apply(db, Seal), n - 1);
    }
    FineParts(db, CutOff(db, k, force, true));
  }

  lemma SteadyReady(db: DB, p: seq<Stmt>, n: nat)
    requires Fine(db) && AllSteady(db, p) && n <= |p|
    ensures Ready(Run(db, p[..n])) && AllDone(Run(db, p[..n]).rows)
  {
    SteadyRun(db, p, n);
    DoneKept(Run(db, p[..n]).rows, db.rows);
  }

  lemma FineParts(db: DB, hit: DB)
    requires Fine(db)
    ensures Ready(db) && AllDone(db.rows) && db.rows != []
    ensures Ready(hit) && AllDone(hit.rows) && Recoverable(hit) && SafeQueue(hit.rows) ==> Fine(hit)
    ensures !NeedsLiveDrop(db.rows) ==> Live(db.rows) in db.schemas
  {
  }

  lemma CutOffShape(db: DB, k: nat, force: bool)
    requires AllDone(db.rows)
    ensures var p := ContractionProgram(db, force, true);
            var n := if k < |p| then k else |p|;
            && CutOff(db, k, force, true) == Run(db, p[..n])
            && (n == 0 ==> CutOff(db, k, force, true) == db)
            && (n > 0 ==> n - 1 <= |AfterSeal(Apply(db, Seal), true)|
                          && CutOff(db, k, force, true) == Run(Apply(db, Seal), AfterSeal(Apply(db, Seal), true)[..n - 1]))
  {
    hide *;
    var p := ContractionProgram(db, force, true);
    var rest := AfterSeal(Apply(db, Seal), true);
    ContractionShape(db, force, true);
    CutOffIs(db, k, force);
    UnfoldPrefix(db, Seal, rest, if p == [] then 0 else if k < |p| then k else |p|);
    assert p[..0] == [];
  }

  lemma CutOffIs(db: DB, k: nat, force: bool)
    ensures var p := ContractionProgram(db, force, true);
            CutOff(db, k, force, true) == Run(db, p[..if k < |p| then k else |p|])
  {
  }

  lemma UnfoldPrefix(db: DB, s: Stmt, rest: seq<Stmt>, n: nat)
    requires n <= |rest| + 1
    ensures Run(db, []) == db
    ensures n > 0 ==> Run(db, ([s] + rest)[..n]) == Run(Apply(db, s), rest[..n - 1])
  {
    hide Apply;
    if n > 0 {
      assert ([s] + rest)[..n][0] == s && ([s] + rest)[..n][1..] == rest[..n - 1];
    }
  }

  lemma {:induction false} RetriedFine(db: DB, cuts: seq<(nat, bool)>)
    requires Fine(db)
    ensures var hit := Retried(db, cuts, true);
            && Fine(hit) && Live(hit.rows) == Live(db.rows)
            && (!NeedsLiveDrop(db.rows) ==> Live(db.rows) in hit.schemas)
    decreases |cuts|
  {
    if cuts != [] {
      CutOffFine(db, cuts[0].0, cuts[0].1);
      hide CutOff, NeedsLiveDrop, Ready, SafeQueue;
      RetriedFine(CutOff(db, cuts[0].0, cuts[0].1, true), cuts[1..]);
    }
  }

  // ----- What a finished run leaves -----

  /** The rest of a contraction after its drops creates at most the live schema. */
  lemma OnlyLiveAfterDrops(db: DB, dropped: seq<string>, live: string)
    requires Ready(db) && QueueNames(db.rows) != [] && (dropped == [] || dropped == [live])
    ensures forall x | x in Run(db, DrainProgram(db.schemas, QueueNames(db.rows), dropped, live, true)).schemas :: x == live
  {
    var q := QueueNames(db.rows);
    var l := LastQueued(db.rows);
    var names := Others(db.schemas, live, true) + dropped;
    var a, b := Drops(names), Drain(q[..|q| - 1]) + LastDrain(q[|q| - 1], dropped);
    var make := NameSet(dropped);
    DrainProgramTame(db.schemas, q, dropped, live);
    DropsSteady(db, names);
    assert forall x | x in db.schemas && x != live :: x in names;
    hide Drain, LastDrain, Drops, Others, QueueNames, Run, AllTame;
    TameConcat(a, b, if dropped == [] then {live} else {}, {}, make);
    RunConcat(db, a, b);
    TameRun(Run(db, a), b, if dropped == [] then {live} else {}, {}, make);
  }

  lemma OnlyLiveAfterSeal(db: DB)
    requires Fine(db)
    ensures forall x | x in Run(db, AfterSeal(db, true)).schemas :: x == Live(db.rows)
  {
    var q, live := QueueNames(db.rows), Live(db.rows);
    if q == [] {
      EmptyNeedsNothing(db.rows);
      DropsSteady(db, Others(db.schemas, live, true));
    } else {
      var dropped := LiveDrop(NeedsLiveDrop(db.rows), live, true);
      hide DrainProgram, QueueNames, NeedsLiveDrop, SafeQueue;
      OnlyLiveAfterDrops(db, dropped, live);
    }
  }

  /** A run that gets through leaves the live schema and no other. */
  lemma EndsWithLiveOnly(db: DB, force: bool)
    requires Fine(db) && !ContractionRefused(db, force, true)
    ensures var end := Run(db, ContractionProgram(db, force, true));
            Live(db.rows) in end.schemas && forall x | x in end.schemas :: x == Live(db.rows)
  {
    hide *;
    var p, sealed := ContractionProgram(db, force, true), Apply(db, Seal);
    var end := Run(db, p);
    FineParts(db, db);
    ContractionShape(db, force, true);
    ContractionSteady(db, force, true);
    CutOffFine(db, |p|, force);
    CutOffWhole(db, force);
    EmptyNeedsNothing(end.rows);
    FineLive(end);
    StampFine(db);
    OnlyLiveAfterSeal(sealed);
    RunConcat(db, [Seal], AfterSeal(sealed, true));
    RunOne(db, Seal);
  }

  lemma CutOffWhole(db: DB, force: bool)
    ensures CutOff(db, |ContractionProgram(db, force, true)|, force, true) == Run(db, ContractionProgram(db, force, true))
  {
    hide ContractionProgram, Run;
    var p := ContractionProgram(db, force, true);
    assert p[..|p|] == p;
  }

  lemma FineLive(db: DB)
    requires Fine(db)
    ensures db.rows != [] && (Live(db.rows) in db.schemas || NeedsLiveDrop(db.rows))
  {
  }

  // ----- When the live schema is lost -----

  lemma {:induction false} QueueHolds(rows: seq<Row>)
    ensures forall i :: 0 <= i < |rows| && rows[i].deferred ==> rows[i].name in QueueNames(rows)
  {
    if rows != [] {
      QueueHolds(rows[1..]);
      assert forall i :: 0 < i < |rows| ==> rows[i] == rows[1..][i - 1];
    }
  }

  /** All but the last Complete drained: the point where the loss happens. */
  lemma DrainedButLast(db: DB) returns (m: nat)
    requires Ready(db) && AllSealed(db.rows) && db.rows != [] && NeedsLiveDrop(db.rows) && !LastNeedsLiveDrop(db.rows)
    ensures m <= |AfterSeal(db, true)| && Lost(db, Run(db, AfterSeal(db, true)[..m]))
  {
    hide *;
    var q, live := QueueNames(db.rows), Live(db.rows);
    var l := DroppedLast(db);
    var init, last := q[..|q| - 1], q[|q| - 1];
    var names := Others(db.schemas, live, true) + [live];
    var a, b, c := Drops(names), Drain(init), LastDrain(last, [live]);
    assert AfterSeal(db, true) == a + (b + c);
    m := |a| + |b|;
    assert (a + (b + c))[..m] == a + b;
    DropsSteady(db, names);
    RunConcat(db, a, b);
    assert q == init + [last];
    ButLast(db, Run(db, a), init, l, live);
  }

  /** What the program of a queue with raw SQL in it, but not last, is made of. */
  lemma DroppedLast(db: DB) returns (l: nat)
    requires Ready(db) && db.rows != [] && NeedsLiveDrop(db.rows) && !LastNeedsLiveDrop(db.rows)
    ensures var q, live := QueueNames(db.rows), Live(db.rows);
            && q != [] && l < |db.rows| && db.rows[l].name == q[|q| - 1]
            && !db.rows[l].migration.CompleteRequiresLiveSchemaDrop()
            && AfterSeal(db, true) ==
               Drops(Others(db.schemas, live, true) + [live]) + (Drain(q[..|q| - 1]) + LastDrain(q[|q| - 1], [live]))
  {
    QueueMembers(db.rows);
    l := LastQueued(db.rows);
    hide Drops, Drain, LastDrain, QueueNames, Others;
  }

  /** The live schema gone and nothing left in the queue that would bring it back. */
  ghost predicate Lost(db: DB, hit: DB)
    requires db.rows != []
  {
    Ready(hit) && hit.rows != [] && Live(hit.rows) == Live(db.rows) && Live(db.rows) !in hit.schemas && !NeedsLiveDrop(hit.rows)
    && AllSealed(hit.rows) && QueueNames(hit.rows) != []
  }

  lemma ButLast(db: DB, start: DB, init: seq<string>, l: nat, live: string)
    requires Ready(db) && AllSealed(db.rows) && db.rows != [] && start.rows == db.rows && live == Live(db.rows) && live !in start.schemas
    requires l < |db.rows| && QueueNames(db.rows) == init + [db.rows[l].name]
    requires !db.rows[l].migration.CompleteRequiresLiveSchemaDrop()
    ensures Lost(db, Run(start, Drain(init)))
  {
    hide Drain, QueueNames, QueueIds, Run, AllSteady, FinalRows, FinalLog, Once, AllSealed, AllTame, Drained, NeedsLiveDrop, Live;
    var b := Drain(init);
    var hit := Run(start, b);
    DrainSteady(start, init, [db.rows[l].name]);
    SteadyRun(start, b, |b|);
    assert b[..|b|] == b;
    DrainTame(init, {}, {}, {});
    TameRun(start, b, {}, {}, {});
    QueueHolds(hit.rows);
    DrainedLive(db.rows, hit.rows);
    OnlyOne(db.rows, hit.rows, l);
  }

  lemma OnlyOne(a: seq<Row>, b: seq<Row>, l: nat)
    requires DistinctRows(a) && Drained(a, b) && l < |a| && !a[l].migration.CompleteRequiresLiveSchemaDrop()
    requires forall i :: 0 <= i < |b| && b[i].deferred ==> b[i].name in [a[l].name]
    ensures !NeedsLiveDrop(b)
  {
    assert forall i :: 0 <= i < |b| && b[i].deferred ==> i == l;
  }

  /** From there, no run brings it back. */
  lemma LostForGood(db: DB, hit: DB, force: bool)
    requires db.rows != [] && Lost(db, hit) && !ContractionRefused(hit, force, true)
    ensures Live(db.rows) !in Run(hit, ContractionProgram(hit, force, true)).schemas
  {
    var live, q := Live(db.rows), QueueNames(hit.rows);
    var l := LastQueued(hit.rows);
    DrainProgramTame(hit.schemas, q, [], live);
    assert NameSet([]) == {};
    var p := ContractionProgram(hit, force, true);
    assert p == [Seal] + DrainProgram(hit.schemas, q, [], live, true);
    assert AllTame([Seal], {live}, {}, {});
    hide ContractionProgram, DrainProgram, QueueNames, NeedsLiveDrop, ContractionRefused, Run, Ready, AllTame;
    TameConcat([Seal], DrainProgram(hit.schemas, q, [], live, true), {live}, {}, {});
    TameRun(hit, p, {live}, {}, {});
  }

  /** However often the contraction is interrupted, a run that gets through leaves the live schema in place. */
  ghost predicate AlwaysRestored(db: DB)
    requires db.rows != []
  {
    forall cuts: seq<(nat, bool)>, again: bool ::
      !ContractionRefused(Retried(db, cuts, true), again, true) ==>
      Live(db.rows) in Run(Retried(db, cuts, true), ContractionProgram(Retried(db, cuts, true), again, true)).schemas
  }

  /**
   * The documentation calls the contraction crash-safe. For the live schema that is so exactly when
   * `onComplete` raw SQL is queued nowhere or also last: otherwise a crash after the raw SQL has
   * drained loses the schema for good, since what to rebuild is recomputed from the remaining queue.
   */
  lemma LiveSchemaSurvives(db: DB, force: bool)
    requires Linear(db.rows) && AllDone(db.rows) && db.rows != [] && Live(db.rows) in db.schemas
    requires !ContractionRefused(db, force, true)
    ensures AlwaysRestored(db) <==> SafeQueue(db.rows)
  {
    hide Retried, CutOff, ContractionProgram, ContractionRefused;
    if SafeQueue(db.rows) {
      forall cuts: seq<(nat, bool)>, again: bool | !ContractionRefused(Retried(db, cuts, true), again, true)
        ensures Live(db.rows) in Run(Retried(db, cuts, true), ContractionProgram(Retried(db, cuts, true), again, true)).schemas
      {
        RetriedFine(db, cuts);
        EndsWithLiveOnly(Retried(db, cuts, true), again);
      }
    } else {
      var k := LosingCut(db, force);
      var cuts := [(k, force)];
      RetriedOnce(db, k, force);
      var hit := Retried(db, cuts, true);
      NeverRefused(hit, true, true);
      LostForGood(db, hit, true);
    }
  }

  lemma RetriedOnce(db: DB, k: nat, force: bool)
    ensures Retried(db, [(k, force)], true) == CutOff(db, k, force, true)
  {
    var cuts := [(k, force)];
    assert cuts[1..] == [];
    assert forall d :: Retried(d, [], true) == d;
  }

  lemma LosingCut(db: DB, force: bool) returns (k: nat)
    requires Ready(db) && AllDone(db.rows) && db.rows != [] && !SafeQueue(db.rows) && !ContractionRefused(db, force, true)
    ensures Lost(db, CutOff(db, k, force, true))
  {
    var sealed := Apply(db, Seal);
    StampUnsafe(db);
    ContractionShape(db, force, true);
    hide *;
    var m := DrainedButLast(sealed);
    k := m + 1;
    CutOffShape(db, k, force);
    SameLost(db, sealed, CutOff(db, k, force, true));
  }

  lemma StampUnsafe(db: DB)
    requires Ready(db) && AllDone(db.rows) && db.rows != [] && !SafeQueue(db.rows)
    ensures var sealed := Apply(db, Seal);
            && AllDone(db.rows) && Ready(sealed) && AllSealed(sealed.rows) && sealed.rows != [] && Live(sealed.rows) == Live(db.rows)
            && NeedsLiveDrop(sealed.rows) && !LastNeedsLiveDrop(sealed.rows)
  {
    hide NeedsLiveDrop, LastNeedsLiveDrop, QueueNames, QueueIds, Live;
    SealKeeps(db.rows);
    FlagsDecide(db.rows, Sealed(db.rows));
    FlagsDecide(Sealed(db.rows), db.rows);
  }

  lemma SameLost(a: DB, b: DB, hit: DB)
    requires a.rows != [] && b.rows != [] && Live(a.rows) == Live(b.rows) && Lost(b, hit)
    ensures Lost(a, hit)
  {
  }

  /** With no `onComplete` raw SQL queued the live schema is there in every state in between, too. */
  lemma LiveSchemaNeverMissing(db: DB, cuts: seq<(nat, bool)>)
    requires Linear(db.rows) && AllDone(db.rows) && db.rows != [] && Live(db.rows) in db.schemas && !NeedsLiveDrop(db.rows)
    ensures Live(db.rows) in Retried(db, cuts, true).schemas
  {
    RetriedFine(db, cuts);
  }
}
