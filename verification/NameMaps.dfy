/** Repeated action ids in general: what a drain does to names decides whether it does what was meant. */
module NameMaps {
  import opened History
  import opened RepeatedIds
  import opened Replay
  import C = Coordinator

  /**
   * Every relation and column known by the name it starts with. What operations make of this is the map from each
   * name at the end to the one it had at first.
   */
  function Named(db: Relations): (named: Relations)
    ensures named.Keys == db.Keys
  {
    map t | t in db :: Relation(t, map c | c in db[t].columns :: c)
  }

  // ----- Exchanging identities -----

  /** Other identities, a column's depending on its relation's too. */
  datatype Exchange = Exchange(relation: Identity -> Identity, column: (Identity, Identity) -> Identity)

  function Moved(r: Relation, e: Exchange): Relation
  {
    Relation(e.relation(r.oid), map c | c in r.columns :: e.column(r.oid, r.columns[c]))
  }

  function MovedAll(db: Relations, e: Exchange): (moved: Relations)
    ensures moved.Keys == db.Keys
  {
    map t | t in db :: Moved(db[t], e)
  }

  function MovedResult(r: Option<Relations>, e: Exchange): Option<Relations>
  {
    match r
    case None => None
    case Some(db) => Some(MovedAll(db, e))
  }

  /** No operation looks at an identity. */
  lemma MeaningMoves(db: Relations, op: Op, e: Exchange)
    ensures Meaning(MovedAll(db, e), op) == MovedResult(Meaning(db, op), e)
  {
    ExecMoves(db, Direct(op), e);
    assert forall t :: t in MovedAll(db, e) <==> t in db;
    assert forall t | t in db :: MovedAll(db, e)[t].columns.Keys == db[t].columns.Keys;
    if Meaning(db, op).Some? {
      ExecDirect(db, op);
      ExecDirect(MovedAll(db, e), op);
    }
    hide Exec, MovedAll;
  }

  lemma RenamedMoves(db: Relations, from: string, to: string, e: Exchange)
    requires from in db
    ensures MovedAll(db[to := db[from]] - {from}, e) == MovedAll(db, e)[to := MovedAll(db, e)[from]] - {from}
  {
  }

  lemma UpdatedMoves(db: Relations, t: string, r: Relation, e: Exchange)
    requires t in db
    ensures MovedAll(db[t := r], e) == MovedAll(db, e)[t := Moved(r, e)]
  {
  }

  lemma ColumnsMove(r: Relation, from: string, to: string, e: Exchange)
    ensures Moved(r, e).columns.Keys == r.columns.Keys
    ensures Moved(r.(columns := r.columns - {from}), e) == Moved(r, e).(columns := Moved(r, e).columns - {from})
    ensures from in r.columns ==> Moved(r.(columns := r.columns[to := r.columns[from]] - {from}), e) ==
                                  Moved(r, e).(columns := Moved(r, e).columns[to := Moved(r, e).columns[from]] - {from})
  {
  }

  lemma ExecMoves(db: Relations, d: DDL, e: Exchange)
    ensures Exec(MovedAll(db, e), d) == MovedResult(Exec(db, d), e)
  {
    assert forall t | t in db :: MovedAll(db, e)[t] == Moved(db[t], e);
    hide MovedAll, Moved;
    match d
    case RenameRelation(from, to) =>
      if from in db {
        RenamedMoves(db, from, to, e);
      }
    case RenameAttribute(t, from, to) =>
      if t in db {
        ColumnsMove(db[t], from, to, e);
        if from in db[t].columns {
          UpdatedMoves(db, t, db[t].(columns := db[t].columns[to := db[t].columns[from]] - {from}), e);
        }
      }
    case DropAttribute(t, c) =>
      if t in db {
        ColumnsMove(db[t], c, c, e);
        UpdatedMoves(db, t, db[t].(columns := db[t].columns - {c}), e);
      }
  }

  lemma {:induction false} MeaningsMove(db: Relations, ops: seq<Op>, e: Exchange)
    ensures Meanings(MovedAll(db, e), ops) == MovedResult(Meanings(db, ops), e)
    decreases |ops|
  {
    hide Meaning, MovedAll;
    if ops != [] {
      MeaningMoves(db, ops[0], e);
      if Meaning(db, ops[0]).Some? {
        MeaningsMove(Meaning(db, ops[0]).value, ops[1..], e);
      }
    }
  }

  lemma {:induction false} ExecAllMoves(db: Relations, actions: seq<C.Action<DDL>>, e: Exchange)
    ensures ExecAll(MovedAll(db, e), actions) == MovedResult(ExecAll(db, actions), e)
    decreases |actions|
  {
    hide Exec, MovedAll;
    if actions != [] {
      ExecMoves(db, actions[0].body, e);
      if Exec(db, actions[0].body).Some? {
        ExecAllMoves(Exec(db, actions[0].body).value, actions[1..], e);
      }
    }
  }

  lemma DrainMoves(db: Relations, ops: seq<Op>, e: Exchange)
    ensures Drain(MovedAll(db, e), ops) == MovedResult(Drain(db, ops), e)
  {
    assert ReadNames(MovedAll(db, e)) == ReadNames(db);
    hide ReadNames, MovedAll, ExecAll, Completes;
    match Completes(ReadNames(db), ops)
    case None =>
    case Some(actions) =>
      C.BuiltCoordinates(actions);
      ExecAllMoves(db, C.Effective(C.Built(actions)), e);
  }

  // ----- From names back to identities -----

  /** The identities are those a database has under these names. */
  function FromNames(db: Relations): Exchange
  {
    Exchange(n => if n in db then db[n].oid else n,
             (n, c) => if n in db && c in db[n].columns then db[n].columns[c] else c)
  }

  lemma NamesAndBack(db: Relations)
    ensures MovedAll(Named(db), FromNames(db)) == db
  {
    forall t | t in db ensures Moved(Named(db)[t], FromNames(db)) == db[t] {
      assert Named(db)[t] == Relation(t, map c | c in db[t].columns :: c);
    }
  }

  /** Different relations, and different columns of one, have different identities. */
  ghost predicate DistinctIdentities(db: Relations)
  {
    && (forall t, u :: t in db && u in db && db[t].oid == db[u].oid ==> t == u)
    && forall t, c, d :: t in db && c in db[t].columns && d in db[t].columns && db[t].columns[c] == db[t].columns[d] ==> c == d
  }

  /** Known by names of `db` only. */
  ghost predicate KnownBy(v: Relations, db: Relations)
  {
    forall t | t in v :: v[t].oid in db && forall c | c in v[t].columns :: v[t].columns[c] in db[v[t].oid].columns
  }

  lemma NamedKnown(db: Relations)
    ensures KnownBy(Named(db), db)
  {
  }

  lemma ExecKnown(v: Relations, d: DDL, db: Relations)
    requires KnownBy(v, db) && Exec(v, d).Some?
    ensures KnownBy(Exec(v, d).value, db)
  {
  }

  lemma {:induction false} ExecAllKnown(v: Relations, actions: seq<C.Action<DDL>>, db: Relations)
    requires KnownBy(v, db) && ExecAll(v, actions).Some?
    ensures KnownBy(ExecAll(v, actions).value, db)
    decreases |actions|
  {
    hide Exec, KnownBy;
    if actions != [] {
      ExecKnown(v, actions[0].body, db);
      ExecAllKnown(Exec(v, actions[0].body).value, actions[1..], db);
    }
  }

  lemma {:induction false} MeaningsKnown(v: Relations, ops: seq<Op>, db: Relations)
    requires KnownBy(v, db) && Meanings(v, ops).Some?
    ensures KnownBy(Meanings(v, ops).value, db)
    decreases |ops|
  {
    hide Exec, KnownBy, Meaning;
    if ops != [] {
      ExecDirect(v, ops[0]);
      ExecKnown(v, Direct(ops[0]), db);
      MeaningsKnown(Meaning(v, ops[0]).value, ops[1..], db);
    }
  }

  lemma DrainKnown(v: Relations, ops: seq<Op>, db: Relations)
    requires KnownBy(v, db) && Drain(v, ops).Some?
    ensures KnownBy(Drain(v, ops).value, db)
  {
    hide ExecAll, KnownBy, Completes;
    match Completes(ReadNames(v), ops)
    case None =>
    case Some(actions) =>
      C.BuiltCoordinates(actions);
      ExecAllKnown(v, C.Effective(C.Built(actions)), db);
  }

  /** Where identities are distinct, nothing is lost by exchanging names for them. */
  lemma FromNamesInjective(db: Relations, a: Relations, b: Relations)
    requires DistinctIdentities(db) && KnownBy(a, db) && KnownBy(b, db) && MovedAll(a, FromNames(db)) == MovedAll(b, FromNames(db))
    ensures a == b
  {
    assert a.Keys == b.Keys;
    forall t | t in a ensures a[t] == b[t] {
      assert MovedAll(a, FromNames(db))[t] == MovedAll(b, FromNames(db))[t];
      RelationInjective(db, a[t], b[t]);
    }
  }

  lemma RelationInjective(db: Relations, a: Relation, b: Relation)
    requires DistinctIdentities(db) && Moved(a, FromNames(db)) == Moved(b, FromNames(db))
    requires a.oid in db && forall c | c in a.columns :: a.columns[c] in db[a.oid].columns
    requires b.oid in db && forall c | c in b.columns :: b.columns[c] in db[b.oid].columns
    ensures a == b
  {
    assert a.oid == b.oid;
    assert Moved(a, FromNames(db)).columns.Keys == a.columns.Keys && Moved(b, FromNames(db)).columns.Keys == b.columns.Keys;
    forall c | c in a.columns ensures a.columns[c] == b.columns[c] {
      assert Moved(a, FromNames(db)).columns[c] == Moved(b, FromNames(db)).columns[c];
    }
    assert a.columns == b.columns;
  }

  // ----- The name maps decide -----

  /** A state known by names of `db`, and the one with `db`'s identities. */
  lemma AgreeByName(db: Relations, v: Relations, ops: seq<Op>)
    requires DistinctIdentities(db) && KnownBy(v, db)
    ensures var e := FromNames(db);
            Drain(MovedAll(v, e), ops) == Meanings(MovedAll(v, e), ops) <==> Drain(v, ops) == Meanings(v, ops)
  {
    hide *;
    var e := FromNames(db);
    DrainMoves(v, ops, e);
    MeaningsMove(v, ops, e);
    if Drain(v, ops).Some? {
      DrainKnown(v, ops, db);
    }
    if Meanings(v, ops).Some? {
      MeaningsKnown(v, ops, db);
    }
    ResultInjective(db, Drain(v, ops), Meanings(v, ops));
  }

  lemma ResultInjective(db: Relations, a: Option<Relations>, b: Option<Relations>)
    requires DistinctIdentities(db) && (a.Some? ==> KnownBy(a.value, db)) && (b.Some? ==> KnownBy(b.value, db))
    ensures MovedResult(a, FromNames(db)) == MovedResult(b, FromNames(db)) <==> a == b
  {
    hide DistinctIdentities, KnownBy, MovedAll, FromNames;
    if a.Some? && b.Some? && MovedAll(a.value, FromNames(db)) == MovedAll(b.value, FromNames(db)) {
      FromNamesInjective(db, a.value, b.value);
    }
  }

  /** What actions make of names: from each name at the end, the one it had at first. */
  function NameMap(db: Relations, actions: seq<C.Action<DDL>>): Option<Relations>
  {
    ExecAll(Named(db), actions)
  }

  /** The actions a coordinator runs: each id once, at its last position, with the first action added for it. */
  ghost function RunOnce(ops: seq<Op>): seq<C.Action<DDL>>
  {
    C.BuiltCoordinates(DirectActions(ops));
    C.Effective(C.Built(DirectActions(ops)))
  }

  /**
   * Whatever ids a migration repeats: draining it does what it means exactly when running each id once composes to the
   * same map of names as running every action in the order given.
   */
  lemma DrainMeansIffNamesAgree(db: Relations, ops: seq<Op>)
    requires DistinctIdentities(db) && Meanings(db, ops).Some?
    ensures Drain(db, ops) == Meanings(db, ops) <==> NameMap(db, RunOnce(ops)) == NameMap(db, DirectActions(ops))
  {
    hide *;
    NamesAndBack(db);
    NamedKnown(db);
    AgreeByName(db, Named(db), ops);
    MeaningsNamed(db, ops);
    NameMapsRun(db, ops);
  }

  lemma MeaningsNamed(db: Relations, ops: seq<Op>)
    requires Meanings(db, ops).Some?
    ensures Meanings(Named(db), ops).Some?
  {
    NamesAndBack(db);
    MeaningsMove(Named(db), ops, FromNames(db));
    hide Meanings, Named, MovedAll, FromNames;
  }

  lemma NameMapsRun(db: Relations, ops: seq<Op>)
    requires Meanings(Named(db), ops).Some?
    ensures NameMap(db, RunOnce(ops)) == Drain(Named(db), ops) && NameMap(db, DirectActions(ops)) == Meanings(Named(db), ops)
  {
    DrainRuns(Named(db), ops);
    ExecAllDirect(Named(db), ops);
    hide Drain, Meanings, ExecAll, Named, DirectActions;
  }

  lemma {:induction false} QueueAgrees(db: Relations, v: Relations, queue: seq<seq<Op>>)
    requires DistinctIdentities(db) && KnownBy(v, db)
    ensures DrainsAsMeant(MovedAll(v, FromNames(db)), queue) <==> DrainsAsMeant(v, queue)
    decreases |queue|
  {
    hide Drain, Meanings, DistinctIdentities, KnownBy, MovedAll, FromNames;
    if queue != [] {
      AgreeByName(db, v, queue[0]);
      MeaningsMove(v, queue[0], FromNames(db));
      if Meanings(v, queue[0]).Some? {
        MeaningsKnown(v, queue[0], db);
        QueueAgrees(db, Meanings(v, queue[0]).value, queue[1..]);
      }
    }
  }

  /** The same for a whole queue: its names decide whether contraction keeps what the views expose. */
  lemma QueueDrainsIffNamesAgree(db: Relations, queue: seq<seq<Op>>)
    requires DistinctIdentities(db)
    ensures DrainsAsMeant(db, queue) <==> DrainsAsMeant(Named(db), queue)
  {
    hide *;
    NamesAndBack(db);
    NamedKnown(db);
    QueueAgrees(db, Named(db), queue);
  }
}
