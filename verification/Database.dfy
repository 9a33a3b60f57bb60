/**
 * The database as the engine changes it: one SQL statement is one atomic step, and a crash may follow
 * any of them.
 */
module Database {
  import opened History
  import Rebaseline

  /**
   * The history rows, the version schemas in listing order, and the rows (by `created_at`) whose
   * Complete has run to the end, in the order it did. Complete actions are idempotent.
   */
  datatype DB = DB(rows: seq<Row>, schemas: seq<string>, completed: seq<int>)

  datatype Stmt =
    | Insert(row: Row)
    | CreateSchema(name: string)
    | DropSchema(name: string)
    | SetDone(name: string)
    | SetDeferred(name: string)
    | UnsetDeferred(name: string)
    | Seal
    | BeginComplete(name: string)
    | EndComplete(name: string)
    | DeleteRow(name: string)
    | PruneRows(names: set<string>)
    | ToBaseline(name: string)
    | OtherDDL

  function Without(schemas: seq<string>, name: string): (r: seq<string>)
    ensures forall s :: s in r <==> s in schemas && s != name
  {
    if schemas == [] then [] else
      assert schemas == [schemas[0]] + schemas[1..];
      (if schemas[0] == name then [] else [schemas[0]]) + Without(schemas[1..], name)
  }

  /** The identities of the rows of a given name. */
  function IdsNamed(rows: seq<Row>, name: string): (r: seq<int>)
    ensures forall i :: 0 <= i < |rows| && rows[i].name == name ==> rows[i].createdAt in r
    ensures forall x :: x in r ==> exists i :: 0 <= i < |rows| && rows[i].name == name && rows[i].createdAt == x
  {
    if rows == [] then [] else
      (if rows[0].name == name then [rows[0].createdAt] else []) + IdsNamed(rows[1..], name)
  }

  /** Running a Complete that already ran to the end leaves no second effect. */
  function Once(completed: seq<int>, ids: seq<int>): seq<int>
    decreases |ids|
  {
    if ids == [] then completed else
      Once(if ids[0] in completed then completed else completed + [ids[0]], ids[1..])
  }

  function Apply(db: DB, s: Stmt): DB
  {
    match s
    case Insert(row) => db.(rows := db.rows + [row])
    case CreateSchema(name) => if name in db.schemas then db else db.(schemas := db.schemas + [name])
    case DropSchema(name) => db.(schemas := Without(db.schemas, name))
    case SetDone(name) => db.(rows := Updated(db.rows, name, MarkDone))
    case SetDeferred(name) => db.(rows := Updated(db.rows, name, MarkDeferred))
    case UnsetDeferred(name) => db.(rows := Updated(db.rows, name, ClearDeferred))
    case Seal => db.(rows := Sealed(db.rows))
    case BeginComplete(name) => db.(rows := Updated(db.rows, name, Begin))
    case EndComplete(name) => db.(completed := Once(db.completed, IdsNamed(db.rows, name)))
    case DeleteRow(name) =>
      if ParentAt(db.rows, |db.rows|) == Some(name) then db.(rows := db.rows[..|db.rows| - 1]) else db
    case PruneRows(names) => db.(rows := Pruned(db.rows, names))
    case ToBaseline(name) => db.(rows := Rebaseline.Converted(db.rows, name))
    case OtherDDL => db
  }

  function Run(db: DB, ss: seq<Stmt>): DB
    decreases |ss|
  {
    if ss == [] then db else Run(Apply(db, ss[0]), ss[1..])
  }

  lemma {:induction false} RunConcat(db: DB, a: seq<Stmt>, b: seq<Stmt>)
    ensures Run(db, a + b) == Run(Run(db, a), b)
    decreases |a|
  {
    if a == [] {
      assert a + b == b;
    } else {
      assert (a + b)[0] == a[0] && (a + b)[1..] == a[1..] + b;
      RunConcat(Apply(db, a[0]), a[1..], b);
    }
  }

  lemma RunTwo(db: DB, a: Stmt, b: Stmt)
    ensures Run(db, [a, b]) == Apply(Apply(db, a), b)
  {
    assert [a, b][1..] == [b] && [b][1..] == [];
    assert Run(Apply(db, a), [b]) == Run(Apply(Apply(db, a), b), []);
  }

  lemma RunOne(db: DB, s: Stmt)
    ensures Run(db, [s]) == Apply(db, s)
  {
    assert [s][1..] == [];
    assert Run(Apply(db, s), []) == Apply(db, s);
  }

  lemma RunAppend(db: DB, ss: seq<Stmt>, s: Stmt)
    ensures Run(db, ss + [s]) == Apply(Run(db, ss), s)
  {
    RunConcat(db, ss, [s]);
    RunOne(Run(db, ss), s);
  }
}
