/** Schema operations over plain columns: what Start does to the in-memory schema. */
module Operations {
  import opened History
  import opened SchemaTables

  datatype Column = Column(typ: string, nullable: bool, default: Option<string>, unique: bool, comment: string, identity: string)

  datatype Table = Table(columns: map<string, Entry<Column>>)
  {
    predicate Has(c: string)
    {
      c in columns && !columns[c].deleted
    }
  }

  type TableSchema = Tables<Table>

  /** A column as an operation declares it. */
  datatype ColumnDef = ColumnDef(name: string, typ: string, nullable: bool, default: Option<string>, unique: bool, comment: Option<string>)

  /** A field an alter may leave out, set to null, or set. */
  datatype Field = Unspecified | Null | To(value: string)

  datatype Op =
    | RenameTable(from: string, to: string)
    | RenameColumn(table: string, from: string, to: string)
    | CreateTable(name: string, columns: seq<ColumnDef>)
    | DropTable(name: string)
    | AddColumn(table: string, def: ColumnDef, up: string)
    | DropColumn(table: string, column: string, down: string)
    | AlterColumn(table: string, column: string, typ: Option<string>, nullable: Option<bool>, default: Field, comment: Field,
                  up: string, down: string)
    | RawSQL(up: string, down: string, onComplete: bool)

  function ToColumn(d: ColumnDef): Column
  {
    Column(d.typ, d.nullable, d.default, d.unique, if d.comment.Some? then d.comment.value else "", "")
  }

  /** The columns of a created table; a repeated name keeps its last definition. */
  function Declared(defs: seq<ColumnDef>): (r: map<string, Column>)
    ensures forall n :: n in r <==> exists i :: 0 <= i < |defs| && defs[i].name == n
  {
    if defs == [] then map[] else map[defs[0].name := ToColumn(defs[0])] + Declared(defs[1..])
  }

  function Undeleted(columns: map<string, Column>): map<string, Entry<Column>>
  {
    map c | c in columns :: Entry(columns[c], false)
  }

  /** A type that really changes takes the default with it; then an explicit default is set. */
  function Altered(c: Column, typ: Option<string>, default: Field): Column
  {
    var kept := if typ.Some? && typ.value != c.typ then None else c.default;
    c.(typ := if typ.Some? then typ.value else c.typ,
       default := match default case Unspecified => kept case Null => None case To(v) => Some(v))
  }

  function Update(s: TableSchema, t: string, columns: map<string, Entry<Column>>): TableSchema
    requires t in s.tables
  {
    Tables(s.tables[t := s.tables[t].(value := Table(columns))], s.shadowed)
  }

  /** The operations that work on one column of one table. */
  predicate OnColumn(op: Op)
  {
    op.RenameColumn? || op.AddColumn? || op.DropColumn? || op.AlterColumn?
  }

  /** What such an operation does to its table's columns; none when the column is not there. */
  function StartColumn(cs: map<string, Entry<Column>>, op: Op): Option<map<string, Entry<Column>>>
    requires OnColumn(op)
  {
    match op
    case RenameColumn(_, from, to) => if Table(cs).Has(from) then Some(cs[to := cs[from]] - {from}) else None
    case AddColumn(_, d, _) => Some(cs[d.name := Entry(ToColumn(d), false)])
    case DropColumn(_, c, _) => if Table(cs).Has(c) then Some(cs[c := cs[c].(deleted := true)]) else None
    case AlterColumn(_, c, typ, _, default, _, _, _) =>
      if Table(cs).Has(c) then Some(cs[c := Entry(Altered(cs[c].value, typ, default), false)]) else None
  }

  /** Start's effect on the in-memory schema; none when it fails. Raw SQL leaves the schema as it is. */
  function Start(s: TableSchema, op: Op): Option<TableSchema>
  {
    match op
    case RenameTable(from, to) => if s.Has(from) && !s.Has(to) then Some(s.Rename(from, to)) else None
    case CreateTable(n, defs) => Some(s.Add(n, Table(Undeleted(Declared(defs)))))
    case DropTable(n) => if s.Has(n) then Some(s.Remove(n)) else None
    case RawSQL(_, _, _) => Some(s)
    case _ =>
      if !s.Has(op.table) then None else
        match StartColumn(s.tables[op.table].value.columns, op)
        case None => None
        case Some(cs) => Some(Update(s, op.table, cs))
  }

  function Starts(s: TableSchema, ops: seq<Op>): Option<TableSchema>
    decreases |ops|
  {
    if ops == [] then Some(s) else
      match Start(s, ops[0])
      case None => None
      case Some(next) => Starts(next, ops[1..])
  }

  // ----- What is live: tables and columns that are not soft-deleted -----

  type Live = map<string, map<string, Column>>

  function LiveColumns(t: Table): map<string, Column>
  {
    map c | c in t.columns && t.Has(c) :: t.columns[c].value
  }

  function LiveOf(s: TableSchema): Live
  {
    map n | n in s.tables && s.Has(n) :: LiveColumns(s.tables[n].value)
  }

  /** The effect of a column operation on the live columns of its table. */
  function ColumnEffect(l: map<string, Column>, op: Op): Option<map<string, Column>>
    requires OnColumn(op)
  {
    match op
    case RenameColumn(_, from, to) => if from in l then Some(l[to := l[from]] - {from}) else None
    case AddColumn(_, d, _) => Some(l[d.name := ToColumn(d)])
    case DropColumn(_, c, _) => if c in l then Some(l - {c}) else None
    case AlterColumn(_, c, typ, _, default, _, _, _) => if c in l then Some(l[c := Altered(l[c], typ, default)]) else None
  }

  /** The effect of an operation on what is live. */
  function Effect(l: Live, op: Op): Option<Live>
  {
    match op
    case RenameTable(from, to) => if from in l && to !in l then Some(l[to := l[from]] - {from}) else None
    case CreateTable(n, defs) => Some(l[n := Declared(defs)])
    case DropTable(n) => if n in l then Some(l - {n}) else None
    case RawSQL(_, _, _) => Some(l)
    case _ =>
      if op.table !in l then None else
        match ColumnEffect(l[op.table], op)
        case None => None
        case Some(cs) => Some(l[op.table := cs])
  }

  function Effects(l: Live, ops: seq<Op>): Option<Live>
    decreases |ops|
  {
    if ops == [] then Some(l) else
      match Effect(l, ops[0])
      case None => None
      case Some(next) => Effects(next, ops[1..])
  }

  lemma {:induction false} EffectsConcat(l: Live, a: seq<Op>, b: seq<Op>)
    ensures Effects(l, a + b) == if Effects(l, a).Some? then Effects(Effects(l, a).value, b) else None
    decreases |a|
  {
    if a == [] {
      assert a + b == b;
    } else {
      assert (a + b)[0] == a[0] && (a + b)[1..] == a[1..] + b;
      if Effect(l, a[0]).Some? {
        EffectsConcat(Effect(l, a[0]).value, a[1..], b);
      }
    }
  }

  // ----- Start follows the effect on what is live -----

  lemma RenameLiveOf(s: TableSchema, from: string, to: string)
    requires s.Valid() && s.Has(from) && !s.Has(to)
    ensures LiveOf(s.Rename(from, to)) == LiveOf(s)[to := LiveOf(s)[from]] - {from}
  {
    RenameLive(s, from, to);
    hide Tables.Rename, LiveColumns, Tables.Valid;
  }

  lemma UpdateLive(s: TableSchema, t: string, columns: map<string, Entry<Column>>)
    requires s.Valid() && s.Has(t)
    ensures Update(s, t, columns).Valid() && LiveOf(Update(s, t, columns)) == LiveOf(s)[t := LiveColumns(Table(columns))]
  {
    assert forall n :: Update(s, t, columns).Stack(n) == s.Stack(n);
    hide LiveColumns;
  }

  lemma AddLive(s: TableSchema, n: string, t: Table)
    requires s.Valid()
    ensures s.Add(n, t).Valid() && LiveOf(s.Add(n, t)) == LiveOf(s)[n := LiveColumns(t)]
  {
    assert forall m :: s.Add(n, t).Stack(m) == s.Stack(m);
    hide LiveColumns;
  }

  lemma RemoveLive(s: TableSchema, n: string)
    requires s.Valid()
    ensures s.Remove(n).Valid() && LiveOf(s.Remove(n)) == LiveOf(s) - {n}
  {
    assert forall m :: s.Remove(n).Stack(m) == s.Stack(m);
    hide LiveColumns;
  }

  lemma LiveNames(s: TableSchema)
    requires s.Valid()
    ensures forall n :: n in LiveOf(s) <==> s.Has(n)
  {
    hide LiveColumns, Tables.Valid;
  }

  lemma DeclaredLive(columns: map<string, Column>)
    ensures LiveColumns(Table(Undeleted(columns))) == columns
  {
  }

  lemma StartLive(s: TableSchema, op: Op)
    requires s.Valid()
    ensures Start(s, op).Some? <==> Effect(LiveOf(s), op).Some?
    ensures Start(s, op).Some? ==> Start(s, op).value.Valid() && Some(LiveOf(Start(s, op).value)) == Effect(LiveOf(s), op)
  {
    LiveNames(s);
    hide Tables.Valid, Tables.Rename, Tables.Remove, Tables.Add, LiveOf, LiveColumns, Undeleted, Declared, ColumnEffect, StartColumn;
    match op
    case RenameTable(from, to) =>
      if s.Has(from) && !s.Has(to) {
        RenameLiveOf(s, from, to);
        RenameValid(s, from, to);
      }
    case CreateTable(n, defs) =>
      AddLive(s, n, Table(Undeleted(Declared(defs))));
      DeclaredLive(Declared(defs));
    case DropTable(n) => RemoveLive(s, n);
    case RawSQL(_, _, _) =>
    case _ => ColumnLive(s, op);
  }

  lemma ColumnsLive(cs: map<string, Entry<Column>>, op: Op)
    requires OnColumn(op)
    ensures StartColumn(cs, op).Some? <==> ColumnEffect(LiveColumns(Table(cs)), op).Some?
    ensures StartColumn(cs, op).Some? ==> Some(LiveColumns(Table(StartColumn(cs, op).value))) == ColumnEffect(LiveColumns(Table(cs)), op)
  {
    var was := LiveColumns(Table(cs));
    if StartColumn(cs, op).Some? {
      var now := LiveColumns(Table(StartColumn(cs, op).value));
      match op
      case RenameColumn(_, from, to) => assert now == was[to := was[from]] - {from};
      case AddColumn(_, d, _) => assert now == was[d.name := ToColumn(d)];
      case DropColumn(_, c, _) => assert now == was - {c};
      case AlterColumn(_, c, typ, _, default, _, _, _) => assert now == was[c := Altered(was[c], typ, default)];
    }
  }

  lemma ColumnLive(s: TableSchema, op: Op)
    requires s.Valid() && OnColumn(op)
    ensures Start(s, op).Some? <==> Effect(LiveOf(s), op).Some?
    ensures Start(s, op).Some? ==> Start(s, op).value.Valid() && Some(LiveOf(Start(s, op).value)) == Effect(LiveOf(s), op)
  {
    if s.Has(op.table) {
      var t := s.tables[op.table].value;
      assert Table(t.columns) == t;
      ColumnsLive(t.columns, op);
      hide StartColumn, ColumnEffect, LiveColumns;
      var cs := StartColumn(t.columns, op);
      if cs.Some? {
        UpdateLive(s, op.table, cs.value);
      }
    }
  }

  lemma {:induction false} StartsLive(s: TableSchema, ops: seq<Op>)
    requires s.Valid()
    ensures Starts(s, ops).Some? <==> Effects(LiveOf(s), ops).Some?
    ensures Starts(s, ops).Some? ==> Starts(s, ops).value.Valid() && Some(LiveOf(Starts(s, ops).value)) == Effects(LiveOf(s), ops)
    decreases |ops|
  {
    if ops != [] {
      StartLive(s, ops[0]);
      hide Start, Effect, LiveOf, Tables.Valid;
      if Start(s, ops[0]).Some? {
        StartsLive(Start(s, ops[0]).value, ops[1..]);
      }
    }
  }
}
