/** Synthesizing inverse migrations for a segment of history. */
module Invert {
  import opened History
  import opened NameOrder
  import opened Operations

  // ----- Column definitions recovered from a pre-state -----

  predicate Contains(s: string, sub: string)
  {
    sub <= s || (s != "" && Contains(s[1..], sub))
  }

  /** The serial pseudo-type of an integer column whose default draws from the sequence it owns. */
  function SerialType(c: Column, table: string, column: string): Option<string>
  {
    if c.default.None? || !Contains(c.default.value, "nextval(") || !Contains(c.default.value, table + "_" + column + "_seq") then None
    else if c.typ in {"integer", "int4", "int"} then Some("serial")
    else if c.typ in {"bigint", "int8"} then Some("bigserial")
    else if c.typ in {"smallint", "int2"} then Some("smallserial")
    else None
  }

  function Recovered(c: Column, table: string, column: string): ColumnDef
  {
    var serial := SerialType(c, table, column);
    ColumnDef(column, if serial.Some? then serial.value else c.typ, c.nullable, if serial.Some? then None else c.default,
              c.unique, if c.comment == "" then None else Some(c.comment))
  }

  /** Neither identity nor drawn from a sequence. */
  predicate Plain(c: Column)
  {
    c.identity == "" && (c.default.Some? ==> !Contains(c.default.value, "nextval("))
  }

  /** A plain column comes back as it was. */
  lemma RecoveredIs(c: Column, table: string, column: string)
    requires Plain(c)
    ensures ToColumn(Recovered(c, table, column)) == c && Recovered(c, table, column).name == column
  {
  }

  /** Below every one of some names, and one of them. */
  predicate IsLeast(names: set<string>, k: string)
  {
    k in names && forall x | x in names :: Leq(k, x)
  }

  lemma LeastName(names: set<string>) returns (k: string)
    requires names != {}
    ensures IsLeast(names, k)
  {
    k :| k in names;
    Total(k, k);
    var rest := names - {k};
    if rest != {} {
      var m := LeastName(rest);
      Total(k, m);
      if !Leq(k, m) {
        k := m;
      } else {
        forall x | x in names ensures Leq(k, x) {
          if x != k {
            Transitive(k, m, x);
          }
        }
      }
    } else {
      assert names == rest + {k};
    }
  }

  lemma LeastIsUnique(names: set<string>, a: string, b: string)
    requires IsLeast(names, a) && IsLeast(names, b)
    ensures a == b
  {
    Antisymmetric(a, b);
  }

  function Least(names: set<string>): (k: string)
    requires names != {}
    ensures IsLeast(names, k)
  {
    assert exists k :: IsLeast(names, k) by {
      var k := LeastName(names);
    }
    assert forall a, b :: IsLeast(names, a) && IsLeast(names, b) ==> a == b by {
      forall a, b | IsLeast(names, a) && IsLeast(names, b) ensures a == b {
        LeastIsUnique(names, a, b);
      }
    }
    var k :| IsLeast(names, k);
    k
  }

  /** Names in ascending order. */
  function SortedNames(names: set<string>): (r: seq<string>)
    ensures forall n :: n in r <==> n in names
    ensures forall i, j :: 0 <= i < j < |r| ==> Leq(r[i], r[j]) && r[i] != r[j]
  {
    if names == {} then [] else
      var k := Least(names);
      assert names == {k} + (names - {k});
      [k] + SortedNames(names - {k})
  }

  function RecoveredAll(columns: map<string, Column>, table: string, names: seq<string>): (r: seq<ColumnDef>)
    requires forall n | n in names :: n in columns
    ensures |r| == |names|
  {
    if names == [] then [] else [Recovered(columns[names[0]], table, names[0])] + RecoveredAll(columns, table, names[1..])
  }

  /** The declared columns are those of the map, by name. */
  ghost predicate Restores(declared: map<string, Column>, columns: map<string, Column>, names: seq<string>)
  {
    && (forall n | n in names :: n in columns)
    && (forall n :: n in declared <==> n in names)
    && (forall n :: n in names ==> declared[n] == columns[n])
  }

  lemma {:induction false} DeclaredRecovered(columns: map<string, Column>, table: string, names: seq<string>)
    requires forall n | n in names :: n in columns && Plain(columns[n])
    ensures Restores(Declared(RecoveredAll(columns, table, names)), columns, names)
  {
    if names != [] {
      hide *;
      RecoveredIs(columns[names[0]], table, names[0]);
      DeclaredRecovered(columns, table, names[1..]);
      DeclaredFirst(columns, table, names);
      AddRestores(Declared(RecoveredAll(columns, table, names[1..])), columns, names);
    }
  }

  lemma AddRestores(rest: map<string, Column>, columns: map<string, Column>, names: seq<string>)
    requires names != [] && names[0] in columns && Restores(rest, columns, names[1..])
    ensures Restores(map[names[0] := columns[names[0]]] + rest, columns, names)
  {
    assert names == [names[0]] + names[1..];
  }

  lemma DeclaredFirst(columns: map<string, Column>, table: string, names: seq<string>)
    requires names != [] && forall n | n in names :: n in columns
    ensures forall n | n in names[1..] :: n in columns
    ensures var d := Recovered(columns[names[0]], table, names[0]);
            Declared(RecoveredAll(columns, table, names)) == map[d.name := ToColumn(d)] + Declared(RecoveredAll(columns, table, names[1..]))
  {
    var defs := RecoveredAll(columns, table, names);
    assert defs[1..] == RecoveredAll(columns, table, names[1..]);
  }

  // ----- The inverse of one operation -----

  function Prior(specified: bool, value: Option<string>): Field
  {
    if !specified then Unspecified else if value.None? then Null else To(value.value)
  }

  function Nonempty(s: string): Option<string>
  {
    if s == "" then None else Some(s)
  }

  /** The inverse operations in application order, from the live pre-state; none when it is refused. */
  function InvertOp(op: Op, pre: Live): Option<seq<Op>>
  {
    match op
    case RenameTable(from, to) => Some([RenameTable(to, from)])
    case RenameColumn(t, from, to) => Some([RenameColumn(t, to, from)])
    case CreateTable(n, _) => Some([DropTable(n)])
    case AddColumn(t, d, up) =>
      if up != "" then Some([DropColumn(t, d.name, up)])
      else if d.default.Some? then Some([DropColumn(t, d.name, d.default.value)])
      else if d.nullable then Some([DropColumn(t, d.name, "NULL")])
      else None
    case RawSQL(_, down, _) => if down == "" then None else Some([RawSQL(down, "", true)])
    case DropColumn(t, c, down) =>
      if t !in pre || c !in pre[t] || down == "" || pre[t][c].identity != "" then None
      else Some([AddColumn(t, Recovered(pre[t][c], t, c), down)])
    case AlterColumn(t, c, typ, nullable, default, comment, up, down) =>
      if t !in pre || c !in pre[t] || (typ.None? && nullable.None? && default.Unspecified? && comment.Unspecified?) then None
      else
        var col := pre[t][c];
        Some([AlterColumn(t, c, if typ.Some? then Some(col.typ) else None, if nullable.Some? then Some(col.nullable) else None,
                          Prior(!default.Unspecified?, col.default), Prior(!comment.Unspecified?, Nonempty(col.comment)), down, up)])
    case DropTable(n) =>
      if n !in pre || (exists c | c in pre[n] :: pre[n][c].identity != "") then None
      else Some([CreateTable(n, RecoveredAll(pre[n], n, SortedNames(pre[n].Keys)))])
  }

  /** The operations whose inverse looks at the pre-state. */
  predicate ReadsPreState(op: Op)
  {
    op.DropColumn? || op.DropTable? || op.AlterColumn?
  }

  lemma OtherInversesIgnorePreState(op: Op, a: Live, b: Live)
    requires !ReadsPreState(op)
    ensures InvertOp(op, a) == InvertOp(op, b)
  {
  }

  // ----- When the inverse is an exact undo -----

  /** The alter's type change would not silently take a default with it. */
  predicate KeepsDefault(c: Column, op: Op)
    requires op.AlterColumn?
  {
    op.typ.None? || op.typ.value == c.typ || c.default.None? || !op.default.Unspecified?
  }

  /** The operation validates, and it is one whose schema effect a replay records in full. */
  predicate Recorded(l: Live, op: Op)
  {
    match op
    case RenameTable(from, to) => from in l && to !in l
    case RenameColumn(t, from, to) => t in l && from in l[t] && to !in l[t]
    case CreateTable(n, _) => n !in l
    case DropTable(n) => n in l && forall c | c in l[n] :: Plain(l[n][c])
    case AddColumn(t, d, _) => t in l && d.name !in l[t]
    case DropColumn(t, c, _) => t in l && c in l[t] && Plain(l[t][c])
    case AlterColumn(t, c, _, nullable, _, comment, _, _) => t in l && c in l[t] && nullable.None? && comment.Unspecified?
    case RawSQL(_, _, _) => false
  }

  predicate Exact(l: Live, op: Op)
  {
    Recorded(l, op) && (op.AlterColumn? ==> KeepsDefault(l[op.table][op.column], op))
  }

  lemma EffectsOne(l: Live, op: Op)
    ensures Effects(l, [op]) == Effect(l, op)
  {
    assert [op][1..] == [];
  }

  /** For one recorded operation: its inverse restores the pre-state exactly when it keeps the default. */
  lemma UndoOne(l: Live, op: Op)
    requires Recorded(l, op) && InvertOp(op, l).Some?
    ensures Effect(l, op).Some?
    ensures Effects(Effect(l, op).value, InvertOp(op, l).value) == Some(l) <==> Exact(l, op)
  {
    var inv := InvertOp(op, l).value[0];
    assert InvertOp(op, l).value == [inv];
    var after := Effect(l, op).value;
    EffectsOne(after, inv);
    match op
    case RenameTable(from, to) => assert after[from := after[to]] - {to} == l;
    case CreateTable(n, _) => assert after - {n} == l;
    case DropTable(n) => RecreatedIs(l, n);
    case _ =>
      hide Recovered, Contains, SerialType, Exact, InvertOp, Plain, ColumnEffect, Recorded;
      UndoColumn(l[op.table], op, inv, l);
      UndoInTable(l, op, inv);
  }

  lemma RecreatedIs(l: Live, n: string)
    requires n in l && forall c | c in l[n] :: Plain(l[n][c])
    ensures (l - {n})[n := Declared(RecoveredAll(l[n], n, SortedNames(l[n].Keys)))] == l
  {
    hide *;
    var names := SortedNames(l[n].Keys);
    DeclaredRecovered(l[n], n, names);
    RestoresAll(Declared(RecoveredAll(l[n], n, names)), l[n], names);
    PutBack(l, n);
  }

  lemma RestoresAll(declared: map<string, Column>, columns: map<string, Column>, names: seq<string>)
    requires Restores(declared, columns, names) && forall n :: n in columns ==> n in names
    ensures declared == columns
  {
  }

  lemma PutBack(l: Live, n: string)
    requires n in l
    ensures (l - {n})[n := l[n]] == l
  {
  }

  /** A column operation and its inverse touch one table. */
  lemma UndoInTable(l: Live, op: Op, inv: Op)
    requires OnColumn(op) && OnColumn(inv) && op.table in l && inv.table == op.table && Effect(l, op).Some?
    ensures ColumnEffect(l[op.table], op).Some?
    ensures Effect(Effect(l, op).value, inv) == Some(l) <==>
            ColumnEffect(ColumnEffect(l[op.table], op).value, inv) == Some(l[op.table])
  {
    hide ColumnEffect;
    var t := op.table;
    var cs := ColumnEffect(l[t], op).value;
    var back := ColumnEffect(cs, inv);
    if back.Some? {
      assert Effect(Effect(l, op).value, inv) == Some(l[t := cs][t := back.value]);
      assert l[t := cs][t := back.value][t] == back.value;
      if back.value == l[t] {
        assert l[t := cs][t := back.value] == l;
      }
    }
  }

  lemma UndoColumn(cs: map<string, Column>, op: Op, inv: Op, l: Live)
    requires OnColumn(op) && op.table in l && l[op.table] == cs && Recorded(l, op) && InvertOp(op, l) == Some([inv])
    ensures OnColumn(inv) && inv.table == op.table && ColumnEffect(cs, op).Some?
    ensures ColumnEffect(ColumnEffect(cs, op).value, inv) == Some(cs) <==> Exact(l, op)
  {
    var after := ColumnEffect(cs, op).value;
    match op
    case DropColumn(t, c, _) =>
      RecoveredIs(cs[c], t, c);
      assert after[c := cs[c]] == cs;
    case AlterColumn(t, c, typ, _, default, _, _, _) =>
      var back := Altered(after[c], inv.typ, inv.default);
      assert ColumnEffect(after, inv) == Some(after[c := back]);
      assert after[c := back] == cs[c := back];
      assert cs[c := cs[c]] == cs;
      assert cs[c := back][c] == back;
      assert back == cs[c] <==> KeepsDefault(cs[c], op);
    case RenameColumn(_, from, to) => assert after[from := after[to]] - {to} == cs;
    case AddColumn(_, d, _) => assert after - {d.name} == cs;
  }

  /** Changing the type of a column with a default, and nothing else about it, is not undone. */
  lemma TypeChangeLosesDefault(l: Live, t: string, c: string, typ: string, up: string, down: string)
    requires t in l && c in l[t] && l[t][c].default.Some? && typ != l[t][c].typ
    ensures var op := AlterColumn(t, c, Some(typ), None, Unspecified, Unspecified, up, down);
            Effect(l, op).Some? && InvertOp(op, l).Some? && Effects(Effect(l, op).value, InvertOp(op, l).value) != Some(l)
  {
    var op := AlterColumn(t, c, Some(typ), None, Unspecified, Unspecified, up, down);
    UndoOne(l, op);
  }

  // ----- Segments -----

  datatype Migration = Migration(name: string, ops: seq<Op>)

  datatype Inverse = Inverse(name: string, ops: seq<Op>, revertOf: string)

  /** One reading of raw SQL: what it does to the replayed schema. */
  type RawEffect = (TableSchema, string) -> TableSchema

  /** The replay's own reading: raw SQL does nothing it can see. */
  function Blind(s: TableSchema, up: string): TableSchema
  {
    s
  }

  function Replay(s: TableSchema, op: Op, raw: RawEffect): Option<TableSchema>
  {
    if op.RawSQL? then Some(raw(s, op.up)) else Start(s, op)
  }

  datatype Replayed = Replayed(pres: seq<TableSchema>, end: TableSchema, tainted: bool)

  /** The state before each operation; refused where raw SQL has made one that will be needed untrustworthy. */
  function ReplayOps(s: TableSchema, ops: seq<Op>, tainted: bool, raw: RawEffect): (r: Option<Replayed>)
    ensures r.Some? ==> |r.value.pres| == |ops|
    decreases |ops|
  {
    if ops == [] then Some(Replayed([], s, tainted))
    else if tainted && ReadsPreState(ops[0]) then None
    else
      match Replay(s, ops[0], raw)
      case None => None
      case Some(next) =>
        match ReplayOps(next, ops[1..], tainted || ops[0].RawSQL?, raw)
        case None => None
        case Some(rest) => Some(Replayed([s] + rest.pres, rest.end, rest.tainted))
  }

  function ReplaySegment(s: TableSchema, migs: seq<Migration>, tainted: bool, raw: RawEffect): (r: Option<seq<seq<TableSchema>>>)
    ensures r.Some? ==> |r.value| == |migs| && forall i :: 0 <= i < |migs| ==> |r.value[i]| == |migs[i].ops|
    decreases |migs|
  {
    if migs == [] then Some([]) else
      match ReplayOps(s, migs[0].ops, tainted, raw)
      case None => None
      case Some(own) =>
        match ReplaySegment(own.end, migs[1..], own.tainted, raw)
        case None => None
        case Some(rest) => Some([own.pres] + rest)
  }

  /** The operations inverted against their pre-states, newest first. */
  function InvertOps(ops: seq<Op>, pres: seq<TableSchema>): Option<seq<Op>>
    requires |pres| == |ops|
  {
    if ops == [] then Some([]) else
      match InvertOps(ops[1..], pres[1..])
      case None => None
      case Some(rest) =>
        match InvertOp(ops[0], LiveOf(pres[0]))
        case None => None
        case Some(own) => Some(rest + own)
  }

  function InvertMigrations(migs: seq<Migration>, states: seq<seq<TableSchema>>): Option<seq<Inverse>>
    requires |states| == |migs| && forall i :: 0 <= i < |migs| ==> |states[i]| == |migs[i].ops|
  {
    if migs == [] then Some([]) else
      match InvertMigrations(migs[1..], states[1..])
      case None => None
      case Some(rest) =>
        match InvertOps(migs[0].ops, states[0])
        case None => None
        case Some(ops) => Some(rest + [Inverse("revert_" + migs[0].name, ops, migs[0].name)])
  }

  function Inverted(migs: seq<Migration>, base: TableSchema, raw: RawEffect): Option<seq<Inverse>>
  {
    match ReplaySegment(base, migs, false, raw)
    case None => None
    case Some(states) => InvertMigrations(migs, states)
  }

  /** One inverse per migration, newest first, each named after the one it points at. */
  ghost predicate Undoes(invs: seq<Inverse>, names: seq<string>)
  {
    |invs| == |names| && forall i :: 0 <= i < |invs| ==>
      invs[i].revertOf == names[|names| - 1 - i] && invs[i].name == "revert_" + invs[i].revertOf
  }

  function MigrationNames(migs: seq<Migration>): (r: seq<string>)
    ensures |r| == |migs| && forall i :: 0 <= i < |migs| ==> r[i] == migs[i].name
  {
    seq(|migs|, i requires 0 <= i < |migs| => migs[i].name)
  }

  lemma {:induction false} InvertedNames(migs: seq<Migration>, states: seq<seq<TableSchema>>)
    requires |states| == |migs| && (forall i :: 0 <= i < |migs| ==> |states[i]| == |migs[i].ops|)
    requires InvertMigrations(migs, states).Some?
    ensures Undoes(InvertMigrations(migs, states).value, MigrationNames(migs))
  {
    hide InvertOps;
    if migs != [] {
      InvertedNames(migs[1..], states[1..]);
      assert MigrationNames(migs[1..]) == MigrationNames(migs)[1..];
    }
  }

  // ----- Raw SQL cannot influence what is synthesized -----

  lemma {:induction false} OpsIndependent(a: TableSchema, b: TableSchema, ops: seq<Op>, tainted: bool, rawA: RawEffect, rawB: RawEffect)
    requires tainted || a == b
    requires ReplayOps(a, ops, tainted, rawA).Some? && ReplayOps(b, ops, tainted, rawB).Some?
    ensures var x, y := ReplayOps(a, ops, tainted, rawA).value, ReplayOps(b, ops, tainted, rawB).value;
            && x.tainted == y.tainted && (x.tainted || x.end == y.end)
            && InvertOps(ops, x.pres) == InvertOps(ops, y.pres)
    decreases |ops|
  {
    if ops != [] {
      var op := ops[0];
      OpsIndependent(Replay(a, op, rawA).value, Replay(b, op, rawB).value, ops[1..], tainted || op.RawSQL?, rawA, rawB);
      var x, y := ReplayOps(a, ops, tainted, rawA).value, ReplayOps(b, ops, tainted, rawB).value;
      if tainted {
        OtherInversesIgnorePreState(op, LiveOf(a), LiveOf(b));
      }
      hide InvertOp, LiveOf, Replay, ReadsPreState;
      assert x.pres[1..] == ReplayOps(Replay(a, op, rawA).value, ops[1..], tainted || op.RawSQL?, rawA).value.pres;
      assert y.pres[1..] == ReplayOps(Replay(b, op, rawB).value, ops[1..], tainted || op.RawSQL?, rawB).value.pres;
    }
  }

  lemma {:induction false} SegmentIndependent(a: TableSchema, b: TableSchema, migs: seq<Migration>, tainted: bool, rawA: RawEffect, rawB: RawEffect)
    requires tainted || a == b
    requires ReplaySegment(a, migs, tainted, rawA).Some? && ReplaySegment(b, migs, tainted, rawB).Some?
    ensures InvertMigrations(migs, ReplaySegment(a, migs, tainted, rawA).value) ==
            InvertMigrations(migs, ReplaySegment(b, migs, tainted, rawB).value)
    decreases |migs|
  {
    if migs != [] {
      OpsIndependent(a, b, migs[0].ops, tainted, rawA, rawB);
      var x, y := ReplayOps(a, migs[0].ops, tainted, rawA).value, ReplayOps(b, migs[0].ops, tainted, rawB).value;
      SegmentIndependent(x.end, y.end, migs[1..], x.tainted, rawA, rawB);
      hide ReplayOps, InvertOps;
      assert ReplaySegment(a, migs, tainted, rawA).value[1..] == ReplaySegment(x.end, migs[1..], x.tainted, rawA).value;
      assert ReplaySegment(b, migs, tainted, rawB).value[1..] == ReplaySegment(y.end, migs[1..], y.tainted, rawB).value;
    }
  }

  /** Whatever raw SQL is taken to do to the schema, if inversion succeeds the inverses are the same. */
  lemma RawSQLCannotInfluenceInverses(migs: seq<Migration>, base: TableSchema, rawA: RawEffect, rawB: RawEffect)
    requires Inverted(migs, base, rawA).Some? && Inverted(migs, base, rawB).Some?
    ensures Inverted(migs, base, rawA) == Inverted(migs, base, rawB)
  {
    SegmentIndependent(base, base, migs, false, rawA, rawB);
  }

  // ----- Running the inverses restores the base -----

  function FlatOps(migs: seq<Migration>): seq<Op>
  {
    if migs == [] then [] else migs[0].ops + FlatOps(migs[1..])
  }

  function FlatInverses(invs: seq<Inverse>): seq<Op>
  {
    if invs == [] then [] else invs[0].ops + FlatInverses(invs[1..])
  }

  lemma {:induction false} FlatAppend(invs: seq<Inverse>, last: Inverse)
    ensures FlatInverses(invs + [last]) == FlatInverses(invs) + last.ops
  {
    if invs == [] {
      assert [last][1..] == [];
      assert last.ops + [] == last.ops;
    } else {
      assert (invs + [last])[1..] == invs[1..] + [last];
      FlatAppend(invs[1..], last);
    }
  }

  /** Each operation is an exact one in the state the ones before it left. */
  ghost predicate AllExact(l: Live, ops: seq<Op>)
    decreases |ops|
  {
    ops == [] || (Exact(l, ops[0]) && Effect(l, ops[0]).Some? && AllExact(Effect(l, ops[0]).value, ops[1..]))
  }

  lemma {:induction false} AllExactConcat(l: Live, a: seq<Op>, b: seq<Op>)
    requires AllExact(l, a + b)
    ensures AllExact(l, a) && Effects(l, a).Some? && AllExact(Effects(l, a).value, b)
    decreases |a|
  {
    if a == [] {
      assert a + b == b;
    } else {
      assert (a + b)[0] == a[0] && (a + b)[1..] == a[1..] + b;
      AllExactConcat(Effect(l, a[0]).value, a[1..], b);
    }
  }

  lemma {:induction false} UndoOps(s: TableSchema, ops: seq<Op>, raw: RawEffect)
    requires s.Valid() && AllExact(LiveOf(s), ops) && ReplayOps(s, ops, false, raw).Some?
    requires InvertOps(ops, ReplayOps(s, ops, false, raw).value.pres).Some?
    ensures var r := ReplayOps(s, ops, false, raw).value;
            && r.end.Valid() && !r.tainted && Effects(LiveOf(s), ops) == Some(LiveOf(r.end))
            && Effects(LiveOf(r.end), InvertOps(ops, r.pres).value) == Some(LiveOf(s))
    decreases |ops|
  {
    if ops != [] {
      var op := ops[0];
      var next := Start(s, op).value;
      assert !op.RawSQL?;
      StartLive(s, op);
      var r, rest := ReplayOps(s, ops, false, raw).value, ReplayOps(next, ops[1..], false, raw).value;
      assert r.pres[1..] == rest.pres;
      UndoOps(next, ops[1..], raw);
      UndoOne(LiveOf(s), op);
      var later, own := InvertOps(ops[1..], rest.pres).value, InvertOp(op, LiveOf(s)).value;
      hide InvertOp, LiveOf, Start, Effect, Exact, ReplayOps;
      EffectsConcat(LiveOf(r.end), later, own);
    }
  }

  lemma {:induction false} UndoSegment(s: TableSchema, migs: seq<Migration>, raw: RawEffect)
    requires s.Valid() && AllExact(LiveOf(s), FlatOps(migs)) && ReplaySegment(s, migs, false, raw).Some?
    requires InvertMigrations(migs, ReplaySegment(s, migs, false, raw).value).Some?
    ensures var invs := InvertMigrations(migs, ReplaySegment(s, migs, false, raw).value).value;
            && Effects(LiveOf(s), FlatOps(migs)).Some?
            && Effects(Effects(LiveOf(s), FlatOps(migs)).value, FlatInverses(invs)) == Some(LiveOf(s))
    decreases |migs|
  {
    if migs != [] {
      var states := ReplaySegment(s, migs, false, raw).value;
      AllExactConcat(LiveOf(s), migs[0].ops, FlatOps(migs[1..]));
      UndoOps(s, migs[0].ops, raw);
      var own := ReplayOps(s, migs[0].ops, false, raw).value;
      assert states[1..] == ReplaySegment(own.end, migs[1..], own.tainted, raw).value;
      UndoSegment(own.end, migs[1..], raw);
      var later := InvertMigrations(migs[1..], states[1..]).value;
      var mine := Inverse("revert_" + migs[0].name, InvertOps(migs[0].ops, own.pres).value, migs[0].name);
      EffectsConcat(LiveOf(s), migs[0].ops, FlatOps(migs[1..]));
      FlatAppend(later, mine);
      hide ReplayOps, InvertOps, LiveOf, AllExact, ReplaySegment;
      EffectsConcat(Effects(LiveOf(s), FlatOps(migs)).value, FlatInverses(later), mine.ops);
    }
  }

  /**
   * Inversion is an exact undo: when it succeeds on a segment of exact operations, running the
   * inverses in the order returned, from any schema that shows what the segment's end shows, restores
   * every live table and every column's type, nullability, default, comment and uniqueness.
   */
  lemma InversionIsExactUndo(migs: seq<Migration>, base: TableSchema, end: TableSchema, raw: RawEffect)
    requires base.Valid() && end.Valid() && AllExact(LiveOf(base), FlatOps(migs)) && Inverted(migs, base, raw).Some?
    requires Effects(LiveOf(base), FlatOps(migs)) == Some(LiveOf(end))
    ensures var back := Starts(end, FlatInverses(Inverted(migs, base, raw).value));
            back.Some? && LiveOf(back.value) == LiveOf(base)
  {
    UndoSegment(base, migs, raw);
    hide LiveOf, AllExact, ReplaySegment, InvertMigrations;
    StartsLive(end, FlatInverses(Inverted(migs, base, raw).value));
  }

  // ----- Computing it -----

  /** Raw SQL that runs at Start refuses company. */
  predicate Isolated(op: Op)
  {
    op.RawSQL? && !op.onComplete
  }

  /** No synthesized operation is isolated, so combining them is never refused. */
  lemma {:induction false} NoInverseIsIsolated(ops: seq<Op>, pres: seq<TableSchema>)
    requires |pres| == |ops| && InvertOps(ops, pres).Some?
    ensures forall op | op in InvertOps(ops, pres).value :: !Isolated(op)
  {
    if ops != [] {
      NoInverseIsIsolated(ops[1..], pres[1..]);
      var own := InvertOp(ops[0], LiveOf(pres[0])).value;
      assert |own| == 1 && !Isolated(own[0]);
      hide InvertOp, LiveOf;
    }
  }

  function Prepend(pres: seq<TableSchema>, r: Option<Replayed>): Option<Replayed>
  {
    if r.None? then None else Some(r.value.(pres := pres + r.value.pres))
  }

  lemma ReplayStep(pres: seq<TableSchema>, work: TableSchema, ops: seq<Op>, tainted: bool)
    requires ops != []
    ensures Prepend(pres, ReplayOps(work, ops, tainted, Blind)) ==
            if (tainted && ReadsPreState(ops[0])) || Start(work, ops[0]).None? then None
            else Prepend(pres + [work], ReplayOps(Start(work, ops[0]).value, ops[1..], tainted || ops[0].RawSQL?, Blind))
  {
    assert Replay(work, ops[0], Blind) == Start(work, ops[0]);
    hide Start, Replay;
    if Start(work, ops[0]).Some? {
      var rest := ReplayOps(Start(work, ops[0]).value, ops[1..], tainted || ops[0].RawSQL?, Blind);
      assert rest.Some? ==> pres + ([work] + rest.value.pres) == (pres + [work]) + rest.value.pres;
    }
  }

  /** Replays one migration, keeping a copy of the schema before each operation. */
  method ReplayMigration(start: TableSchema, ops: seq<Op>, taintedBefore: bool) returns (r: Option<Replayed>)
    ensures r == ReplayOps(start, ops, taintedBefore, Blind)
  {
    var work, tainted, pres: seq<TableSchema> := start, taintedBefore, [];
    ghost var whole := ReplayOps(start, ops, taintedBefore, Blind);
    assert ops[0..] == ops;
    assert whole == Prepend([], whole) by {
      assert whole.Some? ==> [] + whole.value.pres == whole.value.pres;
    }
    ReplayNothing(pres, work, tainted);
    for i := 0 to |ops|
      invariant whole == Prepend(pres, ReplayOps(work, ops[i..], tainted, Blind))
    {
      hide Start, ReplayOps, Prepend;
      ReplayStep(pres, work, ops[i..], tainted);
      assert ops[i..][1..] == ops[i + 1..];
      var op := ops[i];
      if op.RawSQL? {
        tainted := true;
      } else if tainted && ReadsPreState(op) {
        return None;
      }
      var next := Start(work, op);
      if next.None? {
        return None;
      }
      pres := pres + [work];
      work := next.value;
    }
    ReplayNothing(pres, work, tainted);
    return Some(Replayed(pres, work, tainted));
  }

  lemma ReplayNothing(pres: seq<TableSchema>, work: TableSchema, tainted: bool)
    ensures Prepend(pres, ReplayOps(work, [], tainted, Blind)) == Some(Replayed(pres, work, tainted))
  {
    assert pres + [] == pres;
  }

  /** Inverts one migration's operations, last first. */
  method InvertMigration(ops: seq<Op>, pres: seq<TableSchema>) returns (r: Option<seq<Op>>)
    requires |pres| == |ops|
    ensures r == InvertOps(ops, pres)
  {
    var inverses: seq<Op> := [];
    var i := |ops|;
    while i > 0
      invariant 0 <= i <= |ops|
      invariant InvertOps(ops[i..], pres[i..]) == Some(inverses)
    {
      i := i - 1;
      assert ops[i..][1..] == ops[i + 1..] && pres[i..][1..] == pres[i + 1..];
      var own := InvertOp(ops[i], LiveOf(pres[i]));
      if own.None? {
        InvertFails(ops, pres, i);
        return None;
      }
      inverses := inverses + own.value;
    }
    assert ops[0..] == ops && pres[0..] == pres;
    return Some(inverses);
  }

  lemma {:induction false} InvertFails(ops: seq<Op>, pres: seq<TableSchema>, i: nat)
    requires |pres| == |ops| && i < |ops| && InvertOps(ops[i..], pres[i..]).None?
    ensures InvertOps(ops, pres).None?
  {
    if i > 0 {
      assert ops[1..][i - 1..] == ops[i..] && pres[1..][i - 1..] == pres[i..];
      InvertFails(ops[1..], pres[1..], i - 1);
    } else {
      assert ops[0..] == ops && pres[0..] == pres;
    }
  }

  /** First pass: the pre-states of every operation of the segment. */
  method ReplayAll(migs: seq<Migration>, base: TableSchema) returns (r: Option<seq<seq<TableSchema>>>)
    ensures r == ReplaySegment(base, migs, false, Blind)
  {
    var work, tainted, states: seq<seq<TableSchema>> := base, false, [];
    ghost var whole := ReplaySegment(base, migs, false, Blind);
    assert migs[0..] == migs;
    assert whole.Some? ==> [] + whole.value == whole.value;
    for i := 0 to |migs|
      invariant whole == var rest := ReplaySegment(work, migs[i..], tainted, Blind); if rest.None? then None else Some(states + rest.value)
    {
      assert migs[i..][1..] == migs[i + 1..];
      var own := ReplayMigration(work, migs[i].ops, tainted);
      if own.None? {
        return None;
      }
      hide ReplayOps;
      ghost var rest := ReplaySegment(own.value.end, migs[i + 1..], own.value.tainted, Blind);
      assert rest.Some? ==> states + ([own.value.pres] + rest.value) == (states + [own.value.pres]) + rest.value;
      states := states + [own.value.pres];
      work, tainted := own.value.end, own.value.tainted;
    }
    assert states + [] == states;
    return Some(states);
  }

  /** Inverse migrations for a contiguous segment, newest first; none when any part is refused. */
  method InvertSegment(migs: seq<Migration>, base: TableSchema) returns (r: Option<seq<Inverse>>)
    ensures r == Inverted(migs, base, Blind)
    ensures r.Some? ==> Undoes(r.value, MigrationNames(migs))
  {
    var replayed := ReplayAll(migs, base);
    if replayed.None? {
      return None;
    }
    hide ReplaySegment;
    var states := replayed.value;
    var inverses: seq<Inverse> := [];
    var m := |migs|;
    while m > 0
      invariant 0 <= m <= |migs|
      invariant InvertMigrations(migs[m..], states[m..]) == Some(inverses)
    {
      m := m - 1;
      assert migs[m..][1..] == migs[m + 1..] && states[m..][1..] == states[m + 1..];
      var ops := InvertMigration(migs[m].ops, states[m]);
      if ops.None? {
        SegmentFails(migs, states, m);
        return None;
      }
      NoInverseIsIsolated(migs[m].ops, states[m]);
      hide InvertOps, Isolated;
      if |ops.value| > 1 && exists op :: op in ops.value && Isolated(op) {
        return None;
      }
      inverses := inverses + [Inverse("revert_" + migs[m].name, ops.value, migs[m].name)];
    }
    assert migs[0..] == migs && states[0..] == states;
    InvertedNames(migs, states);
    return Some(inverses);
  }

  lemma {:induction false} SegmentFails(migs: seq<Migration>, states: seq<seq<TableSchema>>, m: nat)
    requires |states| == |migs| && (forall i :: 0 <= i < |migs| ==> |states[i]| == |migs[i].ops|)
    requires m < |migs| && InvertMigrations(migs[m..], states[m..]).None?
    ensures InvertMigrations(migs, states).None?
  {
    hide InvertOps;
    if m > 0 {
      assert migs[1..][m - 1..] == migs[m..] && states[1..][m - 1..] == states[m..];
      SegmentFails(migs[1..], states[1..], m - 1);
    } else {
      assert migs[0..] == migs && states[0..] == states;
    }
  }
}
