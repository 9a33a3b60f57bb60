/** Replaying queued migrations over a physical read, against draining them for real. */
module Replay {
  import opened History
  import opened SchemaTables
  import C = Coordinator

  /** What tells relations apart, and columns within one: identities never change, names do. */
  type Identity = string

  /** A relation and its columns by name. */
  datatype Relation = Relation(oid: Identity, columns: map<string, Identity>)

  /** What the database holds, and also what a version schema exposes: relations by name. */
  type Relations = map<string, Relation>

  /** A table of the in-memory schema: its physical name, and its columns' physical names by virtual name. */
  datatype VirtualTable = VirtualTable(name: string, columns: map<string, Entry<string>>)
  {
    predicate HasColumn(c: string)
    {
      c in columns && !columns[c].deleted
    }
  }

  type Virtual = Tables<VirtualTable>

  datatype Op =
    | RenameTable(from: string, to: string)
    | RenameColumn(table: string, from: string, to: string)
    | DropColumn(table: string, column: string)

  // ----- The meaning of an operation on what is exposed -----

  /** Defined exactly when the operation can start on the exposed relations. */
  function Meaning(v: Relations, op: Op): Option<Relations>
  {
    match op
    case RenameTable(from, to) => if from in v && to !in v then Some(v[to := v[from]] - {from}) else None
    case RenameColumn(t, from, to) =>
      if t in v && from in v[t].columns && to !in v[t].columns
      then Some(v[t := v[t].(columns := v[t].columns[to := v[t].columns[from]] - {from})]) else None
    case DropColumn(t, c) =>
      if t in v && c in v[t].columns then Some(v[t := v[t].(columns := v[t].columns - {c})]) else None
  }

  function Meanings(v: Relations, ops: seq<Op>): Option<Relations>
    decreases |ops|
  {
    if ops == [] then Some(v) else
      match Meaning(v, ops[0])
      case None => None
      case Some(next) => Meanings(next, ops[1..])
  }

  lemma {:induction false} MeaningsConcat(v: Relations, a: seq<Op>, b: seq<Op>)
    ensures Meanings(v, a + b) == if Meanings(v, a).Some? then Meanings(Meanings(v, a).value, b) else None
    decreases |a|
  {
    if a == [] {
      assert a + b == b;
    } else {
      assert (a + b)[0] == a[0] && (a + b)[1..] == a[1..] + b;
      if Meaning(v, a[0]).Some? {
        MeaningsConcat(Meaning(v, a[0]).value, a[1..], b);
      }
    }
  }

  // ----- Replaying Start on the in-memory schema -----

  /** The schema as read from the database: every name is its own physical name. */
  function Read(db: Relations): Virtual
  {
    Tables(map n | n in db :: Entry(VirtualTable(n, map c | c in db[n].columns :: Entry(c, false)), false), map[])
  }

  /** Start's effect on the in-memory schema; the database is not touched. */
  function Start(s: Virtual, op: Op): Option<Virtual>
  {
    match op
    case RenameTable(from, to) => if s.Has(from) && !s.Has(to) then Some(s.Rename(from, to)) else None
    case RenameColumn(t, from, to) =>
      if s.Has(t) && s.tables[t].value.HasColumn(from) then
        var vt := s.tables[t].value;
        Some(Update(s, t, vt.(columns := vt.columns[to := vt.columns[from]] - {from})))
      else None
    case DropColumn(t, c) =>
      if s.Has(t) && s.tables[t].value.HasColumn(c) then
        var vt := s.tables[t].value;
        Some(Update(s, t, vt.(columns := vt.columns[c := vt.columns[c].(deleted := true)])))
      else None
  }

  function Update(s: Virtual, t: string, vt: VirtualTable): Virtual
    requires t in s.tables
  {
    Tables(s.tables[t := s.tables[t].(value := vt)], s.shadowed)
  }

  function Starts(s: Virtual, ops: seq<Op>): Option<Virtual>
    decreases |ops|
  {
    if ops == [] then Some(s) else
      match Start(s, ops[0])
      case None => None
      case Some(next) => Starts(next, ops[1..])
  }

  // ----- What the views over the database expose -----

  /** Every exposed name leads to a physical one that exists. */
  ghost predicate Resolves(db: Relations, s: Virtual)
  {
    && s.Valid()
    && forall n | s.Has(n) :: TableResolves(db, s.tables[n].value)
  }

  predicate TableResolves(db: Relations, vt: VirtualTable)
  {
    vt.name in db && forall c | c in vt.columns && vt.HasColumn(c) :: vt.columns[c].value in db[vt.name].columns
  }

  /** One view: each virtual column with the identity of the physical column it selects. */
  function TableView(db: Relations, vt: VirtualTable): Relation
    requires TableResolves(db, vt)
  {
    Relation(db[vt.name].oid, map c | c in vt.columns && vt.HasColumn(c) :: db[vt.name].columns[vt.columns[c].value])
  }

  /** All views: one per table that is not soft-deleted. */
  ghost function Views(db: Relations, s: Virtual): Relations
    requires Resolves(db, s)
  {
    map n | n in s.tables && s.Has(n) :: TableView(db, s.tables[n].value)
  }

  lemma ReadShowsAll(db: Relations)
    ensures Resolves(db, Read(db)) && Views(db, Read(db)) == db
  {
    var s := Read(db);
    assert forall n :: s.Stack(n) == [];
    assert Views(db, s).Keys == db.Keys;
    forall n | n in db ensures Views(db, s)[n] == db[n] {
      assert TableView(db, s.tables[n].value).columns == db[n].columns;
    }
  }

  lemma RenameShows(db: Relations, s: Virtual, from: string, to: string)
    requires Resolves(db, s) && s.Has(from) && !s.Has(to)
    ensures var r := s.Rename(from, to);
            Resolves(db, r) && Views(db, r) == Views(db, s)[to := Views(db, s)[from]] - {from}
  {
    RenameValid(s, from, to);
    RenameLive(s, from, to);
    hide Tables.Rename, Tables.Valid;
    var r := s.Rename(from, to);
    MovedShows(db, s, r, from, to);
  }

  lemma MovedShows(db: Relations, s: Virtual, r: Virtual, from: string, to: string)
    requires Resolves(db, s) && s.Has(from) && !s.Has(to) && r.Valid()
    requires forall n :: r.Has(n) <==> (n == to || s.Has(n)) && n != from
    requires forall n | r.Has(n) :: n in r.tables && (n == to || n in s.tables)
                                    && r.tables[n] == if n == to then s.tables[from] else s.tables[n]
    ensures Resolves(db, r) && Views(db, r) == Views(db, s)[to := Views(db, s)[from]] - {from}
  {
    hide TableView, TableResolves, Tables.Valid;
    var was, now := Views(db, s), Views(db, r);
    assert now.Keys == (was[to := was[from]] - {from}).Keys;
  }

  lemma UpdateShows(db: Relations, s: Virtual, t: string, vt: VirtualTable)
    requires Resolves(db, s) && s.Has(t) && TableResolves(db, vt)
    ensures var r := Update(s, t, vt);
            Resolves(db, r) && Views(db, r) == Views(db, s)[t := TableView(db, vt)]
  {
    var r := Update(s, t, vt);
    assert forall n :: r.Stack(n) == s.Stack(n);
    assert forall n :: r.Has(n) <==> s.Has(n);
    hide TableView, TableResolves;
  }

  /** An operation that validates starts, and its Start changes the views by exactly its meaning. */
  lemma StartShows(db: Relations, s: Virtual, op: Op)
    requires Resolves(db, s) && Meaning(Views(db, s), op).Some?
    ensures var r := Start(s, op); r.Some? && Resolves(db, r.value) && Some(Views(db, r.value)) == Meaning(Views(db, s), op)
  {
    match op
    case RenameTable(from, to) => RenameShows(db, s, from, to);
    case RenameColumn(t, from, to) =>
      var vt := s.tables[t].value;
      var after := vt.(columns := vt.columns[to := vt.columns[from]] - {from});
      assert TableView(db, after).columns == TableView(db, vt).columns[to := TableView(db, vt).columns[from]] - {from};
      UpdateShows(db, s, t, after);
    case DropColumn(t, c) =>
      var vt := s.tables[t].value;
      var after := vt.(columns := vt.columns[c := vt.columns[c].(deleted := true)]);
      assert TableView(db, after).columns == TableView(db, vt).columns - {c};
      UpdateShows(db, s, t, after);
  }

  lemma {:induction false} StartsShow(db: Relations, s: Virtual, ops: seq<Op>)
    requires Resolves(db, s) && Meanings(Views(db, s), ops).Some?
    ensures var r := Starts(s, ops); r.Some? && Resolves(db, r.value) && Some(Views(db, r.value)) == Meanings(Views(db, s), ops)
    decreases |ops|
  {
    if ops != [] {
      StartShows(db, s, ops[0]);
      StartsShow(db, Start(s, ops[0]).value, ops[1..]);
    }
  }

  // ----- Draining -----

  /** The DDL a Complete issues, by physical names. */
  datatype DDL =
    | RenameRelation(from: string, to: string)
    | RenameAttribute(table: string, from: string, to: string)
    | DropAttribute(table: string, column: string)

  function IdOf(d: DDL): string
  {
    match d
    case RenameRelation(from, to) => "rename_table_" + from + "_to_" + to
    case RenameAttribute(t, from, to) => "rename_column_" + t + "_" + from + "_to_" + to
    case DropAttribute(t, c) => "drop_column_" + t + "_" + c
  }

  function ActionFor(d: DDL): C.Action<DDL>
  {
    C.Action(IdOf(d), d)
  }

  /**
   * Running it: missing tables are skipped, a column that is already renamed is left, a missing column
   * is not dropped again, and a name that is taken is an error.
   */
  function Exec(db: Relations, d: DDL): Option<Relations>
  {
    match d
    case RenameRelation(from, to) =>
      if from !in db then Some(db) else if to in db then None else Some(db[to := db[from]] - {from})
    case RenameAttribute(t, from, to) =>
      if t !in db then Some(db)
      else if from !in db[t].columns then (if to in db[t].columns then Some(db) else None)
      else if to in db[t].columns then None
      else Some(db[t := db[t].(columns := db[t].columns[to := db[t].columns[from]] - {from})])
    case DropAttribute(t, c) =>
      if t !in db then Some(db) else Some(db[t := db[t].(columns := db[t].columns - {c})])
  }

  function ExecAll(db: Relations, actions: seq<C.Action<DDL>>): Option<Relations>
    decreases |actions|
  {
    if actions == [] then Some(db) else
      match Exec(db, actions[0].body)
      case None => None
      case Some(next) => ExecAll(next, actions[1..])
  }

  /** The tables of the schema a drain reads: each name with its physical name. */
  function ReadNames(db: Relations): Tables<string>
  {
    Tables(map n | n in db :: Entry(n, false), map[])
  }

  /**
   * Complete: the schema it reads serves only to find the table's physical name. A rename moves the
   * table there too, and its physical name with it, since the DDL will have run by then.
   */
  function Complete(s: Tables<string>, op: Op): Option<(Tables<string>, DDL)>
  {
    match op
    case RenameTable(from, to) =>
      var moved := if s.Has(from) && !s.Has(to) then s.Rename(from, to) else s;
      var named := if moved.Has(to) then moved.Add(to, to) else moved;
      Some((named, RenameRelation(from, to)))
    case RenameColumn(t, from, to) => if s.Has(t) then Some((s, RenameAttribute(s.tables[t].value, from, to))) else None
    case DropColumn(t, c) => if s.Has(t) then Some((s, DropAttribute(s.tables[t].value, c))) else None
  }

  function Completes(s: Tables<string>, ops: seq<Op>): Option<seq<C.Action<DDL>>>
    decreases |ops|
  {
    if ops == [] then Some([]) else
      match Complete(s, ops[0])
      case None => None
      case Some(pair) =>
        match Completes(pair.0, ops[1..])
        case None => None
        case Some(rest) => Some([ActionFor(pair.1)] + rest)
  }

  /** The DDL of an operation whose table is physically named as it is exposed. */
  function Direct(op: Op): DDL
  {
    match op
    case RenameTable(from, to) => RenameRelation(from, to)
    case RenameColumn(t, from, to) => RenameAttribute(t, from, to)
    case DropColumn(t, c) => DropAttribute(t, c)
  }

  function DirectActions(ops: seq<Op>): (r: seq<C.Action<DDL>>)
    ensures |r| == |ops| && forall i :: 0 <= i < |ops| ==> r[i] == ActionFor(Direct(ops[i]))
  {
    seq(|ops|, i requires 0 <= i < |ops| => ActionFor(Direct(ops[i])))
  }

  /** The schema a drain reads lists exactly the relations, each under its physical name. */
  ghost predicate Names(db: Relations, s: Tables<string>)
  {
    s.Valid() && forall n :: (s.Has(n) <==> n in db) && (s.Has(n) ==> s.tables[n].value == n)
  }

  lemma CompleteNames(db: Relations, s: Tables<string>, op: Op)
    requires Names(db, s) && Meaning(db, op).Some?
    ensures var r := Complete(s, op); r.Some? && r.value.1 == Direct(op) && Names(Meaning(db, op).value, r.value.0)
  {
    if op.RenameTable? {
      var from, to := op.from, op.to;
      RenameLive(s, from, to);
      RenameValid(s, from, to);
      hide Tables.Rename;
      NamesRenamed(db, s, s.Rename(from, to), from, to);
    }
  }

  lemma NamesRenamed(db: Relations, s: Tables<string>, moved: Tables<string>, from: string, to: string)
    requires Names(db, s) && from in db && to !in db && moved.Valid()
    requires forall n :: moved.Has(n) <==> (n == to || s.Has(n)) && n != from
    requires forall n | moved.Has(n) :: n in moved.tables && (n == to || n in s.tables) && from in s.tables
                                        && moved.tables[n] == if n == to then s.tables[from] else s.tables[n]
    ensures Names(db[to := db[from]] - {from}, moved.Add(to, to))
  {
    assert forall n :: moved.Add(to, to).Stack(n) == moved.Stack(n);
    assert forall n :: moved.Add(to, to).Has(n) <==> n == to || moved.Has(n);
    assert forall n :: moved.Has(n) && n != to ==> moved.Add(to, to).tables[n] == s.tables[n];
  }

  lemma {:induction false} CompletesDirect(db: Relations, s: Tables<string>, ops: seq<Op>)
    requires Names(db, s) && Meanings(db, ops).Some?
    ensures Completes(s, ops) == Some(DirectActions(ops))
    decreases |ops|
  {
    hide *;
    if ops == [] {
      NoneDirect(s);
    } else {
      FirstMeaning(db, ops);
      CompleteNames(db, s, ops[0]);
      CompletesDirect(Meaning(db, ops[0]).value, Complete(s, ops[0]).value.0, ops[1..]);
      CompletesStep(s, ops);
    }
  }

  lemma NoneDirect(s: Tables<string>)
    ensures Completes(s, []) == Some(DirectActions([]))
  {
  }

  lemma FirstMeaning(db: Relations, ops: seq<Op>)
    requires ops != [] && Meanings(db, ops).Some?
    ensures Meaning(db, ops[0]).Some? && Meanings(Meaning(db, ops[0]).value, ops[1..]).Some?
  {
    hide Meaning;
  }

  lemma CompletesStep(s: Tables<string>, ops: seq<Op>)
    requires ops != [] && Complete(s, ops[0]).Some? && Complete(s, ops[0]).value.1 == Direct(ops[0])
    requires Completes(Complete(s, ops[0]).value.0, ops[1..]) == Some(DirectActions(ops[1..]))
    ensures Completes(s, ops) == Some(DirectActions(ops))
  {
    hide Complete, Direct, ActionFor;
    assert DirectActions(ops) == [ActionFor(Direct(ops[0]))] + DirectActions(ops[1..]);
  }

  lemma ExecDirect(db: Relations, op: Op)
    requires Meaning(db, op).Some?
    ensures Exec(db, Direct(op)) == Meaning(db, op)
  {
  }

  lemma {:induction false} ExecAllDirect(db: Relations, ops: seq<Op>)
    requires Meanings(db, ops).Some?
    ensures ExecAll(db, DirectActions(ops)) == Meanings(db, ops)
    decreases |ops|
  {
    if ops != [] {
      ExecDirect(db, ops[0]);
      ExecAllDirect(Meaning(db, ops[0]).value, ops[1..]);
      hide Exec, Meaning;
      assert DirectActions(ops)[1..] == DirectActions(ops[1..]);
    }
  }

  /** One migration's Complete actions, through its own coordinator. */
  ghost function Drain(db: Relations, ops: seq<Op>): Option<Relations>
  {
    match Completes(ReadNames(db), ops)
    case None => None
    case Some(actions) =>
      C.BuiltCoordinates(actions);
      ExecAll(db, C.Effective(C.Built(actions)))
  }

  /** No two operations of the migration share an action id. */
  ghost predicate DistinctActions(ops: seq<Op>)
  {
    C.DistinctIds(DirectActions(ops))
  }

  /** Draining a migration changes the relations by exactly its meaning. */
  lemma DrainMeans(db: Relations, ops: seq<Op>)
    requires Meanings(db, ops).Some? && DistinctActions(ops)
    ensures Drain(db, ops) == Meanings(db, ops)
  {
    var s := ReadNames(db);
    assert forall n :: s.Stack(n) == [];
    CompletesDirect(db, s, ops);
    C.DistinctRunsAsGiven(DirectActions(ops));
    ExecAllDirect(db, ops);
  }

  // ----- Draining a prefix and replaying the rest -----

  function Flat(queue: seq<seq<Op>>): seq<Op>
  {
    if queue == [] then [] else queue[0] + Flat(queue[1..])
  }

  ghost function DrainAll(db: Relations, queue: seq<seq<Op>>): Option<Relations>
    decreases |queue|
  {
    if queue == [] then Some(db) else
      match Drain(db, queue[0])
      case None => None
      case Some(next) => DrainAll(next, queue[1..])
  }

  /** What the version schemas expose while `queue` is still deferred over `db`. */
  ghost predicate Exposes(db: Relations, queue: seq<seq<Op>>, v: Relations)
  {
    var s := Starts(Read(db), Flat(queue));
    s.Some? && Resolves(db, s.value) && Views(db, s.value) == v
  }

  /** Draining each migration in turn does what it means. */
  ghost predicate DrainsAsMeant(db: Relations, queue: seq<seq<Op>>)
    decreases |queue|
  {
    queue == [] || (Meanings(db, queue[0]).Some? && Drain(db, queue[0]) == Meanings(db, queue[0])
                    && DrainsAsMeant(Meanings(db, queue[0]).value, queue[1..]))
  }

  /** No migration repeating an action id is enough. */
  lemma {:induction false} DistinctDrainsAsMeant(db: Relations, queue: seq<seq<Op>>)
    requires Meanings(db, Flat(queue)).Some? && forall i :: 0 <= i < |queue| ==> DistinctActions(queue[i])
    ensures DrainsAsMeant(db, queue)
    decreases |queue|
  {
    if queue != [] {
      MeaningsConcat(db, queue[0], Flat(queue[1..]));
      DrainMeans(db, queue[0]);
      hide Drain, DistinctActions;
      DistinctDrainsAsMeant(Meanings(db, queue[0]).value, queue[1..]);
    }
  }

  lemma {:induction false} DrainAllMeans(db: Relations, queue: seq<seq<Op>>, k: nat)
    requires DrainsAsMeant(db, queue) && k <= |queue|
    ensures Meanings(db, Flat(queue)).Some? && DrainAll(db, queue[..k]) == Meanings(db, Flat(queue[..k]))
    ensures var d := DrainAll(db, queue[..k]); d.Some? && Meanings(d.value, Flat(queue[k..])) == Meanings(db, Flat(queue))
    decreases |queue|
  {
    hide Drain, Meaning;
    if queue != [] {
      MeaningsConcat(db, queue[0], Flat(queue[1..]));
      var next := Meanings(db, queue[0]).value;
      if k > 0 {
        DrainAllMeans(next, queue[1..], k - 1);
        assert queue[..k][1..] == queue[1..][..k - 1] && queue[1..][k - 1..] == queue[k..];
        MeaningsConcat(db, queue[0], Flat(queue[1..][..k - 1]));
      } else {
        DrainAllMeans(next, queue[1..], 0);
        assert queue[..0] == [] && queue[0..] == queue;
      }
    } else {
      assert queue[..k] == queue && queue[k..] == queue;
    }
  }

  /** Nothing less will do: each migration drains as meant exactly when every prefix of the queue does. */
  lemma DrainsAsMeantIff(db: Relations, queue: seq<seq<Op>>)
    requires Meanings(db, Flat(queue)).Some?
    ensures DrainsAsMeant(db, queue) <==> forall k :: 0 <= k <= |queue| ==> DrainAll(db, queue[..k]) == Meanings(db, Flat(queue[..k]))
  {
    hide Drain, DrainAll, Meanings, DrainsAsMeant, Flat;
    if DrainsAsMeant(db, queue) {
      forall k | 0 <= k <= |queue| ensures DrainAll(db, queue[..k]) == Meanings(db, Flat(queue[..k])) {
        DrainAllMeans(db, queue, k);
      }
    } else {
      var k := FirstWrong(db, queue);
      assert 0 <= k <= |queue|;
    }
  }

  /** The first migration that drains otherwise shows at once. */
  lemma {:induction false} FirstWrong(db: Relations, queue: seq<seq<Op>>) returns (k: nat)
    requires Meanings(db, Flat(queue)).Some? && !DrainsAsMeant(db, queue)
    ensures k <= |queue| && DrainAll(db, queue[..k]) != Meanings(db, Flat(queue[..k]))
    decreases |queue|
  {
    hide Drain, Meaning;
    MeaningsConcat(db, queue[0], Flat(queue[1..]));
    var next := Meanings(db, queue[0]).value;
    if Drain(db, queue[0]) == Some(next) {
      k := FirstWrong(next, queue[1..]);
      MeaningsConcat(db, queue[0], Flat(queue[1..][..k]));
      assert queue[..k + 1][1..] == queue[1..][..k];
      k := k + 1;
    } else {
      k := 1;
      OneMigration(db, queue[0]);
      assert queue[..1] == [queue[0]];
    }
  }

  lemma OneMigration(db: Relations, ops: seq<Op>)
    ensures DrainAll(db, [ops]) == Drain(db, ops) && Flat([ops]) == ops
  {
    hide Drain;
    assert [ops][1..] == [] && Flat([]) == [] && ops + [] == ops;
    assert forall d :: DrainAll(d, []) == Some(d);
  }

  /**
   * Contraction never changes what the views expose: however the queue is split into a drained prefix
   * and a replayed rest, every exposed table and column is the same relation and column.
   */
  lemma ReplayCommutesWithDrain(db: Relations, queue: seq<seq<Op>>, k: nat)
    requires DrainsAsMeant(db, queue) && k <= |queue|
    ensures Meanings(db, Flat(queue)).Some?
    ensures var v := Meanings(db, Flat(queue)).value;
            && Exposes(db, queue, v)
            && DrainAll(db, queue[..k]).Some? && Exposes(DrainAll(db, queue[..k]).value, queue[k..], v)
  {
    hide Drain, DrainsAsMeant, Resolves, Views, Read, Meanings, Starts, DrainAll, Flat;
    DrainAllMeans(db, queue, k);
    ReadShowsAll(db);
    StartsShow(db, Read(db), Flat(queue));
    var d := DrainAll(db, queue[..k]).value;
    ReadShowsAll(d);
    StartsShow(d, Read(d), Flat(queue[k..]));
  }

  // ----- The loops themselves -----

  lemma {:induction false} StartsConcat(s: Virtual, a: seq<Op>, b: seq<Op>)
    ensures Starts(s, a + b) == if Starts(s, a).Some? then Starts(Starts(s, a).value, b) else None
    decreases |a|
  {
    if a == [] {
      assert a + b == b;
    } else {
      assert (a + b)[0] == a[0] && (a + b)[1..] == a[1..] + b;
      if Start(s, a[0]).Some? {
        StartsConcat(Start(s, a[0]).value, a[1..], b);
      }
    }
  }

  /** Runs Start on each operation against the in-memory schema only. */
  method UpdateVirtualSchema(s: Virtual, ops: seq<Op>) returns (after: Option<Virtual>)
    ensures after == Starts(s, ops)
  {
    var work := s;
    for i := 0 to |ops|
      invariant Starts(s, ops) == Starts(work, ops[i..])
    {
      assert ops[i..][1..] == ops[i + 1..];
      var next := Start(work, ops[i]);
      if next.None? {
        return None;
      }
      work := next.value;
    }
    return Some(work);
  }

  /** The physical read with every deferred migration replayed over it, oldest first. */
  method ReadSchemaWithDeferred(db: Relations, queue: seq<seq<Op>>) returns (s: Option<Virtual>)
    ensures s == Starts(Read(db), Flat(queue))
  {
    var work := Read(db);
    for i := 0 to |queue|
      invariant Starts(Read(db), Flat(queue)) == Starts(work, Flat(queue[i..]))
    {
      assert queue[i..][1..] == queue[i + 1..];
      StartsConcat(work, queue[i], Flat(queue[i + 1..]));
      var next := UpdateVirtualSchema(work, queue[i]);
      if next.None? {
        return None;
      }
      work := next.value;
    }
    return Some(work);
  }

  /** Collects the Complete actions of a migration in operation order. */
  method CollectActions(s: Tables<string>, ops: seq<Op>) returns (r: Option<seq<C.Action<DDL>>>)
    ensures r == Completes(s, ops)
  {
    var work, actions: seq<C.Action<DDL>> := s, [];
    assert ops[0..] == ops;
    assert Completes(s, ops).Some? ==> actions + Completes(s, ops).value == Completes(s, ops).value;
    for i := 0 to |ops|
      invariant Completes(s, ops) == if Completes(work, ops[i..]).Some? then Some(actions + Completes(work, ops[i..]).value) else None
    {
      assert ops[i..][1..] == ops[i + 1..];
      var pair := Complete(work, ops[i]);
      if pair.None? {
        return None;
      }
      hide Complete;
      assert forall rest: seq<C.Action<DDL>> :: actions + ([ActionFor(pair.value.1)] + rest) == (actions + [ActionFor(pair.value.1)]) + rest;
      work, actions := pair.value.0, actions + [ActionFor(pair.value.1)];
    }
    assert actions + [] == actions;
    return Some(actions);
  }

  /** Drains one deferred migration against the physical schema. */
  method DrainDeferredMigration(db: Relations, ops: seq<Op>) returns (after: Option<Relations>)
    ensures after == Drain(db, ops)
  {
    var collected := CollectActions(ReadNames(db), ops);
    if collected.None? {
      return None;
    }
    var c := C.NewCoordinator(collected.value);
    C.BuiltCoordinates(collected.value);
    var outcome := C.Execute(collected.value, c);
    var run := outcome.run;
    assert run == C.Effective(c);
    var work := db;
    for i := 0 to |run|
      invariant ExecAll(db, run) == ExecAll(work, run[i..])
    {
      assert run[i..][1..] == run[i + 1..];
      var next := Exec(work, run[i].body);
      if next.None? {
        return None;
      }
      work := next.value;
    }
    return Some(work);
  }
}
