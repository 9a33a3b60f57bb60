/** The in-memory schema: tables by virtual name, soft deletion, and the shadow stacks renames need. */
module SchemaTables {
  import opened History

  /** A table, or a column, with its soft-delete marker. */
  datatype Entry<T> = Entry(value: T, deleted: bool)

  /** Tables by name; `shadowed` keeps soft-deleted tables whose name a rename took over. */
  datatype Tables<T> = Tables(tables: map<string, Entry<T>>, shadowed: map<string, seq<Entry<T>>>)
  {
    /** GetTable finds only what is not deleted. */
    predicate Has(name: string)
    {
      name in tables && !tables[name].deleted
    }

    function Stack(name: string): seq<Entry<T>>
    {
      if name in shadowed then shadowed[name] else []
    }

    function Remove(name: string): Tables<T>
    {
      if name in tables then Tables(tables[name := tables[name].(deleted := true)], shadowed) else this
    }

    function UnRemove(name: string): Tables<T>
    {
      if name in tables then Tables(tables[name := tables[name].(deleted := false)], shadowed) else this
    }

    function Add(name: string, t: T): Tables<T>
    {
      Tables(tables[name := Entry(t, false)], shadowed)
    }

    /** The rename proper: the target name's soft-deleted table is shadowed, the source name's latest restored. */
    function Rename(from: string, to: string): Tables<T>
      requires Has(from) && !Has(to)
    {
      var pushed := if to in tables then shadowed[to := Stack(to) + [tables[to]]] else shadowed;
      var moved := tables[to := tables[from]] - {from};
      var stack := if from in pushed then pushed[from] else [];
      if stack != [] then Tables(moved[from := stack[|stack| - 1]], pushed[from := stack[..|stack| - 1]])
      else Tables(moved, pushed)
    }

    /** A name with shadowed tables is occupied, and everything shadowed is deleted. */
    ghost predicate Valid()
    {
      && (forall n :: Stack(n) != [] ==> n in tables)
      && (forall n, i :: 0 <= i < |Stack(n)| ==> Stack(n)[i].deleted)
    }
  }

  /** The same table map and the same stacks; a missing stack and an empty one are the same. */
  ghost predicate Same<T>(a: Tables<T>, b: Tables<T>)
  {
    a.tables == b.tables && forall n :: a.Stack(n) == b.Stack(n)
  }

  lemma RenameTablesAre<T>(s: Tables<T>, from: string, to: string)
    requires s.Has(from) && !s.Has(to)
    ensures var r := s.Rename(from, to);
            && r.tables == RenamedTables(s.tables, s.Stack(from), from, to)
            && (forall n :: r.Stack(n) == if n == to && to in s.tables then s.Stack(to) + [s.tables[to]]
                                          else if n == from && s.Stack(from) != [] then s.Stack(from)[..|s.Stack(from)| - 1]
                                          else s.Stack(n))
  {
  }

  lemma RenameValid<T>(s: Tables<T>, from: string, to: string)
    requires s.Valid() && s.Has(from) && !s.Has(to)
    ensures s.Rename(from, to).Valid()
    ensures s.Rename(from, to).Has(to) && !s.Rename(from, to).Has(from)
  {
    RenameTablesAre(s, from, to);
  }

  /** What can be seen after a rename: the table under its new name, and everything else as it was. */
  lemma RenameLive<T>(s: Tables<T>, from: string, to: string)
    requires s.Valid() && s.Has(from) && !s.Has(to)
    ensures var r := s.Rename(from, to);
            && (forall n :: r.Has(n) <==> (n == to || s.Has(n)) && n != from)
            && (forall n | r.Has(n) :: n in r.tables && (n == to || n in s.tables)
                                       && r.tables[n] == if n == to then s.tables[from] else s.tables[n])
  {
    RenameValid(s, from, to);
    RenameTablesAre(s, from, to);
    hide Tables.Rename;
  }

  /** The table map of a rename, from the stack of its source name. */
  function RenamedTables<T>(tables: map<string, Entry<T>>, stack: seq<Entry<T>>, from: string, to: string): map<string, Entry<T>>
    requires from in tables
  {
    var moved := tables[to := tables[from]];
    if stack != [] then moved[from := stack[|stack| - 1]] else moved - {from}
  }

  lemma MapBack<T>(tables: map<string, Entry<T>>, stack: seq<Entry<T>>, from: string, to: string, was: seq<Entry<T>>)
    requires from in tables && from != to && (to in tables ==> was != [] && was[|was| - 1] == tables[to]) && (to !in tables ==> was == [])
    ensures RenamedTables(RenamedTables(tables, stack, from, to), was, to, from) == tables
  {
    var there := RenamedTables(tables, stack, from, to);
    assert there[to] == tables[from];
    var back := RenamedTables(there, was, to, from);
    assert back.Keys == tables.Keys;
  }

  lemma BackTables<T>(s: Tables<T>, r: Tables<T>, from: string, to: string)
    requires s.Valid() && s.Has(from) && !s.Has(to) && r == s.Rename(from, to) && r.Has(to) && !r.Has(from)
    ensures r.Rename(to, from).tables == s.tables
  {
    RenameTablesAre(s, from, to);
    RenameTablesAre(r, to, from);
    hide Tables.Rename, RenamedTables;
    MapBack(s.tables, s.Stack(from), from, to, r.Stack(to));
  }

  lemma BackStacks<T>(s: Tables<T>, r: Tables<T>, from: string, to: string, n: string)
    requires s.Valid() && s.Has(from) && !s.Has(to) && r == s.Rename(from, to) && r.Has(to) && !r.Has(from)
    ensures r.Rename(to, from).Stack(n) == s.Stack(n)
  {
    RenameTablesAre(s, from, to);
    RenameTablesAre(r, to, from);
    hide Tables.Rename;
    if n == to {
      assert to in s.tables ==> r.Stack(to) == s.Stack(to) + [s.tables[to]];
      assert to !in s.tables ==> s.Stack(to) == [];
    } else if n == from {
      assert s.Stack(from) != [] ==> r.tables[from] == s.Stack(from)[|s.Stack(from)| - 1];
    }
  }

  /** Renaming back undoes a rename exactly, shadow stacks included. */
  lemma RenameBack<T>(s: Tables<T>, from: string, to: string)
    requires s.Valid() && s.Has(from) && !s.Has(to)
    ensures var r := s.Rename(from, to); r.Has(to) && !r.Has(from) && Same(r.Rename(to, from), s)
  {
    var r := s.Rename(from, to);
    RenameValid(s, from, to);
    BackTables(s, r, from, to);
    hide Tables.Rename;
    forall n ensures r.Rename(to, from).Stack(n) == s.Stack(n) {
      BackStacks(s, r, from, to, n);
    }
  }

  // ----- Sequences of starts and their rollbacks -----

  datatype TableOp = OpDropTable(name: string) | OpRenameTable(from: string, to: string)

  /** The effect of Start on the schema; none when it fails. */
  function StartOp<T>(s: Tables<T>, op: TableOp): Option<Tables<T>>
  {
    match op
    case OpDropTable(name) => if s.Has(name) then Some(s.Remove(name)) else None
    case OpRenameTable(from, to) => if s.Has(from) && !s.Has(to) then Some(s.Rename(from, to)) else None
  }

  /**
   * The effect of Rollback; none when it would dereference a missing table. A rename that cannot be
   * undone is left as it is: its error is dropped.
   */
  function RollbackOp<T>(s: Tables<T>, op: TableOp): Option<Tables<T>>
  {
    match op
    case OpDropTable(name) => if s.UnRemove(name).Has(name) then Some(s.UnRemove(name)) else None
    case OpRenameTable(from, to) => if s.Has(to) && !s.Has(from) then Some(s.Rename(to, from)) else Some(s)
  }

  function Starts<T>(s: Tables<T>, ops: seq<TableOp>): Option<Tables<T>>
    decreases |ops|
  {
    if ops == [] then Some(s) else
      match StartOp(s, ops[0])
      case None => None
      case Some(next) => Starts(next, ops[1..])
  }

  /** Newest first. */
  function Rollbacks<T>(s: Tables<T>, ops: seq<TableOp>): Option<Tables<T>>
    decreases |ops|
  {
    if ops == [] then Some(s) else
      match Rollbacks(s, ops[1..])
      case None => None
      case Some(next) => RollbackOp(next, ops[0])
  }

  lemma StartKeepsValid<T>(s: Tables<T>, op: TableOp)
    requires s.Valid() && StartOp(s, op).Some?
    ensures StartOp(s, op).value.Valid()
  {
    if op.OpRenameTable? {
      RenameValid(s, op.from, op.to);
    } else {
      assert forall n :: s.Remove(op.name).Stack(n) == s.Stack(n);
    }
  }

  lemma RollbackOne<T>(s: Tables<T>, op: TableOp)
    requires s.Valid() && StartOp(s, op).Some?
    ensures var b := RollbackOp(StartOp(s, op).value, op); b.Some? && Same(b.value, s)
  {
    if op.OpRenameTable? {
      RenameBack(s, op.from, op.to);
      hide Tables.Rename;
    } else {
      assert s.Remove(op.name).UnRemove(op.name).tables == s.tables;
    }
  }

  /** Rolling back looks at nothing beyond the table map and the stacks. */
  lemma RollbackSame<T>(a: Tables<T>, b: Tables<T>, op: TableOp)
    requires Same(a, b)
    ensures RollbackOp(a, op).Some? == RollbackOp(b, op).Some?
    ensures RollbackOp(a, op).Some? ==> Same(RollbackOp(a, op).value, RollbackOp(b, op).value)
  {
    if op.OpRenameTable? && a.Has(op.to) && !a.Has(op.from) {
      RenameTablesAre(a, op.to, op.from);
      RenameTablesAre(b, op.to, op.from);
      hide Tables.Rename;
      assert forall n :: a.Rename(op.to, op.from).Stack(n) == b.Rename(op.to, op.from).Stack(n);
    } else if op.OpDropTable? {
      assert forall n :: a.UnRemove(op.name).Stack(n) == a.Stack(n) && b.UnRemove(op.name).Stack(n) == b.Stack(n);
    }
  }

  /**
   * Any sequence of drops and renames that starts, renames onto soft-deleted names included, is
   * undone exactly by the rollbacks in reverse order, and no rollback meets a missing table.
   */
  lemma {:induction false} RollbacksUndoStarts<T>(s: Tables<T>, ops: seq<TableOp>)
    requires s.Valid() && Starts(s, ops).Some?
    ensures Starts(s, ops).value.Valid()
    ensures var b := Rollbacks(Starts(s, ops).value, ops); b.Some? && Same(b.value, s)
    decreases |ops|
  {
    if ops != [] {
      hide Same;
      var next := StartOp(s, ops[0]).value;
      StartKeepsValid(s, ops[0]);
      RollbackOne(s, ops[0]);
      RollbacksUndoStarts(next, ops[1..]);
      var back := Rollbacks(Starts(s, ops).value, ops[1..]).value;
      hide StartOp, RollbackOp;
      RollbackSame(back, next, ops[0]);
      SameTransitive(RollbackOp(back, ops[0]).value, RollbackOp(next, ops[0]).value, s);
    } else {
      SameReflexive(s);
    }
  }

  lemma SameTransitive<T>(a: Tables<T>, b: Tables<T>, c: Tables<T>)
    requires Same(a, b) && Same(b, c)
    ensures Same(a, c)
  {
  }

  lemma SameReflexive<T>(a: Tables<T>)
    ensures Same(a, a)
  {
  }

  /** A shadow stack over a free name breaks the undo: the invariant is needed. */
  lemma FreeNameWithStackIsNotUndone<T>(t: T, x: T)
    ensures var s := Tables(map["a" := Entry(t, false)], map["b" := [Entry(x, true)]]);
            && !s.Valid() && s.Has("a") && !s.Has("b")
            && !Same(s.Rename("a", "b").Rename("b", "a"), s)
  {
    var s := Tables(map["a" := Entry(t, false)], map["b" := [Entry(x, true)]]);
    assert s.Stack("b") != [];
    RenameTablesAre(s, "a", "b");
    var r := s.Rename("a", "b");
    assert r.Has("b") && !r.Has("a");
    RenameTablesAre(r, "b", "a");
    assert "b" in r.Rename("b", "a").tables;
  }

  // ----- The mutable schema -----

  class Schema<T> {
    var tables: map<string, Entry<T>>
    var shadowed: map<string, seq<Entry<T>>>

    constructor (start: map<string, Entry<T>>)
      ensures State() == Tables(start, map[]) && State().Valid()
    {
      tables, shadowed := start, map[];
    }

    ghost function State(): Tables<T>
      reads this
    {
      Tables(tables, shadowed)
    }

    method RenameTable(from: string, to: string) returns (ok: bool)
      modifies this
      ensures ok <==> old(State()).Has(from) && !old(State()).Has(to)
      ensures State() == if ok then old(State()).Rename(from, to) else old(State())
    {
      if from !in tables || tables[from].deleted {
        return false;
      }
      if to in tables && !tables[to].deleted {
        return false;
      }
      if to in tables {
        var below := if to in shadowed then shadowed[to] else [];
        shadowed := shadowed[to := below + [tables[to]]];
      }
      var t := tables[from];
      tables := tables[to := t];
      tables := tables - {from};
      if from in shadowed && |shadowed[from]| > 0 {
        var stack := shadowed[from];
        tables := tables[from := stack[|stack| - 1]];
        shadowed := shadowed[from := stack[..|stack| - 1]];
      }
      return true;
    }

    method RemoveTable(name: string)
      modifies this
      ensures State() == old(State()).Remove(name)
    {
      if name in tables {
        tables := tables[name := tables[name].(deleted := true)];
      }
    }

    method UnRemoveTable(name: string)
      modifies this
      ensures State() == old(State()).UnRemove(name)
    {
      if name in tables {
        tables := tables[name := tables[name].(deleted := false)];
      }
    }

    /** Runs each operation's Start in order. */
    method StartAll(ops: seq<TableOp>) returns (ok: bool)
      modifies this
      ensures ok <==> Starts(old(State()), ops).Some?
      ensures ok ==> State() == Starts(old(State()), ops).value
    {
      for i := 0 to |ops|
        invariant Starts(old(State()), ops) == Starts(State(), ops[i..])
      {
        assert ops[i..][1..] == ops[i + 1..];
        match ops[i]
        case OpDropTable(name) =>
          if name !in tables || tables[name].deleted {
            return false;
          }
          RemoveTable(name);
        case OpRenameTable(from, to) =>
          var renamed := RenameTable(from, to);
          if !renamed {
            return false;
          }
      }
      return true;
    }

    /** Runs each operation's Rollback, newest first. */
    method RollbackAll(ops: seq<TableOp>) returns (ok: bool)
      modifies this
      ensures ok <==> Rollbacks(old(State()), ops).Some?
      ensures ok ==> State() == Rollbacks(old(State()), ops).value
    {
      var i := |ops|;
      while i > 0
        invariant 0 <= i <= |ops|
        invariant Rollbacks(old(State()), ops[i..]) == Some(State())
      {
        i := i - 1;
        assert ops[i..][1..] == ops[i + 1..];
        match ops[i]
        case OpDropTable(name) =>
          UnRemoveTable(name);
          if name !in tables {
            RollbackFails(old(State()), ops, i);
            return false;
          }
        case OpRenameTable(from, to) =>
          var ignored := RenameTable(to, from);
      }
      assert ops[0..] == ops;
      return true;
    }
  }

  lemma {:induction false} RollbackFails<T>(s: Tables<T>, ops: seq<TableOp>, i: nat)
    requires i < |ops| && Rollbacks(s, ops[i..]).None?
    ensures Rollbacks(s, ops).None?
  {
    if i > 0 {
      assert ops[1..][i - 1..] == ops[i..];
      RollbackFails(s, ops[1..], i - 1);
    } else {
      assert ops[0..] == ops;
    }
  }
}
