/** The migrations table of one schema: its rows, its constraints and the surgery done on it. */
module History {

  datatype Option<+T> = None | Some(value: T)

  datatype Kind = Pgroll | Inferred | Baseline

  /** Operations as the lifecycle sees them: by the class of their Complete. */
  datatype OpClass =
    | Additive            // add column, create table, indexes, constraints
    | RawInline           // raw SQL run at Start time
    | Contracting         // drop, rename, alter: Complete waits until old views are gone
    | RawOnComplete       // raw SQL run at Complete time

  datatype Migration = Migration(ops: seq<OpClass>, irreversible: bool, revertOf: string, versionSchema: string)
  {
    /** Some operation's Complete must wait for the old version schema to go. */
    predicate CompleteMustBeDeferred()
    {
      exists i :: 0 <= i < |ops| && (ops[i].Contracting? || ops[i].RawOnComplete?)
    }

    /** Some operation is raw SQL: the views are refreshed after a full Complete. */
    predicate RequiresSchemaRefresh()
    {
      exists i :: 0 <= i < |ops| && (ops[i].RawInline? || ops[i].RawOnComplete?)
    }

    /** Some operation's Complete may invalidate the live views. */
    predicate CompleteRequiresLiveSchemaDrop()
    {
      exists i :: 0 <= i < |ops| && ops[i].RawOnComplete?
    }
  }

  /**
   * One row. The last two fields are history variables: whether a statement of the row's Complete
   * has run, and whether the row was completed by deferral.
   */
  datatype Row = Row(name: string, parent: Option<string>, createdAt: int, done: bool, deferred: bool, sealed: bool,
                     kind: Kind, migration: Migration, contracting: bool, viaDeferral: bool)
  {
    function VersionSchema(): string
    {
      if migration.versionSchema != "" then migration.versionSchema else name
    }
  }

  function RowNames(rows: seq<Row>): set<string>
  {
    set r | r in rows :: r.name
  }

  /** The name of the row before index `i`: what `parent` must be there. */
  function ParentAt(rows: seq<Row>, i: nat): Option<string>
    requires i <= |rows|
  {
    if i == 0 then None else Some(rows[i - 1].name)
  }

  /** Rows in `created_at` order forming one parent chain: what the table's indexes enforce. */
  ghost predicate Linear(rows: seq<Row>)
  {
    && (forall i, j :: 0 <= i < j < |rows| ==> rows[i].name != rows[j].name && rows[i].createdAt < rows[j].createdAt)
    && (forall i {:trigger ParentAt(rows, i)} :: 0 <= i < |rows| ==> rows[i].parent == ParentAt(rows, i))
  }

  /** A row nobody names as parent: the condition of the `latest_migration` query. */
  ghost predicate IsLeaf(rows: seq<Row>, r: Row)
  {
    r in rows && forall c | c in rows :: c.parent != Some(r.name)
  }

  /** On a linear history the query has exactly one answer, the last row. */
  lemma LeafIsLast(rows: seq<Row>, r: Row)
    requires Linear(rows) && rows != []
    ensures IsLeaf(rows, r) <==> r == rows[|rows| - 1]
  {
    var last := rows[|rows| - 1];
    forall c | c in rows ensures c.parent != Some(last.name) {
      var i :| 0 <= i < |rows| && rows[i] == c;
      assert c.parent == ParentAt(rows, i);
      assert i > 0 ==> rows[i - 1].name != last.name;
    }
    if r in rows && r != last {
      var i :| 0 <= i < |rows| && rows[i] == r;
      assert rows[i + 1] in rows && rows[i + 1].parent == ParentAt(rows, i + 1);
    }
  }

  lemma LinearPrefix(rows: seq<Row>, k: nat)
    requires Linear(rows) && k <= |rows|
    ensures Linear(rows[..k])
  {
    forall i | 0 <= i < k ensures rows[..k][i].parent == ParentAt(rows[..k], i) {
      assert rows[i].parent == ParentAt(rows, i);
    }
  }

  /** Inserting with `latest_migration` as parent and a later timestamp keeps the chain linear. */
  lemma LinearAppend(rows: seq<Row>, r: Row)
    requires Linear(rows) && r.name !in RowNames(rows) && r.parent == ParentAt(rows, |rows|)
    requires forall x | x in rows :: x.createdAt < r.createdAt
    ensures Linear(rows + [r])
  {
    var after := rows + [r];
    forall i | 0 <= i < |rows| ensures after[i].name != r.name && after[i].createdAt < r.createdAt {
      assert rows[i] in rows;
    }
    forall i | 0 <= i < |after| ensures after[i].parent == ParentAt(after, i) {
      assert ParentAt(after, i) == ParentAt(rows, i);
    }
  }

  // ----- What history queries see -----

  ghost predicate AfterBaselines(rows: seq<Row>, r: Row)
  {
    forall b | b in rows && b.kind == Baseline :: b.createdAt < r.createdAt
  }

  /** The `created_at` cut: strictly after every baseline, captured DDL left out on request. */
  ghost function Visible(rows: seq<Row>, excludeInferred: bool): (names: set<string>)
  {
    set r | r in rows && AfterBaselines(rows, r) && !(excludeInferred && r.kind == Inferred) :: r.name
  }

  ghost predicate IsLatestBaseline(rows: seq<Row>, b: Row)
  {
    b in rows && b.kind == Baseline && forall x | x in rows && x.kind == Baseline :: x.createdAt <= b.createdAt
  }

  /** What `LatestBaseline` reports by name; the empty string stands for none. */
  ghost predicate BaselineName(rows: seq<Row>, name: string)
  {
    if exists b :: IsLatestBaseline(rows, b) then exists b :: IsLatestBaseline(rows, b) && b.name == name
    else name == ""
  }

  // ----- Prune -----

  function Keep(rows: seq<Row>, names: set<string>): (r: seq<Row>)
    ensures forall x :: x in r <==> x in rows && x.name !in names
  {
    if rows == [] then [] else
      var k := |rows| - 1;
      assert rows == rows[..k] + [rows[k]];
      if rows[k].name in names then Keep(rows[..k], names) else Keep(rows[..k], names) + [rows[k]]
  }

  /** Each row's parent becomes the row before it (LAG over `created_at`). */
  function Rewire(rows: seq<Row>): (r: seq<Row>)
    ensures |r| == |rows|
    ensures forall i :: 0 <= i < |rows| ==> r[i] == rows[i].(parent := ParentAt(rows, i))
  {
    seq(|rows|, i requires 0 <= i < |rows| => rows[i].(parent := ParentAt(rows, i)))
  }

  function Pruned(rows: seq<Row>, names: set<string>): seq<Row>
  {
    Rewire(Keep(rows, names))
  }

  lemma KeepAppend(a: seq<Row>, x: Row, names: set<string>)
    ensures Keep(a + [x], names) == if x.name in names then Keep(a, names) else Keep(a, names) + [x]
  {
    assert (a + [x])[..|a|] == a;
  }

  /** Order and identity of the kept rows: Keep is a strictly increasing selection of indices. */
  lemma {:induction false} KeepIndices(rows: seq<Row>, names: set<string>) returns (at: seq<nat>)
    ensures |at| == |Keep(rows, names)|
    ensures forall i :: 0 <= i < |at| ==> at[i] < |rows| && rows[at[i]] == Keep(rows, names)[i]
    ensures forall i, j :: 0 <= i < j < |at| ==> at[i] < at[j]
  {
    at := [];
    if rows != [] {
      var k := |rows| - 1;
      at := KeepIndices(rows[..k], names);
      if rows[k].name !in names {
        at := at + [k];
      }
    }
  }

  /** Pruning a linear history leaves a linear history. */
  lemma PruneLinear(rows: seq<Row>, names: set<string>)
    requires Linear(rows)
    ensures Linear(Pruned(rows, names))
  {
    var at := KeepIndices(rows, names);
    var kept, r := Keep(rows, names), Pruned(rows, names);
    assert forall i :: 0 <= i < |r| ==> ParentAt(r, i) == ParentAt(kept, i);
  }

  /** Everything about the rows except their parents. */
  function Strip(rows: seq<Row>): (r: seq<Row>)
    ensures |r| == |rows|
    ensures forall i :: 0 <= i < |rows| ==> r[i] == rows[i].(parent := None)
  {
    seq(|rows|, i requires 0 <= i < |rows| => rows[i].(parent := None))
  }

  lemma StripRewire(rows: seq<Row>)
    ensures Strip(Rewire(rows)) == Strip(rows)
    ensures Rewire(Strip(rows)) == Rewire(rows)
  {
  }

  /** Exactly the kept rows, in the same order, and only parents change. */
  lemma PruneOnlyParents(rows: seq<Row>, names: set<string>)
    ensures Strip(Pruned(rows, names)) == Strip(Keep(rows, names))
  {
  }

  lemma StripAppend(a: seq<Row>, x: Row)
    ensures Strip(a + [x]) == Strip(a) + [x.(parent := None)]
  {
  }

  lemma {:induction false} KeepStrip(rows: seq<Row>, names: set<string>)
    ensures Keep(Strip(rows), names) == Strip(Keep(rows, names))
  {
    if rows != [] {
      var a, x := rows[..|rows| - 1], rows[|rows| - 1];
      assert rows == a + [x];
      KeepStrip(a, names);
      StripAppend(a, x);
      StripAppend(Keep(a, names), x);
      KeepAppend(a, x, names);
      KeepAppend(Strip(a), x.(parent := None), names);
      hide Keep, Strip;
    }
  }

  lemma {:induction false} KeepTwice(rows: seq<Row>, a: set<string>, b: set<string>)
    ensures Keep(Keep(rows, a), b) == Keep(rows, a + b)
  {
    if rows != [] {
      var k := |rows| - 1;
      KeepTwice(rows[..k], a, b);
      KeepAppend(Keep(rows[..k], a), rows[k], b);
    }
  }

  /** Pruning in two steps is pruning the union. */
  lemma PruneTwice(rows: seq<Row>, a: set<string>, b: set<string>)
    ensures Pruned(Pruned(rows, a), b) == Pruned(rows, a + b)
  {
    hide Keep, Strip, Rewire;
    var x := Keep(rows, a);
    StripRewire(x);
    KeepStrip(x, b);
    KeepStrip(Rewire(x), b);
    StripRewire(Keep(x, b));
    StripRewire(Keep(Rewire(x), b));
    KeepTwice(rows, a, b);
  }

  lemma {:induction false} KeepPrefix(prefix: seq<Row>, rest: seq<Row>, names: set<string>)
    requires forall r | r in prefix :: r.name !in names
    requires forall r | r in rest :: r.name in names
    ensures Keep(prefix + rest, names) == prefix
    decreases |prefix| + |rest|
  {
    if rest != [] {
      var k := |rest| - 1;
      assert prefix + rest == (prefix + rest[..k]) + [rest[k]];
      KeepPrefix(prefix, rest[..k], names);
      KeepAppend(prefix + rest[..k], rest[k], names);
      assert rest[k] in rest;
    } else if prefix != [] {
      var k := |prefix| - 1;
      assert prefix + rest == prefix[..k] + [prefix[k]];
      KeepPrefix(prefix[..k], [], names);
      assert prefix[..k] + [] == prefix[..k];
      KeepAppend(prefix[..k], prefix[k], names);
      assert prefix[k] in prefix;
    }
  }

  /** Pruning everything above a row restores the prefix exactly, parents included. */
  lemma PruneSuffix(rows: seq<Row>, names: set<string>, k: nat)
    requires Linear(rows) && k <= |rows|
    requires forall i :: 0 <= i < |rows| ==> (rows[i].name in names <==> i >= k)
    ensures Pruned(rows, names) == rows[..k]
  {
    assert rows == rows[..k] + rows[k..];
    KeepPrefix(rows[..k], rows[k..], names);
    forall i | 0 <= i < k ensures rows[..k][i].parent == ParentAt(rows[..k], i) {
      assert rows[i].parent == ParentAt(rows, i);
    }
  }

  // ----- Counting the rows a prune names -----

  function NameSet(names: seq<string>): set<string>
  {
    set n | n in names
  }

  function CountNamed(rows: seq<Row>, names: set<string>): nat
  {
    if rows == [] then 0 else
      var k := |rows| - 1;
      CountNamed(rows[..k], names) + if rows[k].name in names then 1 else 0
  }

  lemma {:induction false} CountIsCardinality(rows: seq<Row>, names: set<string>)
    requires forall i, j :: 0 <= i < j < |rows| ==> rows[i].name != rows[j].name
    ensures CountNamed(rows, names) == |RowNames(rows) * names|
  {
    if rows == [] {
      assert RowNames(rows) * names == {};
    } else {
      CountIsCardinality(rows[..|rows| - 1], names);
      NamesSplit(rows);
      hide RowNames;
      AddToIntersection(RowNames(rows[..|rows| - 1]), rows[|rows| - 1].name, names);
    }
  }

  lemma AddToIntersection(a: set<string>, n: string, names: set<string>)
    requires n !in a
    ensures |(a + {n}) * names| == |a * names| + if n in names then 1 else 0
  {
    assert (a + {n}) * names == if n in names then a * names + {n} else a * names;
  }

  lemma NamesSplit(rows: seq<Row>)
    requires rows != [] && forall i, j :: 0 <= i < j < |rows| ==> rows[i].name != rows[j].name
    ensures RowNames(rows) == RowNames(rows[..|rows| - 1]) + {rows[|rows| - 1].name}
    ensures rows[|rows| - 1].name !in RowNames(rows[..|rows| - 1])
  {
    var k := |rows| - 1;
    assert rows == rows[..k] + [rows[k]];
  }

  lemma {:induction false} NameSetCardinality(names: seq<string>)
    ensures |NameSet(names)| <= |names|
    ensures |NameSet(names)| == |names| <==> forall i, j :: 0 <= i < j < |names| ==> names[i] != names[j]
  {
    if names == [] {
      assert NameSet(names) == {};
    } else {
      var k := |names| - 1;
      NameSetCardinality(names[..k]);
      assert names == names[..k] + [names[k]];
      assert NameSet(names) == NameSet(names[..k]) + {names[k]};
      if names[k] in NameSet(names[..k]) {
        var i :| 0 <= i < k && names[i] == names[k];
      }
    }
  }

  /** A prune finds every name it was given, each once. */
  predicate CanPrune(rows: seq<Row>, names: seq<string>)
  {
    NameSet(names) <= RowNames(rows) && forall i, j :: 0 <= i < j < |names| ==> names[i] != names[j]
  }

  /** The count matches the request exactly when every name is there and none is repeated. */
  lemma CountMatches(rows: seq<Row>, names: seq<string>)
    requires Linear(rows)
    ensures CountNamed(rows, NameSet(names)) == |names| <==> CanPrune(rows, names)
  {
    CountIsCardinality(rows, NameSet(names));
    NameSetCardinality(names);
    var found := RowNames(rows) * NameSet(names);
    assert NameSet(names) == found + (NameSet(names) - RowNames(rows));
    if |found| == |names| {
      assert |NameSet(names) - RowNames(rows)| == 0;
    } else if NameSet(names) <= RowNames(rows) {
      assert found == NameSet(names);
    }
  }

  // ----- What each statement does to the rows -----

  /** UPDATE ... WHERE name = n: rows of that name change, the others stay. */
  function Updated(rows: seq<Row>, n: string, f: Row -> Row): (r: seq<Row>)
    ensures |r| == |rows|
    ensures forall i :: 0 <= i < |rows| ==> r[i] == if rows[i].name == n then f(rows[i]) else rows[i]
  {
    seq(|rows|, i requires 0 <= i < |rows| => if rows[i].name == n then f(rows[i]) else rows[i])
  }

  /** Stamps every done row. */
  function Sealed(rows: seq<Row>): (r: seq<Row>)
    ensures |r| == |rows|
    ensures forall i :: 0 <= i < |rows| ==> r[i] == rows[i].(sealed := rows[i].sealed || rows[i].done)
  {
    seq(|rows|, i requires 0 <= i < |rows| => rows[i].(sealed := rows[i].sealed || rows[i].done))
  }

  function MarkDone(r: Row): Row { if r.done then r else r.(done := true) }

  function MarkDeferred(r: Row): Row { if r.done then r else r.(done := true, deferred := true, viaDeferral := true) }

  function ClearDeferred(r: Row): Row { r.(deferred := false) }

  function Begin(r: Row): Row { r.(contracting := true) }

  /** The same table as far as names, order and parents go. */
  ghost predicate SameChain(a: seq<Row>, b: seq<Row>)
  {
    |a| == |b| && forall i :: 0 <= i < |a| ==> a[i].name == b[i].name && a[i].parent == b[i].parent && a[i].createdAt == b[i].createdAt
  }

  lemma LinearSameChain(a: seq<Row>, b: seq<Row>)
    requires SameChain(a, b) && Linear(a)
    ensures Linear(b)
  {
    forall i | 0 <= i < |b| ensures b[i].parent == ParentAt(b, i) {
      assert ParentAt(a, i) == ParentAt(b, i);
    }
  }
}
