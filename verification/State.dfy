/** The stored history of one schema and the statements that change it. */
module State {
  import opened Database
  import opened History
  import NameOrder
  import Rebaseline

  datatype ConvertResult = AlreadyBaseline | Ready | Refused

  class MigrationTable {
    var rows: seq<Row>

    constructor ()
      ensures rows == [] && Linear(rows)
    {
      rows := [];
    }

    /** The table as it stands in the database. */
    constructor At(rows: seq<Row>)
      ensures this.rows == rows
    {
      this.rows := rows;
    }

    /** The name of the leaf, or none; history is linear, so it is the last row. */
    method LatestMigration() returns (latest: Option<string>)
      requires Linear(rows)
      ensures latest == ParentAt(rows, |rows|)
      ensures latest.Some? ==> exists r :: IsLeaf(rows, r) && r.name == latest.value
    {
      latest := None;
      if |rows| > 0 {
        LeafIsLast(rows, rows[|rows| - 1]);
        latest := Some(rows[|rows| - 1].name);
      }
    }

    /** Rows not yet sealed, newest first. */
    method UnsealedMigrations() returns (open: seq<Row>)
      ensures open == Unsealed(rows)
      ensures forall r :: r in open <==> r in rows && !r.sealed
    {
      open := [];
      for i := 0 to |rows|
        invariant open == Unsealed(rows[..i])
      {
        assert rows[..i + 1][..i] == rows[..i];
        if !rows[i].sealed {
          open := [rows[i]] + open;
        }
      }
      assert rows[..|rows|] == rows;
      UnsealedMembers(rows);
    }

    /** Inserts the active row under the current leaf. Refused by the indexes when one is active already. */
    method Start(name: string, migration: Migration, now: int) returns (ok: bool)
      requires Linear(rows) && forall r | r in rows :: r.createdAt < now
      modifies this
      ensures Linear(rows)
      ensures ok <==> name !in RowNames(old(rows)) && forall r | r in old(rows) :: r.done
      ensures rows == if ok then Apply(Table(old(rows)), Insert(NewRow(old(rows), name, migration, now))).rows else old(rows)
    {
      ok := name !in RowNames(rows) && forall r | r in rows :: r.done;
      if ok {
        LinearAppend(rows, NewRow(rows, name, migration, now));
        rows := rows + [NewRow(rows, name, migration, now)];
      }
    }

    /** Marks the active row done, with its Complete run inline or queued. */
    method Complete(name: string, defer: bool) returns (ok: bool)
      requires Linear(rows)
      modifies this
      ensures Linear(rows)
      ensures ok <==> exists r :: r in old(rows) && r.name == name && !r.done
      ensures rows == Apply(Table(old(rows)), if defer then SetDeferred(name) else SetDone(name)).rows
    {
      ok := exists r :: r in rows && r.name == name && !r.done;
      LinearSameChain(rows, Updated(rows, name, if defer then MarkDeferred else MarkDone));
      rows := Updated(rows, name, if defer then MarkDeferred else MarkDone);
    }

    method ClearCompleteDeferred(name: string)
      requires Linear(rows)
      modifies this
      ensures Linear(rows) && rows == Apply(Table(old(rows)), UnsetDeferred(name)).rows
    {
      LinearSameChain(rows, Updated(rows, name, ClearDeferred));
      rows := Updated(rows, name, ClearDeferred);
    }

    method MarkSealed() returns (stamped: nat)
      requires Linear(rows)
      modifies this
      ensures Linear(rows) && rows == Apply(Table(old(rows)), Seal).rows
      ensures forall r | r in rows :: r.done ==> r.sealed
      ensures stamped == CountOpen(old(rows)) - CountOpen(rows)
    {
      CountSealed(rows);
      LinearSameChain(rows, Sealed(rows));
      var before := rows;
      rows := Sealed(rows);
      stamped := CountOpen(before) - CountOpen(rows);
    }

    /** Removes a row whatever its state; the parent foreign key refuses a row that has a child. */
    method DeleteMigration(name: string) returns (ok: bool)
      requires Linear(rows)
      modifies this
      ensures Linear(rows)
      ensures ok <==> ParentAt(old(rows), |old(rows)|) == Some(name)
      ensures rows == Apply(Table(old(rows)), DeleteRow(name)).rows
      ensures rows == if ok then old(rows)[..|old(rows)| - 1] else old(rows)
    {
      DeletableIsLeaf(rows, name);
      hide Linear, Keep, Updated, Sealed, Pruned, Rebaseline.Converted, Deletable;
      ok := Deletable(rows, name);
      if ok {
        LinearPrefix(rows, |rows| - 1);
        rows := Keep(rows, {name});
      }
    }

    /**
     * Deletes the named rows and rewires the parent chain across the gaps. Fails, changing nothing,
     * when a name is missing or repeated.
     */
    method Prune(names: seq<string>) returns (ok: bool)
      requires Linear(rows)
      modifies this
      ensures Linear(rows)
      ensures ok <==> CanPrune(old(rows), names)
      ensures rows == if ok then Apply(Table(old(rows)), PruneRows(NameSet(names))).rows else old(rows)
    {
      hide *;
      CountMatches(rows, names);
      var found := CountNamed(rows, NameSet(names));
      if found != |names| {
        return false;
      }
      PruneLinear(rows, NameSet(names));
      PrunedIs(rows, NameSet(names));
      var kept := Keep(rows, NameSet(names));
      rows := Rewire(kept);
      return true;
    }

    /** Audits the history around the anchor and, unless it is a dry run, flips the anchor's type. */
    method ConvertMigrationToBaseline(name: string, dryRun: bool) returns (result: ConvertResult)
      requires Linear(rows)
      modifies this
      ensures Linear(rows)
      ensures result.AlreadyBaseline? <==> exists r :: r in old(rows) && r.name == name && r.kind == Baseline
      ensures result.Ready? <==> exists r :: r in old(rows) && r.name == name && Rebaseline.AuditsPass(old(rows), r)
      ensures rows == if result.Ready? && !dryRun then Apply(Table(old(rows)), ToBaseline(name)).rows else old(rows)
    {
      if !exists r :: r in rows && r.name == name {
        return Refused;
      }
      var a :| a in rows && a.name == name;
      OnlyRow(rows, a);
      if a.kind == Baseline {
        return AlreadyBaseline;
      }
      var contracted := AuditContraction(rows, a);
      var agree := AuditOrder(rows, a);
      hide Rebaseline.Contracted, Rebaseline.CutsAgree;
      if a.kind == Inferred || !contracted || !agree {
        return Refused;
      }
      if !dryRun {
        LinearSameChain(rows, Rebaseline.Converted(rows, name));
        rows := Rebaseline.Converted(rows, name);
      }
      return Ready;
    }
  }

  /** The anchor is contracted, nothing is active, and nothing at or below it is still open. */
  method AuditContraction(rows: seq<Row>, a: Row) returns (pass: bool)
    ensures pass <==> Rebaseline.Contracted(rows, a)
  {
    if !a.done || !a.sealed || a.deferred {
      return false;
    }
    var active := exists r :: r in rows && !r.done;
    if active {
      return false;
    }
    var unsealed := exists r :: r in rows && r.name != a.name && (!r.sealed || r.deferred) && r.createdAt <= a.createdAt;
    return !unsealed;
  }

  /** No later baseline, no hidden later name, no visible earlier name. */
  method AuditOrder(rows: seq<Row>, a: Row) returns (pass: bool)
    ensures pass <==> Rebaseline.CutsAgree(rows, a)
  {
    var laterBaselines := exists r :: r in rows && r.kind == Baseline && r.createdAt >= a.createdAt;
    var hiddenLaterNames := exists r :: r in rows && r.name != a.name && r.kind != Inferred
                                        && r.createdAt <= a.createdAt && NameOrder.Less(a.name, r.name);
    var appliedEarlierNames := exists r :: r in rows && r.name != a.name && r.kind != Inferred
                                           && r.createdAt > a.createdAt && NameOrder.Leq(r.name, a.name);
    return !laterBaselines && !hiddenLaterNames && !appliedEarlierNames;
  }

  /** The row is there, and no other names it as its parent. */
  predicate Deletable(rows: seq<Row>, name: string)
  {
    (exists r :: r in rows && r.name == name) && forall c | c in rows :: c.parent != Some(name)
  }

  /** A row may be deleted under the foreign key exactly when it is the leaf. */
  lemma DeletableIsLeaf(rows: seq<Row>, name: string)
    requires Linear(rows)
    ensures Deletable(rows, name) <==> ParentAt(rows, |rows|) == Some(name)
    ensures ParentAt(rows, |rows|) == Some(name) ==> Keep(rows, {name}) == rows[..|rows| - 1]
  {
    if rows != [] {
      var k := |rows| - 1;
      LeafIsLast(rows, rows[k]);
      if r :| r in rows && r.name == name {
        LeafIsLast(rows, r);
        OnlyRow(rows, r);
        OnlyRow(rows, rows[k]);
      }
      assert rows == rows[..k] + rows[k..];
      if rows[k].name == name {
        KeepPrefix(rows[..k], rows[k..], {name});
      }
    }
  }

  lemma OnlyRow(rows: seq<Row>, a: Row)
    requires Linear(rows) && a in rows
    ensures forall r | r in rows && r.name == a.name :: r == a
  {
  }

  function NewRow(rows: seq<Row>, name: string, migration: Migration, now: int): Row
  {
    Row(name, ParentAt(rows, |rows|), now, false, false, false, Pgroll, migration, false, false)
  }

  /** The table on its own: what a statement does to it does not depend on the rest of the database. */
  function Table(rows: seq<Row>): DB
  {
    DB(rows, [], [])
  }

  lemma PrunedIs(rows: seq<Row>, names: set<string>)
    ensures Apply(Table(rows), PruneRows(names)).rows == Pruned(rows, names) == Rewire(Keep(rows, names))
  {
    hide Keep, Rewire;
  }

  /** The rows not yet sealed, newest first. */
  function Unsealed(rows: seq<Row>): seq<Row>
  {
    if rows == [] then [] else (if rows[|rows| - 1].sealed then [] else [rows[|rows| - 1]]) + Unsealed(rows[..|rows| - 1])
  }

  lemma {:induction false} UnsealedMembers(rows: seq<Row>)
    ensures forall r :: r in Unsealed(rows) <==> r in rows && !r.sealed
    ensures |Unsealed(rows)| == CountOpen(rows)
  {
    if rows != [] {
      var k := |rows| - 1;
      UnsealedMembers(rows[..k]);
      assert rows == rows[..k] + [rows[k]];
    }
  }

  /** How many rows are unsealed. */
  function CountOpen(rows: seq<Row>): nat
  {
    if rows == [] then 0 else CountOpen(rows[..|rows| - 1]) + if rows[|rows| - 1].sealed then 0 else 1
  }

  lemma {:induction false} CountSealed(rows: seq<Row>)
    ensures CountOpen(Sealed(rows)) <= CountOpen(rows)
  {
    if rows != [] {
      var k := |rows| - 1;
      assert Sealed(rows)[..k] == Sealed(rows[..k]);
      CountSealed(rows[..k]);
    }
  }
}
