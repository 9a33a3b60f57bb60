/** The lossless revert of the deployment in flight. */
module Revert {
  import opened History
  import opened State

  datatype TargetState = InProgress | Queued | Applied

  datatype Target = Target(name: string, state: TargetState, parent: Option<string>, migration: Migration)

  datatype TargetsResult =
    | Targets(targets: seq<Target>)
    | Advanced(leaf: Option<string>)
    | Captured(name: string)
    | Irreversible(name: string)
    | Stranded(name: string)
    | NotContiguous

  // ----- When the window can be reverted, and what it then holds -----

  /** Everything from this index on is unsealed; the row below it, if any, is sealed. */
  function OpenFrom(rows: seq<Row>): (k: nat)
    ensures k <= |rows|
    ensures forall i :: k <= i < |rows| ==> !rows[i].sealed
    ensures k > 0 ==> rows[k - 1].sealed
  {
    if rows == [] || rows[|rows| - 1].sealed then |rows| else OpenFrom(rows[..|rows| - 1])
  }

  /** The unsealed rows are a suffix of history. */
  predicate Contiguous(rows: seq<Row>)
  {
    forall i :: 0 <= i < OpenFrom(rows) ==> rows[i].sealed
  }

  /** Not captured DDL, not irreversible, and not contracted without having been sealed. */
  predicate Revertible(r: Row)
  {
    r.kind != Inferred && !r.migration.irreversible && !(r.done && !r.deferred && r.migration.CompleteMustBeDeferred())
  }

  /** Every unsealed row is revertible; a baseline may only be the oldest of them. */
  predicate Window(rows: seq<Row>)
  {
    && Contiguous(rows)
    && forall i :: OpenFrom(rows) <= i < |rows| ==>
         if rows[i].kind == Baseline then i == OpenFrom(rows) else Revertible(rows[i])
  }

  function StateOf(r: Row): TargetState
  {
    if !r.done then InProgress else if r.deferred then Queued else Applied
  }

  function TargetOf(r: Row): Target
  {
    Target(r.name, StateOf(r), r.parent, r.migration)
  }

  /** The non-baseline rows from index `k` on, newest first. */
  function TargetsFrom(rows: seq<Row>, k: nat): seq<Target>
    requires k <= |rows|
    decreases |rows| - k
  {
    if k == |rows| then [] else
      if rows[k].kind == Baseline then TargetsFrom(rows, k + 1) else TargetsFrom(rows, k + 1) + [TargetOf(rows[k])]
  }

  /** Above the oldest open row there is no baseline, so position `j` is the `j`-th row from the leaf. */
  lemma {:induction false} TargetsAt(rows: seq<Row>, k: nat)
    requires k <= |rows| && forall i :: k <= i < |rows| ==> rows[i].kind != Baseline
    ensures |TargetsFrom(rows, k)| == |rows| - k
    ensures forall j :: 0 <= j < |rows| - k ==> TargetsFrom(rows, k)[j] == TargetOf(rows[|rows| - 1 - j])
    decreases |rows| - k
  {
    if k < |rows| {
      TargetsAt(rows, k + 1);
    }
  }

  /** The targets form a parent-linked path that starts at the leaf, and none is a baseline. */
  lemma PathFromLeaf(rows: seq<Row>)
    requires Linear(rows) && Window(rows)
    ensures var ts := TargetsFrom(rows, OpenFrom(rows));
            && |ts| == |rows| - OpenFrom(rows) - (if OpenFrom(rows) < |rows| && rows[OpenFrom(rows)].kind == Baseline then 1 else 0)
            && (forall j :: 0 <= j < |ts| ==> ts[j] == TargetOf(rows[|rows| - 1 - j]) && rows[|rows| - 1 - j].kind != Baseline)
            && (forall j :: 0 <= j < |ts| - 1 ==> ts[j].parent == Some(ts[j + 1].name))
            && (ts != [] ==> ParentAt(rows, |rows|) == Some(ts[0].name))
  {
    hide *;
    var lo := WindowStart(rows);
    TargetsAt(rows, lo);
    NewestFirst(rows, TargetsFrom(rows, lo));
  }

  /** The newest rows as targets are linked by parents, from the leaf on. */
  lemma NewestFirst(rows: seq<Row>, ts: seq<Target>)
    requires Linear(rows) && |ts| <= |rows| && forall j :: 0 <= j < |ts| ==> ts[j] == TargetOf(rows[|rows| - 1 - j])
    ensures forall j :: 0 <= j < |ts| - 1 ==> ts[j].parent == Some(ts[j + 1].name)
    ensures ts != [] ==> ParentAt(rows, |rows|) == Some(ts[0].name)
  {
    hide Linear, StateOf;
    forall j | 0 <= j < |ts| - 1 ensures ts[j].parent == Some(ts[j + 1].name) {
      ParentIs(rows, |rows| - 1 - j);
    }
  }

  /** Where the targets start: above a baseline that is the oldest open row. */
  lemma WindowStart(rows: seq<Row>) returns (lo: nat)
    requires Window(rows)
    ensures lo == OpenFrom(rows) + (if OpenFrom(rows) < |rows| && rows[OpenFrom(rows)].kind == Baseline then 1 else 0) <= |rows|
    ensures TargetsFrom(rows, OpenFrom(rows)) == TargetsFrom(rows, lo) && forall i :: lo <= i < |rows| ==> rows[i].kind != Baseline
  {
    var k := OpenFrom(rows);
    lo := if k < |rows| && rows[k].kind == Baseline then k + 1 else k;
  }

  lemma ParentIs(rows: seq<Row>, i: nat)
    requires Linear(rows) && i < |rows|
    ensures rows[i].parent == if i == 0 then None else Some(rows[i - 1].name)
  {
    assert rows[i].parent == ParentAt(rows, i);
  }

  // ----- Counting -----

  lemma {:induction false} CountSuffix(rows: seq<Row>, i: nat)
    requires i <= |rows| && forall j :: i <= j < |rows| ==> !rows[j].sealed
    ensures CountOpen(rows) == |rows| - i + CountOpen(rows[..i])
  {
    if i < |rows| {
      var k := |rows| - 1;
      CountSuffix(rows[..k], i);
      assert rows[..k][..i] == rows[..i];
    } else {
      assert rows[..i] == rows;
    }
  }

  lemma {:induction false} CountZero(rows: seq<Row>)
    ensures CountOpen(rows) == 0 <==> forall i :: 0 <= i < |rows| ==> rows[i].sealed
  {
    if rows != [] {
      CountZero(rows[..|rows| - 1]);
    }
  }

  /** Having visited every unsealed row from `i` up is having visited them all exactly when the rest is sealed. */
  lemma VisitedAll(rows: seq<Row>, i: nat)
    requires i <= |rows| && forall j :: i <= j < |rows| ==> !rows[j].sealed
    ensures |rows| - i == CountOpen(rows) <==> forall j :: 0 <= j < i ==> rows[j].sealed
    ensures |rows| - i == CountOpen(rows) ==> OpenFrom(rows) == i && Contiguous(rows)
  {
    CountSuffix(rows, i);
    CountZero(rows[..i]);
    assert forall j :: 0 <= j < i ==> rows[..i][j] == rows[j];
  }

  /** A bad row inside the open suffix rules the window out. */
  lemma BadRow(rows: seq<Row>, i: nat)
    requires i < |rows| && forall j :: i <= j < |rows| ==> !rows[j].sealed
    requires rows[i].kind != Baseline && !Revertible(rows[i])
    ensures !Window(rows)
  {
    assert OpenFrom(rows) <= i;
  }

  lemma NotAll(rows: seq<Row>, i: nat)
    requires i < |rows| && (forall j :: i <= j < |rows| ==> !rows[j].sealed) && |rows| - i != CountOpen(rows)
    requires rows[i].kind == Baseline || i == 0 || rows[i - 1].sealed
    ensures !Window(rows)
  {
    VisitedAll(rows, i);
    var j :| 0 <= j < i && !rows[j].sealed;
    if Contiguous(rows) {
      assert OpenFrom(rows) <= j;
      assert rows[i - 1].sealed ==> i - 1 < j;
    }
  }

  /** The walk from the leaf towards the parents, over the unsealed rows. */
  method RevertTargets(t: MigrationTable) returns (r: TargetsResult)
    requires Linear(t.rows)
    ensures r.Targets? <==> Window(t.rows)
    ensures r.Targets? ==> r.targets == TargetsFrom(t.rows, OpenFrom(t.rows))
  {
    var rows := t.rows;
    var records := t.UnsealedMigrations();
    UnsealedMembers(rows);
    CountZero(rows);
    if |records| == 0 {
      return Targets([]);
    }
    var byName := ByName(rows, records);
    var latest := t.LatestMigration();
    if latest.None? || latest.value !in byName {
      NotOpenAtLeaf(rows);
      return Advanced(latest);
    }
    var visited;
    r, visited := Walk(rows, byName, latest.value);
    if r.Targets? && visited != |records| {
      return NotContiguous;
    }
  }

  /** From the leaf, parent by parent, until the parent is sealed or a baseline bounds the walk. */
  method Walk(rows: seq<Row>, byName: map<string, Row>, leaf: string) returns (r: TargetsResult, visited: nat)
    requires Linear(rows) && rows != [] && leaf == rows[|rows| - 1].name && leaf in byName
    requires forall i :: 0 <= i < |rows| ==> (rows[i].name in byName <==> !rows[i].sealed)
    requires forall i :: 0 <= i < |rows| && !rows[i].sealed ==> byName[rows[i].name] == rows[i]
    ensures Window(rows) <==> r.Targets? && visited == CountOpen(rows)
    ensures r.Targets? && visited == CountOpen(rows) ==> r.targets == TargetsFrom(rows, OpenFrom(rows))
  {
    hide Window, Contiguous, OpenFrom, Revertible, CountOpen, Linear, TargetsFrom, TargetOf;
    var targets: seq<Target> := [];
    var name := leaf;
    visited := 0;
    ghost var i := |rows| - 1;
    NoTargets(rows);
    while true
      invariant 0 <= i < |rows| && name == rows[i].name && name in byName
      invariant forall j :: i <= j < |rows| ==> !rows[j].sealed
      invariant forall j :: i < j < |rows| ==> rows[j].kind != Baseline && Revertible(rows[j])
      invariant visited == |rows| - 1 - i && targets == TargetsFrom(rows, i + 1)
      decreases i
    {
      var m := byName[name];
      TargetsStep(rows, i);
      if m.kind == Baseline {
        visited := visited + 1;
        break;
      }
      if !Revertible(m) {
        BadRow(rows, i);
        return (if m.kind == Inferred then Captured(m.name)
                else if m.migration.irreversible then Irreversible(m.name) else Stranded(m.name)), visited;
      }
      targets := targets + [TargetOf(m)];
      visited := visited + 1;
      if m.parent.None? || m.parent.value !in byName {
        break;
      }
      name := m.parent.value;
      i := i - 1;
    }
    WalkEnd(rows, i);
    return Targets(targets), visited;
  }

  lemma NoTargets(rows: seq<Row>)
    ensures TargetsFrom(rows, |rows|) == []
  {
  }

  /** One row further down: its target, and the row it hangs from. */
  lemma TargetsStep(rows: seq<Row>, i: nat)
    requires Linear(rows) && i < |rows|
    ensures TargetsFrom(rows, i) == if rows[i].kind == Baseline then TargetsFrom(rows, i + 1) else TargetsFrom(rows, i + 1) + [TargetOf(rows[i])]
    ensures rows[i].parent == if i == 0 then None else Some(rows[i - 1].name)
  {
    ParentIs(rows, i);
    hide Linear;
  }

  /** The walk ended at `i`: the window is good exactly when every unsealed row has been visited. */
  lemma WalkEnd(rows: seq<Row>, i: nat)
    requires i < |rows| && forall j :: i <= j < |rows| ==> !rows[j].sealed
    requires forall j :: i < j < |rows| ==> rows[j].kind != Baseline && Revertible(rows[j])
    requires rows[i].kind == Baseline || (Revertible(rows[i]) && (i == 0 || rows[i - 1].sealed))
    ensures Window(rows) <==> |rows| - i == CountOpen(rows)
    ensures |rows| - i == CountOpen(rows) ==> OpenFrom(rows) == i
  {
    VisitedAll(rows, i);
    hide Revertible;
    if |rows| - i != CountOpen(rows) {
      NotAll(rows, i);
    }
  }

  /** The unsealed rows by name: names are unique, so a name finds its row. */
  function ByName(rows: seq<Row>, records: seq<Row>): (m: map<string, Row>)
    requires Linear(rows) && forall r :: r in records <==> r in rows && !r.sealed
    ensures forall i :: 0 <= i < |rows| ==> (rows[i].name in m <==> !rows[i].sealed)
    ensures forall i :: 0 <= i < |rows| && !rows[i].sealed ==> m[rows[i].name] == rows[i]
  {
    UniqueRecords(rows, records);
    map r | r in records :: r.name := r
  }

  lemma UniqueRecords(rows: seq<Row>, records: seq<Row>)
    requires Linear(rows) && forall r :: r in records <==> r in rows && !r.sealed
    ensures forall a, b | a in records && b in records && a.name == b.name :: a == b
    ensures forall i :: 0 <= i < |rows| && !rows[i].sealed ==> rows[i] in records
    ensures forall i, r :: 0 <= i < |rows| && r in records && r.name == rows[i].name ==> r == rows[i]
  {
    forall i, r | 0 <= i < |rows| && r in records && r.name == rows[i].name ensures r == rows[i] {
      OnlyRow(rows, rows[i]);
    }
    forall a, b | a in records && b in records && a.name == b.name ensures a == b {
      OnlyRow(rows, b);
    }
  }

  lemma NotOpenAtLeaf(rows: seq<Row>)
    requires rows != [] && rows[|rows| - 1].sealed && exists i :: 0 <= i < |rows| && !rows[i].sealed
    ensures !Window(rows)
  {
  }

  // ----- Bounded plans and the revert itself -----

  datatype PlanResult =
    | Planned(targets: seq<Target>)
    | BadBounds
    | Refused(why: TargetsResult)
    | TargetSealed
    | NotFound

  function WindowTargets(rows: seq<Row>): seq<Target>
  {
    TargetsFrom(rows, OpenFrom(rows))
  }

  /** Reverting the newest `n` targets leaves `to` as the leaf. */
  predicate Reaches(rows: seq<Row>, to: string, n: int)
  {
    0 <= n <= |WindowTargets(rows)| && n <= |rows| && ParentAt(rows, |rows| - n) == Some(to)
  }

  lemma ReachesOnce(rows: seq<Row>, to: string, n: int, m: int)
    requires Linear(rows) && Reaches(rows, to, n) && Reaches(rows, to, m)
    ensures n == m
  {
  }

  /** What `Reaches` says in terms of the targets themselves. */
  lemma ReachesByTarget(rows: seq<Row>, to: string)
    requires Linear(rows) && Window(rows)
    ensures var ts := WindowTargets(rows);
            && |ts| <= |rows|
            && (forall n :: 0 <= n < |ts| ==> (Reaches(rows, to, n) <==> ts[n].name == to))
            && (Reaches(rows, to, |ts|) <==> if ts == [] then ParentAt(rows, |rows|) == Some(to) else ts[|ts| - 1].parent == Some(to))
            && (ts != [] ==> (Reaches(rows, to, 0) <==> ParentAt(rows, |rows|) == Some(to)))
            && (forall n | Reaches(rows, to, n) :: 0 <= n <= |ts|)
  {
    PathFromLeaf(rows);
    var ts := WindowTargets(rows);
    if ts != [] {
      assert rows[|rows| - |ts|].parent == ParentAt(rows, |rows| - |ts|);
    }
  }

  /** The newest targets down to a bound: a number of steps, or a migration that is to stay. */
  method RevertPlan(t: MigrationTable, steps: int, to: string) returns (r: PlanResult)
    requires Linear(t.rows)
    ensures r.BadBounds? <==> steps < 0 || (steps > 0 && to != "")
    ensures r.Refused? <==> !r.BadBounds? && !Window(t.rows)
    ensures !r.BadBounds? && !r.Refused? && to == "" ==>
              r == Planned(WindowTargets(t.rows)[..if 0 < steps < |WindowTargets(t.rows)| then steps else |WindowTargets(t.rows)|])
    ensures !r.BadBounds? && !r.Refused? && to != "" ==>
              && (r.Planned? <==> exists n :: Reaches(t.rows, to, n))
              && (r.Planned? ==> Reaches(t.rows, to, |r.targets|))
              && (r.NotFound? <==> to !in RowNames(t.rows))
    ensures r.Planned? ==> |r.targets| <= |WindowTargets(t.rows)| && r.targets == WindowTargets(t.rows)[..|r.targets|]
  {
    if (steps > 0 && to != "") || steps < 0 {
      return BadBounds;
    }
    var rows := t.rows;
    var w := RevertTargets(t);
    if !w.Targets? {
      return PlanResult.Refused(w);
    }
    forall n | Reaches(rows, to, n) ensures to in RowNames(rows) {
      ReachedIsRecorded(rows, to, n);
    }
    hide Window, WindowTargets, Reaches, Linear, TargetsFrom, RowNames;
    if to == "" {
      return Planned(if 0 < steps < |w.targets| then w.targets[..steps] else w.targets);
    }
    r := BoundByName(rows, w.targets, to);
  }

  /** Where in the window, at its lower boundary, or at the leaf itself the named migration sits. */
  method BoundByName(rows: seq<Row>, targets: seq<Target>, to: string) returns (r: PlanResult)
    requires Linear(rows) && Window(rows) && targets == WindowTargets(rows)
    ensures r.Planned? || r.TargetSealed? || r.NotFound?
    ensures r.Planned? <==> exists n :: Reaches(rows, to, n)
    ensures r.Planned? ==> |r.targets| <= |targets| && r.targets == targets[..|r.targets|] && Reaches(rows, to, |r.targets|)
    ensures r.NotFound? ==> to !in RowNames(rows)
    ensures r.TargetSealed? ==> to in RowNames(rows)
  {
    ReachesByTarget(rows, to);
    hide Window, WindowTargets, Reaches, Linear;
    for i := 0 to |targets|
      invariant forall n :: 0 <= n < i ==> targets[n].name != to
    {
      if targets[i].name == to {
        return Planned(targets[..i]);
      }
    }
    if |targets| > 0 && targets[|targets| - 1].parent == Some(to) {
      return Planned(targets);
    }
    if |rows| > 0 && rows[|rows| - 1].name == to {
      return Planned([]);
    }
    return if to in RowNames(rows) then TargetSealed else NotFound;
  }

  lemma ReachedIsRecorded(rows: seq<Row>, to: string, n: int)
    requires Reaches(rows, to, n)
    ensures to in RowNames(rows)
  {
    assert rows[|rows| - n - 1] in rows;
  }

  /**
   * Rolls the planned migrations back newest first. Each deletion removes the current leaf, so the
   * foreign key never refuses one, history stays linear throughout, and what is left is the prefix
   * below the oldest target.
   */
  method Revert(t: MigrationTable, steps: int, to: string) returns (r: PlanResult)
    requires Linear(t.rows)
    modifies t
    ensures Linear(t.rows)
    ensures !r.Planned? ==> t.rows == old(t.rows)
    ensures r.Planned? ==> |r.targets| <= |old(t.rows)| && t.rows == old(t.rows)[..|old(t.rows)| - |r.targets|]
    ensures r.Planned? && to != "" ==> ParentAt(t.rows, |t.rows|) == Some(to)
  {
    r := RevertPlan(t, steps, to);
    if !r.Planned? {
      return;
    }
    DeleteTargets(t, r.targets);
  }

  /** Deletes the rows of a planned path, one leaf at a time. */
  method DeleteTargets(t: MigrationTable, targets: seq<Target>)
    requires Linear(t.rows) && Window(t.rows)
    requires |targets| <= |WindowTargets(t.rows)| && targets == WindowTargets(t.rows)[..|targets|]
    modifies t
    ensures Linear(t.rows)
    ensures |targets| <= |old(t.rows)| && t.rows == old(t.rows)[..|old(t.rows)| - |targets|]
  {
    ghost var rows := t.rows;
    TargetNames(rows, targets);
    hide Window, OpenFrom, WindowTargets, TargetsFrom, Linear;
    for i := 0 to |targets|
      invariant i <= |rows| && t.rows == rows[..|rows| - i] && Linear(t.rows)
    {
      var ok := t.DeleteMigration(targets[i].name);
      assert ok;
    }
  }

  lemma TargetNames(rows: seq<Row>, targets: seq<Target>)
    requires Linear(rows) && Window(rows) && |targets| <= |WindowTargets(rows)| && targets == WindowTargets(rows)[..|targets|]
    ensures |targets| <= |rows|
    ensures forall j :: 0 <= j < |targets| ==> ParentAt(rows[..|rows| - j], |rows| - j) == Some(targets[j].name)
  {
    PathFromLeaf(rows);
    hide Window, OpenFrom, TargetsFrom, Linear;
  }
}
