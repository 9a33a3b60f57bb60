/** What a revert down to a migration would undo, found by the planners without executing anything. */
module Preview {
  import opened History
  import opened InverseTrain
  import opened Migrations
  import opened Plan
  import opened Resolve
  import opened Revert
  import opened RevertSealed
  import opened SealedRevert
  import opened State
  import I = Invert

  /** The history below the revert window. */
  function Below(rows: seq<Row>): (below: seq<Row>)
    ensures |below| <= |rows|
  {
    var w := |WindowTargets(rows)|;
    if w <= |rows| then rows[..|rows| - w] else []
  }

  /** Row `k` is the boundary of a sealed leg that starts where the window ends. */
  ghost predicate SealedLeg(rows: seq<Row>, to: string, k: nat, store: Store)
  {
    IsBoundary(rows, to, k) && Plannable(Below(rows), k, store) && (WindowTargets(rows) == [] ==> !Open(rows))
  }

  /**
   * The window planner answers when it reaches the migration; when the migration lies in sealed history, the window
   * comes first and inversion does the rest; anything else is refused.
   */
  ghost predicate Previews(rows: seq<Row>, to: string, store: Store, p: Preview)
  {
    if !Window(rows) then p == Refuses
    else if exists n :: Reaches(rows, to, n) then
      exists n: nat :: Reaches(rows, to, n) && n <= |rows| && p == Reverts(Downwards(rows, |rows| - n, |rows|))
    else if exists k: nat :: SealedLeg(rows, to, k, store) then
      exists k: nat :: SealedLeg(rows, to, k, store) && k < |rows| && p == Reverts(Downwards(rows, k + 1, |rows|))
    else p == Refuses
  }

  function NamesOfTargets(targets: seq<Target>): (r: seq<string>)
    ensures |r| == |targets| && forall i :: 0 <= i < |targets| ==> r[i] == targets[i].name
  {
    seq(|targets|, i requires 0 <= i < |targets| => targets[i].name)
  }

  /** The window's targets by name: the newest rows. */
  lemma WindowNames(rows: seq<Row>, n: nat)
    requires Linear(rows) && Window(rows) && n <= |WindowTargets(rows)|
    ensures |WindowTargets(rows)| <= |rows|
    ensures NamesOfTargets(WindowTargets(rows)[..n]) == Downwards(rows, |rows| - n, |rows|)
  {
    PathFromLeaf(rows);
    hide Linear, Window, OpenFrom, TargetsFrom;
  }

  /** The segment between the two named rows can be inverted. */
  ghost predicate Between(rows: seq<Row>, to: string, through: string, k: nat, j: nat, store: Store)
  {
    IsBoundary(rows, to, k) && IsTop(rows, through, j) && Plannable(rows[..if j < |rows| then j + 1 else |rows|], k, store)
  }

  /** Plans the inversion of the segment that ends at a named row. */
  method PlanRevertSealedBelowWindow(rows: seq<Row>, to: string, through: string, store: Store) returns (r: SealedPlan)
    requires Linear(rows)
    ensures r.Planned? <==> through != "" && exists k: nat, j: nat :: Between(rows, to, through, k, j, store)
    ensures r.Planned? ==> exists j: nat :: Between(rows, to, through, r.k, j, store) && r.k < j < |rows| && MirrorsSegment(rows[..j + 1], r.k, r.invs)
  {
    if through == "" {
      return NoSegment(ThroughNotFound);
    }
    hide *;
    var segment := FindSegment(rows, to, through, store);
    if !segment.Segment? {
      return NoSegment(segment);
    }
    var k, top := segment.boundary, segment.top;
    OnlyBetween(rows, to, through, k, top, store);
    if !store.clean(rows[k].name) {
      return Unclean;
    }
    var below := rows[..top + 1];
    PlannedIs(below, k, store);
    var inverses := I.InvertSegment(Forward(below, k, store), store.snapshot(below[k].name));
    if inverses.None? {
      return NotSynthesized;
    }
    PlanMirrors(below, k, store);
    return SealedPlan.Planned(k, inverses.value);
  }

  /** A segment all of whose rows are invertible, or why there is none. */
  method FindSegment(rows: seq<Row>, to: string, through: string, ghost store: Store) returns (r: SegmentPlan)
    requires Linear(rows) && through != ""
    ensures r.Segment? ==> r.boundary < r.top < |rows| && IsBoundary(rows, to, r.boundary) && IsTop(rows, through, r.top)
    ensures r.Segment? ==> (Plannable(rows[..r.top + 1], r.boundary, store) <==>
                            store.clean(rows[r.boundary].name) && PlannedInverses(rows[..r.top + 1], r.boundary, store).Some?)
    ensures !r.Segment? ==> forall k: nat, j: nat :: !Between(rows, to, through, k, j, store)
  {
    r := PlanSealedSegment(rows, to, through);
    hide *;
    if r.Segment? {
      TopOnce(rows, through, r.top);
      PlannableIs(rows, r.boundary, r.top, store);
    } else {
      NothingBetween(rows, to, through, r, store);
    }
  }

  lemma OnlyBetween(rows: seq<Row>, to: string, through: string, k: nat, top: nat, store: Store)
    requires Linear(rows) && IsBoundary(rows, to, k) && IsTop(rows, through, top) && top < |rows|
    ensures Between(rows, to, through, k, top, store) <==> Plannable(rows[..top + 1], k, store)
    ensures forall i: nat, j: nat :: Between(rows, to, through, i, j, store) ==> i == k && j == top
  {
    BoundaryOnce(rows, to, k);
    TopOnce(rows, through, top);
    hide IsBoundary, IsTop, Plannable, Linear;
  }

  /** Without a segment there is nothing to plan. */
  lemma NothingBetween(rows: seq<Row>, to: string, through: string, why: SegmentPlan, store: Store)
    requires Linear(rows) && through != "" && !why.Segment? && !why.AtBoundary?
    requires why.BoundaryNotFound? ==> !exists k: nat :: IsBoundary(rows, to, k)
    requires why.ThroughNotFound? ==> !exists j: nat :: IsTop(rows, through, j)
    requires why.NotAbove? ==> exists k: nat, j: nat :: IsBoundary(rows, to, k) && IsTop(rows, through, j) && j <= k
    requires why.NotInvertible? ==> exists k: nat, j: nat, i: nat :: IsBoundary(rows, to, k) && IsTop(rows, through, j) && k < i <= j && !Invertible(rows[i])
    ensures !exists k: nat, j: nat :: Between(rows, to, through, k, j, store)
  {
    if k: nat, j: nat :| Between(rows, to, through, k, j, store) {
      TopOnce(rows, through, j);
      OnlyBetween(rows, to, through, k, j, store);
      hide IsBoundary, IsTop, Plannable, Linear, Invertible;
      BoundaryOnce(rows, to, k);
      if why.NotAbove? {
        EmptySegment(rows, k, j, store);
      } else {
        var i: nat :| k < i <= j && !Invertible(rows[i]);
        PlannableAt(rows, k, j, i, store);
      }
    }
  }

  lemma PlannableIs(rows: seq<Row>, k: nat, top: nat, store: Store)
    requires k < top < |rows| && forall i :: k < i <= top ==> Invertible(rows[i])
    ensures Plannable(rows[..top + 1], k, store) <==> store.clean(rows[k].name) && PlannedInverses(rows[..top + 1], k, store).Some?
  {
    hide Invertible, PlannedInverses;
  }

  lemma PlannableAt(rows: seq<Row>, k: nat, j: nat, i: nat, store: Store)
    requires k < i <= j < |rows| && !Invertible(rows[i])
    ensures !Plannable(rows[..j + 1], k, store)
  {
    hide Invertible, PlannedInverses;
    assert rows[..j + 1][i] == rows[i];
  }

  lemma EmptySegment(rows: seq<Row>, k: nat, j: nat, store: Store)
    requires j <= k && j < |rows|
    ensures !Plannable(rows[..j + 1], k, store)
  {
  }

  /** The window's names, then the segment's, are those of every row above the boundary. */
  lemma ComposedNames(rows: seq<Row>, k: nat, j: nat, invs: seq<I.Inverse>)
    requires k < j < |rows| && MirrorsSegment(rows[..j + 1], k, invs)
    ensures Downwards(rows, j + 1, |rows|) + TargetsOf(invs) == Downwards(rows, k + 1, |rows|)
  {
  }

  /** The window hangs from the row below it. */
  lemma BelowIs(rows: seq<Row>)
    requires Linear(rows) && Window(rows) && WindowTargets(rows) != []
    ensures var ts, below := WindowTargets(rows), Below(rows);
            && |ts| <= |rows| && below == rows[..|rows| - |ts|]
            && ts[|ts| - 1].parent == ParentAt(rows, |below|)
            && NamesOfTargets(ts) == Downwards(rows, |below|, |rows|)
  {
    hide *;
    PathFromLeaf(rows);
    WindowSize(rows);
    var ts := WindowTargets(rows);
    WindowNames(rows, |ts|);
    assert ts[..|ts|] == ts;
    OldestParent(rows, ts);
  }

  lemma WindowSize(rows: seq<Row>)
    ensures |WindowTargets(rows)| <= |rows| ==> Below(rows) == rows[..|rows| - |WindowTargets(rows)|]
    ensures WindowTargets(rows) == TargetsFrom(rows, OpenFrom(rows))
  {
    hide TargetsFrom, OpenFrom;
  }

  lemma OldestParent(rows: seq<Row>, ts: seq<Target>)
    requires Linear(rows) && 0 < |ts| <= |rows| && ts[|ts| - 1] == TargetOf(rows[|rows| - |ts|])
    ensures ts[|ts| - 1].parent == ParentAt(rows, |rows| - |ts|)
  {
    ParentIs(rows, |rows| - |ts|);
    hide Linear, StateOf;
  }

  /** A sealed leg is a plan through the row the window hangs from. */
  lemma LegIsThrough(rows: seq<Row>, to: string, k: nat, store: Store)
    requires WindowTargets(rows) != [] && |Below(rows)| <= |rows| && Below(rows) == rows[..|Below(rows)|] && "" !in RowNames(rows)
    ensures SealedLeg(rows, to, k, store) ==>
              Below(rows) != [] && Between(rows, to, rows[|Below(rows)| - 1].name, k, |Below(rows)| - 1, store)
  {
    hide Below, WindowTargets, Open, VisibleFrom, PlannedInverses, Invertible;
    if SealedLeg(rows, to, k, store) {
      assert rows[|Below(rows)| - 1] in rows;
    }
  }

  lemma ThroughIsLeg(rows: seq<Row>, to: string, k: nat, j: nat, store: Store)
    requires Linear(rows) && WindowTargets(rows) != [] && |Below(rows)| <= |rows| && Below(rows) == rows[..|Below(rows)|] && Below(rows) != []
    requires rows[|Below(rows)| - 1].name != "" && Between(rows, to, rows[|Below(rows)| - 1].name, k, j, store)
    ensures j == |Below(rows)| - 1 && SealedLeg(rows, to, k, store)
  {
    hide Below, WindowTargets, Open, VisibleFrom, PlannedInverses, Invertible;
  }

  /** With a window, the sealed leg is planned through its lower boundary. */
  method ComposeBelowWindow(rows: seq<Row>, to: string, targets: seq<Target>, store: Store) returns (p: Preview)
    requires Linear(rows) && Window(rows) && targets == WindowTargets(rows) && targets != [] && "" !in RowNames(rows)
    ensures Composed(rows, to, store, p)
  {
    hide *;
    BelowIs(rows);
    var oldest := targets[|targets| - 1];
    ghost var m := |Below(rows)|;
    BelowParent(rows, m);
    forall k: nat ensures SealedLeg(rows, to, k, store) ==> m > 0 && Between(rows, to, rows[m - 1].name, k, m - 1, store) {
      LegIsThrough(rows, to, k, store);
    }
    if oldest.parent.None? {
      RefusedIs(rows, to, store);
      return Refuses;
    }
    var plan := PlanRevertSealedBelowWindow(rows, to, oldest.parent.value, store);
    if !plan.Planned? {
      RefusedIs(rows, to, store);
      return Refuses;
    }
    ghost var j: nat :| Between(rows, to, oldest.parent.value, plan.k, j, store) && plan.k < j < |rows| && MirrorsSegment(rows[..j + 1], plan.k, plan.invs);
    ThroughIsLeg(rows, to, plan.k, j, store);
    ComposedNames(rows, plan.k, j, plan.invs);
    LegShown(rows, to, plan.k, store);
    return Reverts(NamesOfTargets(targets) + TargetsOf(plan.invs));
  }

  lemma BelowParent(rows: seq<Row>, m: nat)
    requires m <= |rows| && "" !in RowNames(rows)
    ensures ParentAt(rows, m).None? <==> m == 0
    ensures m > 0 ==> ParentAt(rows, m) == Some(rows[m - 1].name) && rows[m - 1].name != ""
  {
    if m > 0 {
      assert rows[m - 1] in rows;
    }
  }

  lemma RefusedIs(rows: seq<Row>, to: string, store: Store)
    requires WindowTargets(rows) != [] && !exists k: nat :: SealedLeg(rows, to, k, store)
    ensures Composed(rows, to, store, Refuses)
  {
    hide SealedLeg, WindowTargets, IsBoundary, Open;
  }

  lemma LegShown(rows: seq<Row>, to: string, k: nat, store: Store)
    requires SealedLeg(rows, to, k, store) && k < |rows|
    ensures Composed(rows, to, store, Reverts(Downwards(rows, k + 1, |rows|)))
  {
    hide SealedLeg, WindowTargets, IsBoundary, Open, Downwards;
  }

  /** What the composed preview shows; an empty leg when nothing is open and the leaf is the boundary. */
  ghost predicate Composed(rows: seq<Row>, to: string, store: Store, p: Preview)
  {
    if exists k: nat :: SealedLeg(rows, to, k, store) then exists k: nat :: SealedLeg(rows, to, k, store) && k < |rows| && p == Reverts(Downwards(rows, k + 1, |rows|))
    else if WindowTargets(rows) == [] && !Open(rows) && rows != [] && IsBoundary(rows, to, |rows| - 1) then p == Reverts([])
    else p == Refuses
  }

  /** With nothing in the window, the whole history above the migration is inverted. */
  method ComposeSealed(rows: seq<Row>, to: string, store: Store) returns (p: Preview)
    requires Linear(rows) && WindowTargets(rows) == []
    ensures Composed(rows, to, store, p)
  {
    hide *;
    forall k: nat ensures SealedLeg(rows, to, k, store) <==> !Open(rows) && IsBoundary(rows, to, k) && Plannable(rows, k, store) {
      WholeLeg(rows, to, k, store);
    }
    LeafHasNoLeg(rows, to, store);
    var plan := PlanRevertSealed(rows, to, store);
    if plan.Planned? {
      AllNames(rows, plan.k, plan.invs);
      PlannedBoundary(rows, to, plan.k, store);
      LegShown(rows, to, plan.k, store);
      return Reverts(TargetsOf(plan.invs));
    }
    NoLegIs(rows, to, store);
    return if plan.Nothing? then Reverts([]) else Refuses;
  }

  lemma PlannedBoundary(rows: seq<Row>, to: string, k: nat, store: Store)
    requires Linear(rows) && IsBoundary(rows, to, k) && exists j: nat :: IsBoundary(rows, to, j) && Plannable(rows, j, store)
    ensures Plannable(rows, k, store)
  {
    hide Plannable, Linear, IsBoundary;
    BoundaryOnce(rows, to, k);
  }

  lemma NoLegIs(rows: seq<Row>, to: string, store: Store)
    requires WindowTargets(rows) == [] && !exists k: nat :: SealedLeg(rows, to, k, store)
    ensures Composed(rows, to, store, if !Open(rows) && rows != [] && IsBoundary(rows, to, |rows| - 1) then Reverts([]) else Refuses)
  {
    hide SealedLeg, WindowTargets, IsBoundary, Open;
  }

  lemma WholeLeg(rows: seq<Row>, to: string, k: nat, store: Store)
    requires WindowTargets(rows) == []
    ensures SealedLeg(rows, to, k, store) <==> !Open(rows) && IsBoundary(rows, to, k) && Plannable(rows, k, store)
  {
    hide WindowTargets, Plannable, IsBoundary, Open;
    assert rows[..|rows|] == rows;
  }

  lemma LeafHasNoLeg(rows: seq<Row>, to: string, store: Store)
    requires Linear(rows)
    ensures rows != [] && IsBoundary(rows, to, |rows| - 1) ==> forall k: nat :: !(IsBoundary(rows, to, k) && Plannable(rows, k, store))
  {
    hide PlannedInverses, Invertible, VisibleFrom;
  }

  lemma AllNames(rows: seq<Row>, k: nat, invs: seq<I.Inverse>)
    requires MirrorsSegment(rows, k, invs)
    ensures k < |rows| && TargetsOf(invs) == Downwards(rows, k + 1, |rows|)
  {
  }

  /** The window first, losslessly; then inversion down to the migration. */
  method ComposedView(t: MigrationTable, to: string, store: Store) returns (p: Preview)
    requires Linear(t.rows) && Window(t.rows) && "" !in RowNames(t.rows)
    ensures Composed(t.rows, to, store, p)
  {
    hide Window, Linear, RowNames, Composed, TargetsFrom, OpenFrom;
    var w := RevertTargets(t);
    var targets := w.targets;
    if |targets| > 0 {
      p := ComposeBelowWindow(t.rows, to, targets, store);
    } else {
      p := ComposeSealed(t.rows, to, store);
    }
  }

  method PreviewRevertTo(t: MigrationTable, to: string, store: Store) returns (p: Preview)
    requires Linear(t.rows) && to != "" && "" !in RowNames(t.rows)
    ensures Previews(t.rows, to, store, p)
  {
    var plan := RevertPlan(t, 0, to);
    hide *;
    if plan.Planned? {
      WindowNames(t.rows, |plan.targets|);
      WindowShown(t.rows, to, |plan.targets|, store);
      return Reverts(NamesOfTargets(plan.targets));
    }
    if plan.TargetSealed? {
      p := ComposedView(t, to, store);
      ComposedShown(t.rows, to, store, p);
      return;
    }
    RefusalShown(t.rows, to, store);
    return Refuses;
  }

  lemma WindowShown(rows: seq<Row>, to: string, n: nat, store: Store)
    requires Window(rows) && Reaches(rows, to, n) && n <= |rows|
    ensures Previews(rows, to, store, Reverts(Downwards(rows, |rows| - n, |rows|)))
  {
    hide Window, Reaches, Downwards, SealedLeg;
  }

  lemma ComposedShown(rows: seq<Row>, to: string, store: Store, p: Preview)
    requires Window(rows) && (forall n :: !Reaches(rows, to, n)) && Composed(rows, to, store, p)
    ensures Previews(rows, to, store, p)
  {
    NotAtLeaf(rows, to);
    hide Window, Reaches, Downwards, SealedLeg, IsBoundary, Open, WindowTargets;
  }

  lemma RefusalShown(rows: seq<Row>, to: string, store: Store)
    requires Window(rows) ==> (forall n :: !Reaches(rows, to, n)) && to !in RowNames(rows)
    ensures Previews(rows, to, store, Refuses)
  {
    if Window(rows) {
      NotRecorded(rows, to, store);
    }
    hide Window, Reaches, SealedLeg, RowNames;
  }

  lemma NotRecorded(rows: seq<Row>, to: string, store: Store)
    requires to !in RowNames(rows)
    ensures !exists k: nat :: SealedLeg(rows, to, k, store)
  {
    hide Plannable, WindowTargets, Open, VisibleFrom;
    forall k: nat ensures !SealedLeg(rows, to, k, store) {
      if k < |rows| {
        assert rows[k] in rows;
      }
    }
  }

  /** Going back to the leaf is a window revert of nothing. */
  lemma NotAtLeaf(rows: seq<Row>, to: string)
    ensures rows != [] && IsBoundary(rows, to, |rows| - 1) ==> Reaches(rows, to, 0)
  {
    hide VisibleFrom, WindowTargets;
  }

  // ----- The revert leg of a plan -----

  /** The names of the rows from index `lo` on, captured DDL left out. */
  function Reported(rows: seq<Row>, lo: nat): (names: seq<string>)
    requires lo <= |rows|
    ensures |names| <= |rows| - lo
    decreases |rows| - lo
  {
    if lo == |rows| then [] else (if rows[lo].kind == Inferred then [] else [rows[lo].name]) + Reported(rows, lo + 1)
  }

  /** What the history query reports: the visible migrations, oldest first. */
  function ReportedHistory(rows: seq<Row>): seq<string>
  {
    Reported(rows, VisibleFrom(rows))
  }

  function LatestBaselineName(rows: seq<Row>): string
  {
    if VisibleFrom(rows) == 0 then "" else rows[VisibleFrom(rows) - 1].name
  }

  /** A preview that is not refused shows every row above the migration, newest first. */
  lemma ShowsAbove(rows: seq<Row>, to: string, store: Store, p: Preview) returns (k: nat)
    requires Previews(rows, to, store, p) && p.Reverts?
    ensures k < |rows| && rows[k].name == to && p.view == Downwards(rows, k + 1, |rows|)
  {
    hide Window, WindowTargets, Plannable, VisibleFrom, Open, Downwards;
    if exists n :: Reaches(rows, to, n) {
      var n: nat :| Reaches(rows, to, n) && n <= |rows| && p == Reverts(Downwards(rows, |rows| - n, |rows|));
      k := |rows| - n - 1;
    } else {
      k :| SealedLeg(rows, to, k, store) && k < |rows| && p == Reverts(Downwards(rows, k + 1, |rows|));
    }
  }

  lemma ReportedStep(rows: seq<Row>, lo: nat)
    requires lo < |rows|
    ensures Reported(rows, lo) == if rows[lo].kind == Inferred then Reported(rows, lo + 1) else [rows[lo].name] + Reported(rows, lo + 1)
  {
    assert [] + Reported(rows, lo + 1) == Reported(rows, lo + 1);
  }

  /** The entries above a reported one are those of the rows above its row. */
  lemma {:induction false} ReportedAbove(rows: seq<Row>, lo: nat, c: nat, k: nat)
    requires Linear(rows) && lo < |rows| && c < |Reported(rows, lo)| && k < |rows| && Reported(rows, lo)[c] == rows[k].name
    ensures lo <= k && Reported(rows, lo)[c + 1..] == Reported(rows, k + 1)
    decreases |rows| - lo
  {
    hide *;
    var rest := Reported(rows, lo + 1);
    ReportedStep(rows, lo);
    if rows[lo].kind == Inferred {
      NotPastEnd(rows, lo + 1, c);
      ReportedAbove(rows, lo + 1, c, k);
    } else if c > 0 {
      NotPastEnd(rows, lo + 1, c - 1);
      ReportedAbove(rows, lo + 1, c - 1, k);
      assert ([rows[lo].name] + rest)[c + 1..] == rest[c..];
    } else {
      OneOfAName(rows, lo, k);
      assert ([rows[lo].name] + rest)[1..] == rest;
    }
  }

  lemma NotPastEnd(rows: seq<Row>, lo: nat, c: nat)
    requires lo <= |rows| && c < |Reported(rows, lo)|
    ensures lo < |rows|
  {
  }

  lemma OneOfAName(rows: seq<Row>, i: nat, k: nat)
    requires Linear(rows) && i < |rows| && k < |rows| && rows[i].name == rows[k].name
    ensures i == k
  {
  }

  function Reversed(s: seq<string>): (r: seq<string>)
    ensures |r| == |s| && forall i :: 0 <= i < |s| ==> r[i] == s[|s| - 1 - i]
  {
    seq(|s|, i requires 0 <= i < |s| => s[|s| - 1 - i])
  }

  lemma {:induction false} ReportedPlain(rows: seq<Row>, lo: nat)
    requires lo <= |rows| && forall i :: lo <= i < |rows| ==> rows[i].kind != Inferred
    ensures Reported(rows, lo) == Upwards(rows, lo, |rows|)
    decreases |rows| - lo
  {
    if lo < |rows| {
      ReportedPlain(rows, lo + 1);
      ReportedStep(rows, lo);
      hide Reported;
      assert Upwards(rows, lo, |rows|) == [rows[lo].name] + Upwards(rows, lo + 1, |rows|);
    }
  }

  lemma {:induction false} ReportedShort(rows: seq<Row>, lo: nat, i: nat)
    requires lo <= i < |rows| && rows[i].kind == Inferred
    ensures |Reported(rows, lo)| < |rows| - lo
    decreases |rows| - lo
  {
    if lo < i {
      ReportedShort(rows, lo + 1, i);
    }
  }

  /** The rows above are the reported ones mirrored exactly when none of them is captured DDL. */
  lemma MirroredIff(rows: seq<Row>, lo: nat)
    requires lo <= |rows|
    ensures Downwards(rows, lo, |rows|) == Reversed(Reported(rows, lo)) <==> forall i :: lo <= i < |rows| ==> rows[i].kind != Inferred
  {
    hide Reported;
    if forall i :: lo <= i < |rows| ==> rows[i].kind != Inferred {
      ReportedPlain(rows, lo);
    } else {
      var i :| lo <= i < |rows| && rows[i].kind == Inferred;
      ReportedShort(rows, lo, i);
    }
  }

  /** The point a plan reverts towards. */
  function PointOf(db: seq<string>, local: set<string>, baseline: string): string
  {
    if Convergence(db, local) >= 0 then db[Convergence(db, local)] else baseline
  }

  lemma UnblockedLeg(db: seq<string>, local: set<string>, baseline: string, preview: string -> Preview, revert: seq<string>)
    requires Legs(db, local, baseline, preview, revert, Unblocked)
    ensures RevertSuffix(db, local) == [] ==> revert == []
    ensures RevertSuffix(db, local) != [] ==>
              preview(PointOf(db, local, baseline)) == Reverts(revert) && (Convergence(db, local) >= 0 || baseline != "")
  {
    hide Interleaved, RevertSuffix;
  }

  /** Where the suffix starts in the table. */
  lemma SuffixRows(rows: seq<Row>, local: set<string>, k: nat)
    requires Linear(rows) && k < |rows|
    requires var db := ReportedHistory(rows);
             rows[k].name == PointOf(db, local, LatestBaselineName(rows)) && (Convergence(db, local) >= 0 || LatestBaselineName(rows) != "")
    ensures RevertSuffix(ReportedHistory(rows), local) == Reported(rows, k + 1)
  {
    var db, c := ReportedHistory(rows), Convergence(ReportedHistory(rows), local);
    hide Convergence, VisibleFrom;
    if c >= 0 {
      NotPastEnd(rows, VisibleFrom(rows), c);
      ReportedAbove(rows, VisibleFrom(rows), c, k);
    } else {
      assert k == VisibleFrom(rows) - 1;
      assert db[0..] == db;
    }
  }

  /** Captured DDL lies above the point a plan reverts towards. */
  ghost predicate InferredAbove(rows: seq<Row>, point: string)
  {
    exists k, i :: 0 <= k < i < |rows| && rows[k].name == point && rows[i].kind == Inferred
  }

  /**
   * The revert leg of an unblocked plan: nothing when the suffix is empty, and otherwise exactly the suffix, newest
   * first, unless captured DDL, which the plan's history does not list, would be reverted with it.
   */
  lemma RevertLegIsSuffix(files: seq<RawMigration>, target: string, preview: string -> Preview, status: Status, r: Plan.PlanResult, rows: seq<Row>, store: Store)
    requires Linear(rows) && "" !in RowNames(rows)
    requires forall to :: to != "" ==> Previews(rows, to, store, preview(to))
    requires PlansTo(files, LatestBaselineName(rows), ReportedHistory(rows), "", target, preview, status, r) && r.Planned? && r.blocked == Unblocked
    ensures var db, local := ReportedHistory(rows), Names(All(files, LatestBaselineName(rows)));
            && (RevertSuffix(db, local) == [] ==> r.revert == [])
            && (RevertSuffix(db, local) != [] ==>
                (r.revert == Reversed(RevertSuffix(db, local)) <==> !InferredAbove(rows, PointOf(db, local, LatestBaselineName(rows)))))
  {
    hide *;
    var baseline, db := LatestBaselineName(rows), ReportedHistory(rows);
    var local := Names(All(files, baseline));
    PlanParts(files, baseline, db, target, preview, status, r);
    UnblockedLeg(db, local, baseline, preview, r.revert);
    if RevertSuffix(db, local) != [] {
      var point := PointOf(db, local, baseline);
      PointIsRecorded(rows, local);
      var k := ShowsAbove(rows, point, store, preview(point));
      SuffixRows(rows, local, k);
      MirroredIff(rows, k + 1);
      AboveIs(rows, k);
    }
  }

  lemma AboveIs(rows: seq<Row>, k: nat)
    requires Linear(rows) && k < |rows|
    ensures InferredAbove(rows, rows[k].name) <==> exists i :: k + 1 <= i < |rows| && rows[i].kind == Inferred
  {
  }

  lemma PointIsRecorded(rows: seq<Row>, local: set<string>)
    requires "" !in RowNames(rows)
    requires Convergence(ReportedHistory(rows), local) >= 0 || LatestBaselineName(rows) != ""
    ensures PointOf(ReportedHistory(rows), local, LatestBaselineName(rows)) != ""
  {
    ReportedNames(rows, VisibleFrom(rows));
    hide Convergence, VisibleFrom, Reported;
  }

  lemma {:induction false} ReportedNames(rows: seq<Row>, lo: nat)
    requires lo <= |rows|
    ensures forall n :: n in Reported(rows, lo) ==> n in RowNames(rows)
    decreases |rows| - lo
  {
    if lo < |rows| {
      ReportedNames(rows, lo + 1);
      assert rows[lo] in rows;
    }
  }
}
