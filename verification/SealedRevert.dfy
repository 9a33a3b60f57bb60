/** Reverting sealed history: planning the segment, and pruning it once its inverses have run. */
module SealedRevert {
  import opened History

  // ----- The segment -----

  /** Index after the latest baseline: the rows `SchemaHistoryWithInferred` returns start here. */
  function VisibleFrom(rows: seq<Row>): (b: nat)
    ensures b <= |rows|
    ensures forall i :: b <= i < |rows| ==> rows[i].kind != Baseline
    ensures b > 0 ==> rows[b - 1].kind == Baseline
  {
    if rows == [] || rows[|rows| - 1].kind == Baseline then |rows| else VisibleFrom(rows[..|rows| - 1])
  }

  /** On a linear history the `created_at` cut is a suffix. */
  lemma VisibleIsSuffix(rows: seq<Row>, n: string)
    requires Linear(rows)
    ensures n in Visible(rows, false) <==> exists i :: VisibleFrom(rows) <= i < |rows| && rows[i].name == n
  {
    var b := VisibleFrom(rows);
    forall i | 0 <= i < |rows| ensures AfterBaselines(rows, rows[i]) <==> b <= i {
      VisibleAt(rows, i);
    }
    hide VisibleFrom, AfterBaselines, Linear;
  }

  lemma VisibleAt(rows: seq<Row>, i: nat)
    requires Linear(rows) && i < |rows|
    ensures AfterBaselines(rows, rows[i]) <==> VisibleFrom(rows) <= i
  {
    hide *;
    CreatedInOrder(rows);
    CutAt(rows, VisibleFrom(rows), i);
  }

  lemma CutAt(rows: seq<Row>, b: nat, i: nat)
    requires i < |rows| && b <= |rows| && (b > 0 ==> rows[b - 1].kind == Baseline)
    requires forall j :: b <= j < |rows| ==> rows[j].kind != Baseline
    requires forall j, k :: 0 <= j < k < |rows| ==> rows[j].createdAt < rows[k].createdAt
    ensures AfterBaselines(rows, rows[i]) <==> b <= i
  {
    if b <= i {
      forall x | x in rows && x.kind == Baseline ensures x.createdAt < rows[i].createdAt {
        var j :| 0 <= j < |rows| && rows[j] == x;
        assert j < b;
      }
    } else {
      var x := rows[b - 1];
      assert x in rows && rows[i].createdAt <= x.createdAt;
    }
  }

  lemma CreatedInOrder(rows: seq<Row>)
    requires Linear(rows)
    ensures forall i, j :: 0 <= i < j < |rows| ==> rows[i].createdAt < rows[j].createdAt
  {
  }

  /** The boundary row: a visible one, or the baseline itself. */
  predicate IsBoundary(rows: seq<Row>, to: string, k: nat)
  {
    k < |rows| && VisibleFrom(rows) <= k + 1 && rows[k].name == to
  }

  datatype SegmentPlan =
    | Segment(boundary: nat, top: nat)
    | AtBoundary
    | BoundaryNotFound
    | ThroughNotFound
    | NotAbove
    | NotInvertible(name: string)

  /** The row a plan's segment ends at: the leaf, or the named visible row. */
  predicate IsTop(rows: seq<Row>, through: string, j: nat)
  {
    j < |rows| && if through == "" then j == |rows| - 1 else VisibleFrom(rows) <= j && rows[j].name == through
  }

  /** Finds the boundary and the top, and refuses rows that inversion cannot cover. */
  method PlanSealedSegment(rows: seq<Row>, to: string, through: string) returns (r: SegmentPlan)
    requires Linear(rows)
    ensures r.BoundaryNotFound? <==> !exists k: nat :: IsBoundary(rows, to, k)
    ensures r.ThroughNotFound? <==> !r.BoundaryNotFound? && !exists j: nat :: IsTop(rows, through, j)
    ensures r.NotAbove? <==> through != "" && exists k: nat, j: nat :: IsBoundary(rows, to, k) && IsTop(rows, through, j) && j <= k
    ensures r.AtBoundary? <==> through == "" && rows != [] && IsBoundary(rows, to, |rows| - 1)
    ensures r.Segment? ==> IsBoundary(rows, to, r.boundary) && IsTop(rows, through, r.top) && r.boundary < r.top
    ensures r.Segment? ==> forall i :: r.boundary < i <= r.top ==> Invertible(rows[i])
    ensures r.NotInvertible? ==> exists k: nat, j: nat, i: nat :: IsBoundary(rows, to, k) && IsTop(rows, through, j) && k < i <= j && !Invertible(rows[i])
  {
    var b := VisibleFrom(rows);
    var k: int := FindVisible(rows, to);
    hide VisibleFrom;
    if k == -1 {
      if b == 0 || rows[b - 1].name != to {
        assert forall j: nat :: !IsBoundary(rows, to, j);
        return BoundaryNotFound;
      }
      k := b - 1;
    }
    assert IsBoundary(rows, to, k);
    BoundaryOnce(rows, to, k);
    var top: int := |rows| - 1;
    if through != "" {
      top := FindVisible(rows, through);
      if top == -1 {
        assert forall j: nat :: !IsTop(rows, through, j);
        return ThroughNotFound;
      }
    }
    assert IsTop(rows, through, top);
    TopOnce(rows, through, top);
    hide IsBoundary, IsTop;
    if top <= k {
      return if through == "" then AtBoundary else NotAbove;
    }
    for i := k + 1 to top + 1
      invariant forall j :: k < j < i ==> Invertible(rows[j])
    {
      if !Invertible(rows[i]) {
        return NotInvertible(rows[i].name);
      }
    }
    return Segment(k, top);
  }

  lemma BoundaryOnce(rows: seq<Row>, to: string, k: nat)
    requires Linear(rows) && IsBoundary(rows, to, k)
    ensures k < |rows| && forall j: nat :: IsBoundary(rows, to, j) ==> j == k
  {
  }

  lemma TopOnce(rows: seq<Row>, through: string, k: nat)
    requires Linear(rows) && IsTop(rows, through, k)
    ensures k < |rows| && (through == "" ==> k == |rows| - 1) && forall j: nat :: IsTop(rows, through, j) ==> j == k
  {
  }

  /** The visible row of a name, or -1. */
  method FindVisible(rows: seq<Row>, name: string) returns (k: int)
    ensures k == -1 || (VisibleFrom(rows) <= k < |rows| && rows[k].name == name)
    ensures k == -1 ==> forall j :: VisibleFrom(rows) <= j < |rows| ==> rows[j].name != name
  {
    var b := VisibleFrom(rows);
    for i := b to |rows|
      invariant forall j :: b <= j < i ==> rows[j].name != name
    {
      if rows[i].name == name {
        return i;
      }
    }
    return -1;
  }

  predicate Invertible(r: Row)
  {
    !r.migration.irreversible && r.migration.ops != []
  }

  // ----- History once the inverse train has run -----

  /** Row `i` of the train is the engine's inverse of the segment row at the mirrored index. */
  ghost predicate IsInverseOf(r: Row, target: Row)
  {
    r.migration.revertOf == target.name && r.name == "revert_" + target.name && r.kind != Baseline
  }

  /** `after` is `rows`, unchanged, with the inverses of everything above index `k` on top, newest target first. */
  ghost predicate Reverted(rows: seq<Row>, k: nat, after: seq<Row>)
  {
    && k < |rows| && |after| == 2 * |rows| - k - 1
    && (forall i :: 0 <= i < |rows| ==> after[i] == rows[i])
    && (forall i :: |rows| <= i < |after| ==> IsInverseOf(after[i], rows[2 * |rows| - 1 - i]))
  }

  // ----- Deriving the boundary from history alone -----

  /** Walking down from `i`: skip inverses, and skip what they revert. */
  function Derive(rows: seq<Row>, b: nat, i: nat, reverted: set<string>): Option<string>
    requires b <= i <= |rows|
  {
    if i == b then None else
      var r := rows[i - 1];
      if r.migration.revertOf != "" then Derive(rows, b, i - 1, reverted + {r.migration.revertOf})
      else if r.name in reverted then Derive(rows, b, i - 1, reverted)
      else Some(r.name)
  }

  /** The inverses above the boundary, newest first. */
  function Inverses(rows: seq<Row>, b: nat, i: nat, to: string): seq<Row>
    requires b <= i <= |rows|
  {
    if i == b || rows[i - 1].name == to then [] else
      (if rows[i - 1].migration.revertOf != "" then [rows[i - 1]] else []) + Inverses(rows, b, i - 1, to)
  }

  function PruneNames(inverses: seq<Row>): (names: seq<string>)
    ensures |names| == 2 * |inverses|
  {
    seq(|inverses|, i requires 0 <= i < |inverses| => inverses[i].migration.revertOf) +
    seq(|inverses|, i requires 0 <= i < |inverses| => inverses[i].name)
  }

  datatype FinishResult =
    | Finished(boundary: string)
    | NothingPending
    | NoBoundary
    | PruneFailed

  predicate LeafIsInverse(rows: seq<Row>)
  {
    rows != [] && rows[|rows| - 1].migration.revertOf != ""
  }

  /** What finishing a train above `to` prunes. */
  function PendingNames(rows: seq<Row>, to: string): seq<string>
  {
    PruneNames(Inverses(rows, VisibleFrom(rows), |rows|, to))
  }

  /** How finishing above `to` ends: nothing to do without an inverse at the leaf or above the boundary. */
  function FinishOutcome(rows: seq<Row>, to: string): FinishResult
  {
    if !LeafIsInverse(rows) || PendingNames(rows, to) == [] then NothingPending
    else if CanPrune(rows, PendingNames(rows, to)) then Finished(to)
    else PruneFailed
  }

  /** The boundary as history alone tells it: the newest row neither an inverse nor reverted, or the baseline. */
  function DerivedName(rows: seq<Row>): Option<string>
  {
    var d := Derive(rows, VisibleFrom(rows), |rows|, {});
    if d.Some? then d else BaselineBelow(rows)
  }

  function PendingOutcome(rows: seq<Row>): FinishResult
  {
    if !LeafIsInverse(rows) then NothingPending
    else if DerivedName(rows).None? then NoBoundary
    else FinishOutcome(rows, DerivedName(rows).value)
  }

  /** The history a finish leaves. */
  function FinishedRows(rows: seq<Row>, r: FinishResult): seq<Row>
  {
    if r.Finished? then Pruned(rows, NameSet(PendingNames(rows, r.boundary))) else rows
  }

  /** The walk that derives the boundary. */
  method DeriveBoundary(rows: seq<Row>) returns (boundary: Option<string>)
    ensures boundary == DerivedName(rows)
  {
    var b := VisibleFrom(rows);
    var reverted: set<string> := {};
    var i := |rows|;
    while i > b
      invariant b <= i <= |rows|
      invariant Derive(rows, b, |rows|, {}) == Derive(rows, b, i, reverted)
    {
      i := i - 1;
      if rows[i].migration.revertOf != "" {
        reverted := reverted + {rows[i].migration.revertOf};
      } else if rows[i].name !in reverted {
        return Some(rows[i].name);
      }
    }
    return if b == 0 then None else Some(rows[b - 1].name);
  }

  function BaselineBelow(rows: seq<Row>): Option<string>
  {
    if VisibleFrom(rows) == 0 then None else Some(rows[VisibleFrom(rows) - 1].name)
  }

  method CollectInverses(rows: seq<Row>, to: string) returns (inverses: seq<Row>)
    ensures inverses == Inverses(rows, VisibleFrom(rows), |rows|, to)
  {
    hide Inverses, VisibleFrom;
    var b := VisibleFrom(rows);
    inverses := [];
    var i := |rows|;
    while i > b && rows[i - 1].name != to
      invariant b <= i <= |rows|
      invariant Inverses(rows, b, |rows|, to) == inverses + Inverses(rows, b, i, to)
    {
      InversesStep(rows, b, i, to, inverses);
      i := i - 1;
      if rows[i].migration.revertOf != "" {
        inverses := inverses + [rows[i]];
      }
    }
    InversesEnd(rows, b, i, to);
    assert inverses + [] == inverses;
  }

  lemma InversesEnd(rows: seq<Row>, b: nat, i: nat, to: string)
    requires b <= i <= |rows| && (i == b || rows[i - 1].name == to)
    ensures Inverses(rows, b, i, to) == []
  {
  }

  lemma InversesStep(rows: seq<Row>, b: nat, i: nat, to: string, before: seq<Row>)
    requires b < i <= |rows| && rows[i - 1].name != to
    ensures before + Inverses(rows, b, i, to) ==
            (if rows[i - 1].migration.revertOf != "" then before + [rows[i - 1]] else before) + Inverses(rows, b, i - 1, to)
  {
  }

  // ----- History ends up as if the segment had never been applied -----

  /** There is a visible segment above row `k`, and its migrations have names. */
  ghost predicate HasSegment(rows: seq<Row>, k: nat)
  {
    VisibleFrom(rows) <= k + 1 < |rows| && forall i :: k < i < |rows| ==> rows[i].name != ""
  }

  /** Nobody above the boundary is an inverse. */
  ghost predicate NoInverseAbove(rows: seq<Row>, k: nat)
  {
    forall i :: k < i < |rows| ==> rows[i].migration.revertOf == ""
  }

  ghost predicate PlainSegment(rows: seq<Row>, k: nat)
  {
    HasSegment(rows, k) && NoInverseAbove(rows, k)
  }

  ghost function SegmentNames(rows: seq<Row>, k: nat): set<string>
    requires k < |rows|
  {
    NamesBetween(rows, k + 1, |rows|)
  }

  lemma VisibleFromAfter(rows: seq<Row>, k: nat, after: seq<Row>)
    requires Reverted(rows, k, after)
    ensures VisibleFrom(after) == VisibleFrom(rows)
  {
    assert forall i :: |rows| <= i < |after| ==> after[i].kind != Baseline;
  }

  ghost function NamesBetween(rows: seq<Row>, lo: int, hi: int): set<string>
    requires 0 <= lo && hi <= |rows|
  {
    set j | lo <= j < hi :: rows[j].name
  }

  lemma NamesBetweenStep(rows: seq<Row>, lo: int, hi: int)
    requires 0 <= lo < hi <= |rows|
    ensures NamesBetween(rows, lo, hi) == NamesBetween(rows, lo + 1, hi) + {rows[lo].name}
    ensures NamesBetween(rows, lo, hi) == NamesBetween(rows, lo, hi - 1) + {rows[hi - 1].name}
  {
  }

  /** Walking through the train gathers exactly the names of the segment. */
  lemma {:induction false} DeriveTrain(rows: seq<Row>, k: nat, after: seq<Row>, b: nat, i: nat)
    requires Reverted(rows, k, after) && HasSegment(rows, k) && b <= k + 1 && |rows| <= i <= |after|
    ensures Derive(after, b, i, NamesBetween(rows, k + 1, 2 * |rows| - i)) ==
            Derive(after, b, |rows|, NamesBetween(rows, k + 1, |rows|))
  {
    hide *;
    TrainSize(rows, k, after);
    if i > |rows| {
      var hi := 2 * |rows| - i;
      NamesBetweenStep(rows, k + 1, hi + 1);
      TrainRow(rows, k, after, i - 1);
      DeriveInverse(after, b, i, NamesBetween(rows, k + 1, hi));
      DeriveTrain(rows, k, after, b, i - 1);
    }
  }

  lemma TrainSize(rows: seq<Row>, k: nat, after: seq<Row>)
    requires Reverted(rows, k, after)
    ensures k < |rows| && |after| == 2 * |rows| - k - 1
  {
  }

  lemma DeriveInverse(rows: seq<Row>, b: nat, i: nat, reverted: set<string>)
    requires b < i <= |rows| && rows[i - 1].migration.revertOf != ""
    ensures Derive(rows, b, i, reverted) == Derive(rows, b, i - 1, reverted + {rows[i - 1].migration.revertOf})
  {
  }

  lemma TrainRow(rows: seq<Row>, k: nat, after: seq<Row>, i: nat)
    requires Reverted(rows, k, after) && HasSegment(rows, k) && |rows| <= i < |after|
    ensures after[i].migration.revertOf == rows[2 * |rows| - 1 - i].name != ""
  {
    assert IsInverseOf(after[i], rows[2 * |rows| - 1 - i]);
  }

  /** Walking through the segment stops nowhere. */
  lemma {:induction false} DeriveSegment(rows: seq<Row>, k: nat, after: seq<Row>, b: nat, i: nat)
    requires Reverted(rows, k, after) && PlainSegment(rows, k) && b <= k + 1 <= i <= |rows|
    ensures Derive(after, b, i, SegmentNames(rows, k)) == Derive(after, b, k + 1, SegmentNames(rows, k))
  {
    if i > k + 1 {
      DeriveSegment(rows, k, after, b, i - 1);
      assert after[i - 1].name in SegmentNames(rows, k);
    }
  }

  lemma {:induction false} DeriveNames(rows: seq<Row>, b: nat, i: nat, reverted: set<string>)
    requires b <= i <= |rows|
    ensures var d := Derive(rows, b, i, reverted); d.Some? ==> exists j :: b <= j < i && rows[j].name == d.value
  {
    if i > b {
      var r := rows[i - 1];
      DeriveNames(rows, b, i - 1, reverted);
      DeriveNames(rows, b, i - 1, reverted + {r.migration.revertOf});
    }
  }

  /**
   * The boundary recovered from history is the planned one exactly when the planned boundary is the
   * baseline or is not itself an inverse.
   */
  lemma DerivedBoundary(rows: seq<Row>, k: nat, after: seq<Row>)
    requires Linear(rows) && Reverted(rows, k, after) && PlainSegment(rows, k)
    ensures DerivedName(after) == Some(rows[k].name) <==> k + 1 == VisibleFrom(rows) || rows[k].migration.revertOf == ""
  {
    hide *;
    PlainIs(rows, k);
    VisibleFromAfter(rows, k, after);
    SamePrefix(rows, k, after);
    assert after[k] == rows[k] by { assert after[..k + 1][k] == rows[..k + 1][k]; }
    var b := VisibleFrom(rows);
    DerivedNameIs(after);
    if b <= k && rows[k].migration.revertOf != "" {
      if DerivedName(after).Some? {
        DerivedBelow(rows, k, after);
        SamePrefixNames(rows, k, after, DerivedName(after).value);
      }
    } else {
      DeriveTrain(rows, k, after, b, |after|);
      NoneBetween(rows, k);
      DeriveSegment(rows, k, after, b, |rows|);
      NotInSegment(rows, k);
      DeriveStops(after, b, k + 1, SegmentNames(rows, k));
    }
  }

  /** The walk ends at the baseline, or at a row that is neither an inverse nor reverted. */
  lemma DeriveStops(rows: seq<Row>, b: nat, i: nat, reverted: set<string>)
    requires b <= i <= |rows| && 0 < i && (b < i ==> rows[i - 1].migration.revertOf == "" && rows[i - 1].name !in reverted)
    ensures Derive(rows, b, i, reverted) == if b == i then None else Some(rows[i - 1].name)
  {
  }

  lemma NotInSegment(rows: seq<Row>, k: nat)
    requires Linear(rows) && k < |rows|
    ensures rows[k].name !in SegmentNames(rows, k)
  {
  }

  lemma SamePrefixNames(rows: seq<Row>, k: nat, after: seq<Row>, name: string)
    requires Linear(rows) && k < |rows| && k < |after| && after[..k + 1] == rows[..k + 1] && exists j :: 0 <= j < k && after[j].name == name
    ensures name != rows[k].name
  {
    var j :| 0 <= j < k && after[j].name == name;
    assert after[..k + 1][j] == rows[..k + 1][j];
  }

  /** When the planned boundary is itself an inverse, the derived one lies below it. */
  lemma DerivedBelow(rows: seq<Row>, k: nat, after: seq<Row>)
    requires Linear(rows) && Reverted(rows, k, after) && PlainSegment(rows, k)
    requires VisibleFrom(rows) <= k && rows[k].migration.revertOf != "" && DerivedName(after).Some?
    ensures exists j :: 0 <= j < k && after[j].name == DerivedName(after).value
  {
    hide *;
    PlainIs(rows, k);
    VisibleFromAfter(rows, k, after);
    SamePrefix(rows, k, after);
    assert after[k] == rows[k] by { assert after[..k + 1][k] == rows[..k + 1][k]; }
    var b := VisibleFrom(rows);
    DeriveTrain(rows, k, after, b, |after|);
    NoneBetween(rows, k);
    DeriveSegment(rows, k, after, b, |rows|);
    DeriveInverse(after, b, k + 1, SegmentNames(rows, k));
    DeriveNames(after, b, k, SegmentNames(rows, k) + {rows[k].migration.revertOf});
    DerivedNameIs(after);
  }

  lemma NoneBetween(rows: seq<Row>, k: nat)
    requires k < |rows|
    ensures NamesBetween(rows, k + 1, k + 1) == {} && SegmentNames(rows, k) == NamesBetween(rows, k + 1, |rows|)
  {
  }

  lemma DerivedNameIs(rows: seq<Row>)
    ensures var d, b := Derive(rows, VisibleFrom(rows), |rows|, {}), VisibleFrom(rows);
            DerivedName(rows) == if d.Some? then d else if b == 0 then None else Some(rows[b - 1].name)
  {
    hide Derive, VisibleFrom;
  }

  /** Every inverse above the boundary is collected. */
  lemma {:induction false} InversesHold(rows: seq<Row>, b: nat, i: nat, to: string, j: nat)
    requires b <= j < i <= |rows| && rows[j].migration.revertOf != "" && forall m :: j <= m < i ==> rows[m].name != to
    ensures rows[j] in Inverses(rows, b, i, to)
  {
    if j < i - 1 {
      InversesHold(rows, b, i - 1, to, j);
    }
  }

  lemma PruneNamesHold(inverses: seq<Row>, r: Row)
    requires r in inverses
    ensures r.name in NameSet(PruneNames(inverses))
  {
    var i :| 0 <= i < |inverses| && inverses[i] == r;
    assert PruneNames(inverses)[|inverses| + i] == r.name;
  }

  /** Above index `k` the first rows are plain, the rows from `n` on are inverses, and no name recurs. */
  ghost predicate Layout(after: seq<Row>, k: nat, n: nat)
  {
    && k < n <= |after|
    && (forall i :: k < i < n ==> after[i].migration.revertOf == "")
    && (forall i :: n <= i < |after| ==> after[i].migration.revertOf != "")
    && (forall i, j :: 0 <= i < j < |after| ==> after[i].name != after[j].name)
  }

  lemma LayoutAfter(rows: seq<Row>, k: nat, after: seq<Row>)
    requires Linear(after) && Reverted(rows, k, after) && PlainSegment(rows, k)
    ensures Layout(after, k, |rows|)
  {
    forall i | |rows| <= i < |after| ensures after[i].migration.revertOf != "" {
      assert IsInverseOf(after[i], rows[2 * |rows| - 1 - i]);
    }
  }

  /** The inverses above the boundary are the whole train, newest first. */
  lemma {:induction false} InversesOfTrain(after: seq<Row>, k: nat, n: nat, b: nat, i: nat)
    requires Layout(after, k, n) && b <= k + 1 && k < i <= |after|
    ensures var inv := Inverses(after, b, i, after[k].name);
            |inv| == (if i <= n then 0 else i - n) && forall j :: 0 <= j < |inv| ==> inv[j] == after[i - 1 - j]
  {
    if i > k + 1 {
      InversesOfTrain(after, k, n, b, i - 1);
    }
  }

  /** The names of rows `lo` to `hi`, oldest first. */
  function Upwards(rows: seq<Row>, lo: nat, hi: nat): (r: seq<string>)
    requires lo <= hi <= |rows|
    ensures |r| == hi - lo && forall i :: 0 <= i < |r| ==> r[i] == rows[lo + i].name
  {
    seq(hi - lo, i requires 0 <= i < hi - lo => rows[lo + i].name)
  }

  /** The names of rows `lo` to `hi`, newest first. */
  function Downwards(rows: seq<Row>, lo: nat, hi: nat): (r: seq<string>)
    requires lo <= hi <= |rows|
    ensures |r| == hi - lo && forall i :: 0 <= i < |r| ==> r[i] == rows[hi - 1 - i].name
  {
    seq(hi - lo, i requires 0 <= i < hi - lo => rows[hi - 1 - i].name)
  }

  lemma WalkNames(rows: seq<Row>, lo: nat, hi: nat)
    requires lo <= hi <= |rows|
    ensures NameSet(Upwards(rows, lo, hi)) == NamesBetween(rows, lo, hi) == NameSet(Downwards(rows, lo, hi))
  {
    forall j | lo <= j < hi ensures rows[j].name in Upwards(rows, lo, hi) && rows[j].name in Downwards(rows, lo, hi) {
      assert Upwards(rows, lo, hi)[j - lo] == rows[j].name;
      assert Downwards(rows, lo, hi)[hi - 1 - j] == rows[j].name;
    }
  }

  /** What a finished revert prunes: the segment upwards, then the train downwards. */
  lemma PrunedNames(rows: seq<Row>, k: nat, after: seq<Row>)
    requires Linear(after) && Reverted(rows, k, after) && PlainSegment(rows, k)
    ensures PruneNames(Inverses(after, VisibleFrom(after), |after|, rows[k].name)) ==
            Upwards(after, k + 1, |rows|) + Downwards(after, |rows|, |after|)
  {
    hide *;
    PlainIs(rows, k);
    Basics(rows, k, after);
    LayoutAfter(rows, k, after);
    TrainMirrored(after, k, |rows|, VisibleFrom(after));
    NamesOf(Inverses(after, VisibleFrom(after), |after|, after[k].name), rows, k, after);
  }

  /** The rows from `n` on, newest first. */
  ghost predicate Mirrors(inv: seq<Row>, after: seq<Row>, n: nat)
  {
    n <= |after| && |inv| == |after| - n && forall i :: 0 <= i < |inv| ==> inv[i] == after[|after| - 1 - i]
  }

  lemma TrainMirrored(after: seq<Row>, k: nat, n: nat, b: nat)
    requires Layout(after, k, n) && b <= k + 1
    ensures Mirrors(Inverses(after, b, |after|, after[k].name), after, n)
  {
    hide Inverses;
    InversesOfTrain(after, k, n, b, |after|);
  }

  lemma Basics(rows: seq<Row>, k: nat, after: seq<Row>)
    requires Reverted(rows, k, after) && HasSegment(rows, k)
    ensures k < |rows| < |after| && rows[k].name == after[k].name && VisibleFrom(after) <= k + 1
  {
    VisibleFromAfter(rows, k, after);
  }

  lemma InverseAt(rows: seq<Row>, k: nat, after: seq<Row>, i: nat)
    requires Reverted(rows, k, after) && i < |rows| - k - 1
    ensures after[|after| - 1 - i].migration.revertOf == after[k + 1 + i].name
  {
    assert IsInverseOf(after[|after| - 1 - i], rows[k + 1 + i]);
  }

  lemma NamesOf(inv: seq<Row>, rows: seq<Row>, k: nat, after: seq<Row>)
    requires Reverted(rows, k, after) && Mirrors(inv, after, |rows|)
    ensures PruneNames(inv) == Upwards(after, k + 1, |rows|) + Downwards(after, |rows|, |after|)
  {
    var targets := seq(|inv|, i requires 0 <= i < |inv| => inv[i].migration.revertOf);
    var names := seq(|inv|, i requires 0 <= i < |inv| => inv[i].name);
    forall i | 0 <= i < |inv| ensures targets[i] == after[k + 1 + i].name {
      InverseAt(rows, k, after, i);
    }
    hide Reverted;
    assert targets == Upwards(after, k + 1, |rows|);
    assert names == Downwards(after, |rows|, |after|);
  }

  /** Names that are those of the rows above index `k`, as a set. */
  lemma ExactNames(after: seq<Row>, k: nat, n: nat, a: seq<string>, b: seq<string>)
    requires Linear(after) && k < n <= |after|
    requires NameSet(a) == NamesBetween(after, k + 1, n) && NameSet(b) == NamesBetween(after, n, |after|)
    ensures NameSet(a + b) == NamesBetween(after, k + 1, |after|)
    ensures forall i :: 0 <= i < |after| ==> (after[i].name in NameSet(a + b) <==> i > k)
  {
    assert NameSet(a + b) == NameSet(a) + NameSet(b) by {
      assert forall n :: n in a + b <==> n in a || n in b;
    }
    assert NamesBetween(after, k + 1, |after|) == NamesBetween(after, k + 1, n) + NamesBetween(after, n, |after|);
    hide NameSet;
  }

  lemma {:induction false} CountAbove(rows: seq<Row>, names: set<string>, k: nat)
    requires k <= |rows| && forall i :: 0 <= i < |rows| ==> (rows[i].name in names <==> i >= k)
    ensures CountNamed(rows, names) == |rows| - k
  {
    if rows != [] {
      if k < |rows| {
        CountAbove(rows[..|rows| - 1], names, k);
      } else {
        CountAbove(rows[..|rows| - 1], names, k - 1);
      }
    }
  }

  /**
   * A finished sealed revert leaves exactly the original history up to the boundary, with its
   * original parents; and the prune cannot fail.
   */
  lemma AsIfNeverApplied(rows: seq<Row>, k: nat, after: seq<Row>)
    requires Linear(after) && Reverted(rows, k, after) && PlainSegment(rows, k)
    ensures var names := PendingNames(after, rows[k].name);
            && CountNamed(after, NameSet(names)) == |names| == 2 * (|rows| - k - 1)
            && Pruned(after, NameSet(names)) == rows[..k + 1]
            && NameSet(names) == NamesBetween(after, k + 1, |after|)
  {
    hide *;
    PlainIs(rows, k);
    Basics(rows, k, after);
    PrunedNames(rows, k, after);
    WalkNames(after, k + 1, |rows|);
    WalkNames(after, |rows|, |after|);
    var a, b := Upwards(after, k + 1, |rows|), Downwards(after, |rows|, |after|);
    ExactNames(after, k, |rows|, a, b);
    SamePrefix(rows, k, after);
    CountAbove(after, NameSet(a + b), k + 1);
    PruneSuffix(after, NameSet(a + b), k + 1);
    PendingNamesIs(after, rows[k].name);
  }

  /** Finishing above the planned boundary, with the whole train in place, never fails. */
  lemma FinishesAbove(rows: seq<Row>, k: nat, after: seq<Row>)
    requires Linear(after) && Reverted(rows, k, after) && PlainSegment(rows, k)
    ensures FinishOutcome(after, rows[k].name) == Finished(rows[k].name)
    ensures FinishedRows(after, Finished(rows[k].name)) == rows[..k + 1]
  {
    hide *;
    PlainIs(rows, k);
    AsIfNeverApplied(rows, k, after);
    CountMatches(after, PendingNames(after, rows[k].name));
    Basics(rows, k, after);
    LeafReverted(rows, k, after);
    OutcomeIs(after, rows[k].name);
  }

  lemma LeafReverted(rows: seq<Row>, k: nat, after: seq<Row>)
    requires Reverted(rows, k, after) && HasSegment(rows, k)
    ensures LeafIsInverse(after) && 0 < |rows| - k - 1
  {
    TrainRow(rows, k, after, |after| - 1);
  }

  lemma OutcomeIs(rows: seq<Row>, to: string)
    requires LeafIsInverse(rows)
    ensures FinishOutcome(rows, to) == if |PendingNames(rows, to)| == 0 then NothingPending
                                       else if CanPrune(rows, PendingNames(rows, to)) then Finished(to) else PruneFailed
    ensures FinishedRows(rows, Finished(to)) == Pruned(rows, NameSet(PendingNames(rows, to)))
  {
    hide PendingNames, CanPrune, Pruned;
  }

  lemma PendingOutcomeIs(rows: seq<Row>)
    requires LeafIsInverse(rows)
    ensures PendingOutcome(rows) == if DerivedName(rows).None? then NoBoundary else FinishOutcome(rows, DerivedName(rows).value)
    ensures PendingOutcome(rows).Finished? ==> DerivedName(rows) == Some(PendingOutcome(rows).boundary)
    ensures !PendingOutcome(rows).Finished? ==> FinishedRows(rows, PendingOutcome(rows)) == rows
  {
    hide PendingNames, CanPrune, DerivedName;
  }

  /**
   * Finishing from history alone leaves the history up to the planned boundary exactly when that boundary is
   * the baseline or is not itself an inverse, and no inverse was above it before the train ran; otherwise it
   * prunes something at or below the boundary, or nothing at all.
   */
  lemma FinishRestores(rows: seq<Row>, k: nat, after: seq<Row>)
    requires Linear(rows) && Linear(after) && Reverted(rows, k, after) && HasSegment(rows, k)
    ensures k < |rows|
    ensures FinishedRows(after, PendingOutcome(after)) == rows[..k + 1]
            <==> (k + 1 == VisibleFrom(rows) || rows[k].migration.revertOf == "") && NoInverseAbove(rows, k)
  {
    hide *;
    Basics(rows, k, after);
    LeafReverted(rows, k, after);
    PendingOutcomeIs(after);
    if !NoInverseAbove(rows, k) {
      var i := SomeInverse(rows, k);
      if DerivedName(after).Some? {
        DerivedAtMost(rows, k, after);
        PendingTakesMore(rows, k, after, DerivedName(after).value, i);
      }
    } else {
      PlainIs(rows, k);
      DerivedBoundary(rows, k, after);
      FinishesAbove(rows, k, after);
      if k + 1 != VisibleFrom(rows) && rows[k].migration.revertOf != "" && PendingOutcome(after).Finished? {
        BoundaryVisible(rows, k);
        DerivedBelow(rows, k, after);
        BoundaryPruned(rows, k, after, PendingOutcome(after).boundary);
      }
    }
  }

  lemma PlainIs(rows: seq<Row>, k: nat)
    ensures PlainSegment(rows, k) <==> HasSegment(rows, k) && NoInverseAbove(rows, k)
    ensures HasSegment(rows, k) ==> VisibleFrom(rows) <= k + 1 < |rows|
  {
    hide NoInverseAbove, VisibleFrom;
  }

  lemma SomeInverse(rows: seq<Row>, k: nat) returns (i: nat)
    requires !NoInverseAbove(rows, k)
    ensures k < i < |rows| && rows[i].migration.revertOf != ""
  {
    i :| k < i < |rows| && rows[i].migration.revertOf != "";
  }

  /** Whatever the segment holds, the walk that derives the boundary goes through it. */
  lemma {:induction false} DerivePast(rows: seq<Row>, k: nat, after: seq<Row>, b: nat, i: nat, reverted: set<string>) returns (more: set<string>)
    requires Reverted(rows, k, after) && b <= k + 1 <= i <= |rows| && SegmentNames(rows, k) <= reverted
    ensures Derive(after, b, i, reverted) == Derive(after, b, k + 1, more)
  {
    more := reverted;
    if i > k + 1 {
      assert after[i - 1].name in SegmentNames(rows, k);
      hide Reverted, SegmentNames;
      if after[i - 1].migration.revertOf != "" {
        more := DerivePast(rows, k, after, b, i - 1, reverted + {after[i - 1].migration.revertOf});
      } else {
        more := DerivePast(rows, k, after, b, i - 1, reverted);
      }
    }
  }

  lemma DerivedAtMost(rows: seq<Row>, k: nat, after: seq<Row>)
    requires Linear(after) && Reverted(rows, k, after) && HasSegment(rows, k) && DerivedName(after).Some?
    ensures forall m :: k < m < |after| ==> after[m].name != DerivedName(after).value
  {
    hide *;
    PlainIs(rows, k);
    VisibleFromAfter(rows, k, after);
    TrainSize(rows, k, after);
    var b := VisibleFrom(rows);
    DeriveTrain(rows, k, after, b, |after|);
    NoneBetween(rows, k);
    var more := DerivePast(rows, k, after, b, |rows|, SegmentNames(rows, k));
    DeriveNames(after, b, k + 1, more);
    DerivedNameIs(after);
    NamesAbove(after, k, DerivedName(after).value);
  }

  lemma NamesAbove(rows: seq<Row>, k: nat, name: string)
    requires Linear(rows) && exists j :: 0 <= j <= k && j < |rows| && rows[j].name == name
    ensures forall m :: k < m < |rows| ==> rows[m].name != name
  {
  }

  /** An inverse that was in the segment already takes its own target with it, which the train does not undo. */
  lemma PendingTakesMore(rows: seq<Row>, k: nat, after: seq<Row>, to: string, i: nat)
    requires Linear(after) && Reverted(rows, k, after) && HasSegment(rows, k)
    requires k < i < |rows| && rows[i].migration.revertOf != "" && forall m :: k < m < |after| ==> after[m].name != to
    ensures var f := FinishOutcome(after, to);
            (f == Finished(to) || f == PruneFailed) && FinishedRows(after, f) != rows[..k + 1]
  {
    hide *;
    Basics(rows, k, after);
    LeafReverted(rows, k, after);
    TrainSize(rows, k, after);
    OutcomeIs(after, to);
    var inv := Inverses(after, VisibleFrom(after), |after|, to);
    PendingNamesIs(after, to);
    assert after[i] == rows[i] by { SameRow(rows, k, after, i); }
    InversesHold(after, VisibleFrom(after), |after|, to, i);
    var p := IndexIn(inv, after[i]);
    PruneNamesAt(inv, p);
    NotFinished(after);
    if CanPrune(after, PendingNames(after, to)) {
      var y := after[i].migration.revertOf;
      var q := RecordedAt(after, PruneNames(inv), p);
      if k < q {
        RepeatedTarget(rows, k, after, to, i, p, q);
      } else {
        TargetPruned(after, to, q, k);
        SamePrefix(rows, k, after);
      }
    }
  }

  lemma NotFinished(rows: seq<Row>)
    ensures FinishedRows(rows, PruneFailed) == rows
  {
  }

  lemma SameRow(rows: seq<Row>, k: nat, after: seq<Row>, i: nat)
    requires Reverted(rows, k, after) && i < |rows|
    ensures |rows| <= |after| && after[i] == rows[i]
  {
  }

  lemma IndexIn(inv: seq<Row>, r: Row) returns (p: nat)
    requires r in inv
    ensures p < |inv| && inv[p] == r
  {
    p :| 0 <= p < |inv| && inv[p] == r;
  }

  lemma PruneNamesAt(inv: seq<Row>, p: nat)
    requires p < |inv|
    ensures PruneNames(inv)[p] == inv[p].migration.revertOf && PruneNames(inv)[|inv| + p] == inv[p].name
  {
  }

  lemma RecordedAt(rows: seq<Row>, names: seq<string>, p: nat) returns (q: nat)
    requires CanPrune(rows, names) && p < |names|
    ensures q < |rows| && rows[q].name == names[p]
  {
    assert names[p] in RowNames(rows);
    q :| 0 <= q < |rows| && rows[q].name == names[p];
  }

  /** A name above the boundary is already there as a target or as an inverse of the train. */
  lemma RepeatedTarget(rows: seq<Row>, k: nat, after: seq<Row>, to: string, i: nat, p: nat, q: nat)
    requires Linear(after) && Reverted(rows, k, after) && HasSegment(rows, k) && k < i < |rows| && k < q < |after|
    requires forall m :: k < m < |after| ==> after[m].name != to
    requires var inv := Inverses(after, VisibleFrom(after), |after|, to); p < |inv| && inv[p] == after[i] && after[q].name == PruneNames(inv)[p]
    ensures !CanPrune(after, PruneNames(Inverses(after, VisibleFrom(after), |after|, to)))
  {
    hide *;
    Basics(rows, k, after);
    TrainSize(rows, k, after);
    var b := VisibleFrom(after);
    var inv := Inverses(after, b, |after|, to);
    var m := if q < |rows| then 2 * |rows| - 1 - q else q;
    TrainRow(rows, k, after, m);
    InversesHold(after, b, |after|, to, m);
    var s := IndexIn(inv, after[m]);
    PruneNamesAt(inv, s);
    PruneNamesAt(inv, p);
    if q < |rows| {
      SameRow(rows, k, after, q);
      OtherRow(after, i, m);
      Twice(after, PruneNames(inv), p, s);
    } else {
      Twice(after, PruneNames(inv), p, |inv| + s);
    }
  }

  lemma OtherRow(rows: seq<Row>, i: nat, m: nat)
    requires Linear(rows) && i < m < |rows|
    ensures rows[i] != rows[m]
  {
  }

  lemma Twice(rows: seq<Row>, names: seq<string>, p: nat, s: nat)
    requires p < |names| && s < |names| && p != s && names[p] == names[s]
    ensures !CanPrune(rows, names)
  {
  }

  lemma TargetPruned(after: seq<Row>, to: string, q: nat, k: nat)
    requires q <= k < |after| && after[q].name in PendingNames(after, to)
    ensures FinishedRows(after, Finished(to)) != after[..k + 1]
  {
    hide Inverses, VisibleFrom, PruneNames, FinishedRows;
    NotKept(after, to, q);
    assert after[..k + 1][q] in after[..k + 1];
  }

  lemma BoundaryVisible(rows: seq<Row>, k: nat)
    requires HasSegment(rows, k) && k + 1 != VisibleFrom(rows)
    ensures VisibleFrom(rows) <= k
  {
  }

  /** Finishing above a lower boundary prunes the planned one. */
  lemma BoundaryPruned(rows: seq<Row>, k: nat, after: seq<Row>, to: string)
    requires Linear(after) && Reverted(rows, k, after) && VisibleFrom(rows) <= k && rows[k].migration.revertOf != ""
    requires exists j :: 0 <= j < k && after[j].name == to
    ensures FinishedRows(after, Finished(to)) != rows[..k + 1]
  {
    VisibleFromAfter(rows, k, after);
    SamePrefix(rows, k, after);
    assert rows[k] == after[k];
    NamesAbove(after, k - 1, to);
    hide *;
    InversesHold(after, VisibleFrom(after), |after|, to, k);
    PruneNamesHold(Inverses(after, VisibleFrom(after), |after|, to), after[k]);
    NotKept(after, to, k);
    assert rows[..k + 1][k] == after[k];
  }

  lemma NotKept(rows: seq<Row>, to: string, k: nat)
    requires k < |rows| && rows[k].name in NameSet(PruneNames(Inverses(rows, VisibleFrom(rows), |rows|, to)))
    ensures forall r :: r in FinishedRows(rows, Finished(to)) ==> r.name != rows[k].name
  {
    var names := NameSet(PendingNames(rows, to));
    hide Inverses, VisibleFrom, PruneNames, NameSet, Keep;
    var kept := Keep(rows, names);
    forall r | r in Rewire(kept) ensures r.name != rows[k].name {
      var i :| 0 <= i < |kept| && Rewire(kept)[i] == r;
      assert kept[i] in kept;
    }
  }

  lemma PendingNamesIs(rows: seq<Row>, to: string)
    ensures PendingNames(rows, to) == PruneNames(Inverses(rows, VisibleFrom(rows), |rows|, to))
  {
  }

  lemma SamePrefix(rows: seq<Row>, k: nat, after: seq<Row>)
    requires Reverted(rows, k, after)
    ensures k < |rows| && |after| == 2 * |rows| - k - 1 && after[..k + 1] == rows[..k + 1]
  {
  }
}
