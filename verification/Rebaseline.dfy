/** In-place conversion of an applied migration into a baseline, and why it is safe for resolution. */
module Rebaseline {
  import opened Migrations
  import opened NameOrder
  import opened TopoSort
  import opened Resolve
  import H = History

  // ----- The audits -----

  /** The anchor is applied and contracted, nothing is active, and nothing below it is still open. */
  ghost predicate Contracted(rows: seq<H.Row>, a: H.Row)
  {
    && a.done && a.sealed && !a.deferred
    && (forall r | r in rows :: r.done)
    && (forall r | r in rows && r.createdAt <= a.createdAt && r.name != a.name :: r.sealed && !r.deferred)
  }

  /** No baseline would mask the anchor, and name order agrees with apply order across it. */
  ghost predicate CutsAgree(rows: seq<H.Row>, a: H.Row)
  {
    && (forall r | r in rows && r.kind == H.Baseline :: r.createdAt < a.createdAt)
    && (forall r | r in rows && r.name != a.name && r.kind != H.Inferred && r.createdAt <= a.createdAt :: Leq(r.name, a.name))
    && (forall r | r in rows && r.name != a.name && r.kind != H.Inferred && r.createdAt > a.createdAt :: Less(a.name, r.name))
  }

  ghost predicate AuditsPass(rows: seq<H.Row>, a: H.Row)
  {
    a in rows && a.kind == H.Pgroll && Contracted(rows, a) && CutsAgree(rows, a)
  }

  /** The conversion touches the anchor's type and nothing else. */
  function Converted(rows: seq<H.Row>, name: string): (r: seq<H.Row>)
    ensures |r| == |rows|
    ensures forall i :: 0 <= i < |rows| ==> r[i] == if rows[i].name == name then rows[i].(kind := H.Baseline) else rows[i]
  {
    seq(|rows|, i requires 0 <= i < |rows| => if rows[i].name == name then rows[i].(kind := H.Baseline) else rows[i])
  }

  ghost predicate OneRowPerName(rows: seq<H.Row>)
  {
    forall i, j :: 0 <= i < j < |rows| ==> rows[i].name != rows[j].name
  }

  // ----- Both cuts after the conversion -----

  lemma ConvertedMembers(rows: seq<H.Row>, a: H.Row)
    requires OneRowPerName(rows) && a in rows
    ensures a.(kind := H.Baseline) in Converted(rows, a.name)
    ensures forall r | r in Converted(rows, a.name) :: r == a.(kind := H.Baseline) || (r in rows && r.name != a.name)
    ensures forall r | r in rows && r != a :: r in Converted(rows, a.name) && r.name != a.name
  {
    var c := Converted(rows, a.name);
    var k :| 0 <= k < |rows| && rows[k] == a;
    assert c[k] == a.(kind := H.Baseline);
    forall r | r in c ensures r == a.(kind := H.Baseline) || (r in rows && r.name != a.name) {
      var i :| 0 <= i < |c| && c[i] == r;
      assert i != k ==> rows[i].name != a.name;
    }
    forall r | r in rows && r != a ensures r in c && r.name != a.name {
      var i :| 0 <= i < |rows| && rows[i] == r;
      assert c[i] == r;
    }
  }

  /** After the conversion the anchor is the one latest baseline. */
  lemma AnchorIsBaseline(rows: seq<H.Row>, a: H.Row, name: string)
    requires OneRowPerName(rows) && AuditsPass(rows, a)
    ensures H.BaselineName(Converted(rows, a.name), name) <==> name == a.name
  {
    ConvertedMembers(rows, a);
    var b := a.(kind := H.Baseline);
    forall r ensures H.IsLatestBaseline(Converted(rows, a.name), r) <==> r == b {
      hide Converted, Contracted;
    }
    assert H.IsLatestBaseline(Converted(rows, a.name), b);
  }

  /** History after the conversion is exactly history before it restricted to names after the anchor. */
  lemma VisibleAfter(rows: seq<H.Row>, a: H.Row, n: string)
    requires OneRowPerName(rows) && AuditsPass(rows, a)
    ensures n in H.Visible(Converted(rows, a.name), true) <==> n in H.Visible(rows, true) && Less(a.name, n)
  {
    ConvertedMembers(rows, a);
    hide Converted, Contracted;
    var c, b := Converted(rows, a.name), a.(kind := H.Baseline);
    forall r | r in c ensures H.AfterBaselines(c, r) <==> r.createdAt > a.createdAt {
      assert b in c;
    }
    if n in H.Visible(c, true) {
      var r :| r in c && H.AfterBaselines(c, r) && r.kind != H.Inferred && r.name == n;
      assert r in rows && r.createdAt > a.createdAt;
      assert H.AfterBaselines(rows, r);
    }
    if n in H.Visible(rows, true) && Less(a.name, n) {
      var r :| r in rows && H.AfterBaselines(rows, r) && r.kind != H.Inferred && r.name == n;
      Total(n, n);
      assert r != a && r in c && r.createdAt > a.createdAt;
    }
  }

  /** The old baseline's name sorts below the anchor. */
  lemma OldBaselineBelow(rows: seq<H.Row>, a: H.Row, base: string)
    requires OneRowPerName(rows) && AuditsPass(rows, a) && H.BaselineName(rows, base)
    ensures Leq(base, a.name)
  {
    if b :| H.IsLatestBaseline(rows, b) && b.name == base {
      assert b.createdAt < a.createdAt;
      if b.name == a.name {
        Total(base, base);
      }
    }
  }

  // ----- Resolution before and after -----

  function AboveAnchor(anchor: string): RawMigration -> bool
  {
    (m: RawMigration) => Less(anchor, m.name)
  }

  /** `files'` is the directory truncated at the anchor: nothing after the anchor is lost or added. */
  ghost predicate Truncated(files: seq<RawMigration>, anchor: string, files': seq<RawMigration>)
  {
    DistinctNames(files') && Filter(AboveAnchor(anchor), files') == Filter(AboveAnchor(anchor), files)
  }

  lemma TruncatedMembers(files: seq<RawMigration>, anchor: string, files': seq<RawMigration>, m: RawMigration)
    requires Truncated(files, anchor, files') && Less(anchor, m.name)
    ensures m in files' <==> m in files
  {
    assert m in Filter(AboveAnchor(anchor), files') <==> m in Filter(AboveAnchor(anchor), files);
  }

  /** Everything resolution looks at, before and after a conversion at `anchor`. */
  datatype Cut = Cut(files: seq<RawMigration>, files': seq<RawMigration>, base: string, anchor: string,
                     applied: set<string>, applied': set<string>, target: string)

  ghost predicate GoodCut(c: Cut)
  {
    && DistinctNames(c.files) && Truncated(c.files, c.anchor, c.files') && Leq(c.base, c.anchor)
    && forall n :: n in c.applied' <==> n in c.applied && Less(c.anchor, n)
  }

  ghost function Before(c: Cut): seq<RawMigration> { Unapplied(c.files, c.base, c.applied, c.target) }

  ghost function After(c: Cut): seq<RawMigration> { Unapplied(c.files', c.anchor, c.applied', c.target) }

  /** The unapplied list afterwards is the earlier one restricted to names after the anchor. */
  lemma UnappliedAfter(c: Cut)
    requires GoodCut(c)
    ensures After(c) == Filter(AboveAnchor(c.anchor), Before(c))
  {
    var above := AboveAnchor(c.anchor);
    var now := (m: RawMigration) => Less(c.anchor, m.name) && SelectedBy(m, c.target) && m.name !in c.applied';
    var was := (m: RawMigration) => Less(c.base, m.name) && SelectedBy(m, c.target) && m.name !in c.applied;
    var either := (m: RawMigration) => SelectedBy(m, c.target) && m.name !in c.applied;
    FilterTwice(either, above, now, c.files');
    FilterTwice(above, was, x => above(x) && either(x), c.files) by {
      forall m | m in c.files && above(m) ensures Less(c.base, m.name) {
        LessTransitive(c.base, c.anchor, m.name);
      }
    }
    FilterTwice(either, above, x => above(x) && either(x), c.files);
  }

  /** A run that resolved before neither lacks a target nor mismatches afterwards. */
  lemma NoNewError(c: Cut, r: Resolution)
    requires GoodCut(c) && ResolvesTo(c.files, c.base, c.applied, c.target, r) && r.Resolved?
    ensures !SomeUntagged(c.files', c.anchor, c.applied', c.target)
    ensures c.applied' <= Names(All(c.files', c.anchor))
  {
    forall m | m in c.files' && Less(c.anchor, m.name) ensures !Untagged(m, c.anchor, c.applied', c.target) {
      TruncatedMembers(c.files, c.anchor, c.files', m);
      LessTransitive(c.base, c.anchor, m.name);
      assert !Untagged(m, c.base, c.applied, c.target);
    }
    forall n | n in c.applied' ensures n in Names(All(c.files', c.anchor)) {
      assert n in Names(All(c.files, c.base));
      var m :| m in All(c.files, c.base) && m.name == n;
      TruncatedMembers(c.files, c.anchor, c.files', m);
      assert m in All(c.files', c.anchor);
    }
  }

  /** No migration still to be applied depends on a name the truncation hides. */
  ghost predicate NoDependencyBelow(c: Cut)
  {
    forall m, d | m in After(c) && d in m.dependsOn :: Less(c.anchor, d)
  }

  /** Dependencies stay known afterwards exactly when none of them is at or below the anchor. */
  lemma KnownAfter(c: Cut, r: Resolution)
    requires GoodCut(c) && ResolvesTo(c.files, c.base, c.applied, c.target, r) && r.Resolved?
    ensures AllKnown(After(c), c.applied', Excluded(c.files', c.anchor, c.target)) <==> NoDependencyBelow(c)
  {
    UnappliedAfter(c);
    var ex, ex' := Excluded(c.files, c.base, c.target), Excluded(c.files', c.anchor, c.target);
    forall d ensures d in ex' <==> d in ex && Less(c.anchor, d) {
      ExcludedAfter(c, d);
    }
    forall d ensures d in Names(After(c)) <==> d in Names(Before(c)) && Less(c.anchor, d) {
      if d in Names(Before(c)) && Less(c.anchor, d) {
        var m :| m in Before(c) && m.name == d;
        assert m in After(c);
      }
    }
    hide Excluded, Unapplied, Names;
    forall m | m in After(c)
      ensures DependenciesKnown(Names(After(c)), c.applied', ex', m) <==> forall d | d in m.dependsOn :: Less(c.anchor, d)
    {
      assert m in Before(c);
      assert DependenciesKnown(Names(Before(c)), c.applied, ex, m);
    }
  }

  lemma ExcludedAfter(c: Cut, d: string)
    requires GoodCut(c)
    ensures d in Excluded(c.files', c.anchor, c.target) <==> d in Excluded(c.files, c.base, c.target) && Less(c.anchor, d)
  {
    if d in Excluded(c.files', c.anchor, c.target) {
      var m :| m in c.files' && Less(c.anchor, m.name) && !SelectedBy(m, c.target) && m.name == d;
      TruncatedMembers(c.files, c.anchor, c.files', m);
      LessTransitive(c.base, c.anchor, d);
    }
    if d in Excluded(c.files, c.base, c.target) && Less(c.anchor, d) {
      var m :| m in c.files && !SelectedBy(m, c.target) && m.name == d;
      TruncatedMembers(c.files, c.anchor, c.files', m);
    }
  }

  // ----- The order survives the truncation -----

  lemma PositionAppend(s: seq<RawMigration>, m: RawMigration, name: string)
    requires name in Names(s + [m])
    ensures name in Names(s) ==> Position(s + [m], name) == Position(s, name)
    ensures name !in Names(s) ==> Position(s + [m], name) == |s|
  {
    var t := s + [m];
    assert forall i :: 0 <= i < |s| ==> t[i] == s[i] && s[i] in s;
    if name in Names(s) {
      assert t[Position(s, name)].name == name;
    }
  }

  /** Leaving migrations out does not reorder the others. */
  lemma {:induction false} PositionFilter(keep: RawMigration -> bool, s: seq<RawMigration>, a: RawMigration, b: RawMigration)
    requires DistinctNames(s) && a in Filter(keep, s) && b in Filter(keep, s)
    requires Position(s, a.name) <= Position(s, b.name)
    ensures Position(Filter(keep, s), a.name) <= Position(Filter(keep, s), b.name)
  {
    var k := |s| - 1;
    var t, m := s[..k], s[k];
    assert s == t + [m];
    NotInPrefix(s, k);
    FilterLast(keep, s);
    hide Filter, DistinctNames;
    LastPosition(keep, t, m, a);
    LastPosition(keep, t, m, b);
    if a in t && b in t {
      assert DistinctNames(t) by { PrefixDistinct(s, k); }
      hide Position, Names;
      PositionFilter(keep, t, a, b);
    }
  }

  lemma PrefixDistinct(s: seq<RawMigration>, k: nat)
    requires DistinctNames(s) && k <= |s|
    ensures DistinctNames(s[..k])
  {
  }

  /** Adding a migration at the end: whoever was there keeps its position, in the list and in the selection. */
  lemma LastPosition(keep: RawMigration -> bool, t: seq<RawMigration>, m: RawMigration, a: RawMigration)
    requires m.name !in Names(t) && (a in t || a == m) && keep(a)
    ensures var u, f := t + [m], Filter(keep, t);
            var fu := if keep(m) then f + [m] else f;
            && a.name in Names(u) && a.name in Names(fu)
            && (a in t ==> a in f && a.name in Names(t) && a.name in Names(f)
                           && Position(u, a.name) == Position(t, a.name) < |t| && Position(fu, a.name) == Position(f, a.name) < |f|)
            && (a !in t ==> Position(u, a.name) == |t| && Position(fu, a.name) == |f|)
  {
    var f := Filter(keep, t);
    assert forall x | x in f :: x in t && x.name in Names(t);
    assert a in t + [m];
    if keep(m) {
      assert a in f + [m];
      PositionAppend(f, m, a.name);
    }
    PositionAppend(t, m, a.name);
  }

  /** A dependency of a kept migration, if unapplied at all, is kept too. */
  ghost predicate SelfContained(migs: seq<RawMigration>, keep: RawMigration -> bool)
  {
    forall m, d | m in migs && keep(m) && d in m.dependsOn && d in Names(migs) :: d in Names(Filter(keep, migs))
  }

  lemma ReadyRestrict(migs: seq<RawMigration>, keep: RawMigration -> bool, q: seq<RawMigration>, x: RawMigration)
    requires DistinctNames(migs) && SelfContained(migs, keep) && (forall m | m in q :: m in migs)
    requires x in migs && keep(x)
    ensures Ready(migs, Names(q), x) <==> Ready(Filter(keep, migs), Names(Filter(keep, q)), x)
  {
    var h, fq := Filter(keep, migs), Filter(keep, q);
    forall n | n in Names(h) ensures n in Names(q) <==> n in Names(fq) {
      if n in Names(q) {
        var m :| m in q && m.name == n;
        var y :| y in h && y.name == n;
        SameNameSameMigration(migs, m, y);
        assert m in fq;
      }
    }
    assert x in h && x.name in Names(h);
  }

  /** A greedy order restricted to the kept migrations is the greedy order of the kept migrations. */
  lemma {:induction false} GreedyRestrict(migs: seq<RawMigration>, keep: RawMigration -> bool, p: seq<RawMigration>)
    requires DistinctNames(migs) && SelfContained(migs, keep) && Greedy(migs, p)
    ensures Greedy(Filter(keep, migs), Filter(keep, p))
  {
    if p != [] {
      hide *;
      var k := |p| - 1;
      var q, m := p[..k], p[k];
      GreedyInit(migs, p);
      GreedyRestrict(migs, keep, q);
      FilterLast(keep, p);
      if keep(m) {
        GreedyAtRestrict(migs, keep, q, m);
        GreedyAppend(Filter(keep, migs), Filter(keep, q), m);
      }
    } else {
      EmptyGreedy(keep, migs);
    }
  }

  /** All but the last step of a greedy order are greedy, made of the migrations, and the last one is greedy after them. */
  lemma GreedyInit(migs: seq<RawMigration>, p: seq<RawMigration>)
    requires Greedy(migs, p) && p != []
    ensures Greedy(migs, p[..|p| - 1]) && GreedyAt(migs, Names(p[..|p| - 1]), p[|p| - 1])
    ensures forall x | x in p[..|p| - 1] :: x in migs
  {
    var k := |p| - 1;
    forall i | 0 <= i < k ensures GreedyAt(migs, Names(p[..k][..i]), p[..k][i]) && p[i] in migs {
      assert p[..k][..i] == p[..i];
      assert GreedyAt(migs, Names(p[..i]), p[i]);
    }
  }

  lemma FilterLast(keep: RawMigration -> bool, p: seq<RawMigration>)
    requires p != []
    ensures Filter(keep, p) == if keep(p[|p| - 1]) then Filter(keep, p[..|p| - 1]) + [p[|p| - 1]] else Filter(keep, p[..|p| - 1])
  {
  }

  lemma EmptyGreedy(keep: RawMigration -> bool, migs: seq<RawMigration>)
    ensures Greedy(Filter(keep, migs), Filter(keep, []))
  {
  }

  lemma GreedyAtRestrict(migs: seq<RawMigration>, keep: RawMigration -> bool, q: seq<RawMigration>, m: RawMigration)
    requires DistinctNames(migs) && SelfContained(migs, keep) && (forall x | x in q :: x in migs)
    requires GreedyAt(migs, Names(q), m) && keep(m)
    ensures GreedyAt(Filter(keep, migs), Names(Filter(keep, q)), m)
  {
    var h := Filter(keep, migs);
    ReadyRestrict(migs, keep, q, m);
    forall x | Ready(h, Names(Filter(keep, q)), x) ensures Position(h, m.name) <= Position(h, x.name) {
      ReadyRestrict(migs, keep, q, x);
      PositionFilter(keep, migs, m, x);
    }
  }

  lemma GreedyAppend(migs: seq<RawMigration>, q: seq<RawMigration>, m: RawMigration)
    requires Greedy(migs, q) && GreedyAt(migs, Names(q), m)
    ensures Greedy(migs, q + [m])
  {
    var p := q + [m];
    forall k | 0 <= k < |p| ensures GreedyAt(migs, Names(p[..k]), p[k]) {
      assert p[..k] == if k < |q| then q[..k] else q;
    }
  }

  // ----- The main result -----

  /**
   * Converting an applied migration into a baseline cannot change what `pgroll migrate` would do:
   * on the truncated directory no mismatch or routing error appears, the unapplied list is the
   * earlier one after the anchor, and resolution succeeds, with the earlier order restricted to
   * names after the anchor, exactly when no migration left to apply depends on a hidden name.
   */
  lemma ConversionIsSafe(rows: seq<H.Row>, a: H.Row, base: string, files: seq<RawMigration>, files': seq<RawMigration>,
                         target: string, before: Resolution, after: Resolution)
    requires OneRowPerName(rows) && AuditsPass(rows, a) && H.BaselineName(rows, base)
    requires DistinctNames(files) && Truncated(files, a.name, files')
    requires ResolvesTo(files, base, H.Visible(rows, true), target, before) && before.Resolved?
    requires ResolvesTo(files', a.name, H.Visible(Converted(rows, a.name), true), target, after)
    ensures !after.Untargeted? && !after.Mismatched?
    ensures var c := Cut(files, files', base, a.name, H.Visible(rows, true), H.Visible(Converted(rows, a.name), true), target);
            && After(c) == Filter(AboveAnchor(a.name), Before(c))
            && (after.Resolved? <==> NoDependencyBelow(c))
            && (!after.Resolved? ==> after.Unsortable? && after.reason.UnknownDependency?)
            && (after.Resolved? ==> after.apply == Filter(AboveAnchor(a.name), before.apply))
  {
    var c := Cut(files, files', base, a.name, H.Visible(rows, true), H.Visible(Converted(rows, a.name), true), target);
    forall n ensures n in c.applied' <==> n in c.applied && Less(c.anchor, n) {
      VisibleAfter(rows, a, n);
    }
    OldBaselineBelow(rows, a, base);
    hide AuditsPass, Converted, H.Visible, H.BaselineName;
    CutIsSafe(c, before, after);
  }

  lemma CutIsSafe(c: Cut, before: Resolution, after: Resolution)
    requires GoodCut(c)
    requires ResolvesTo(c.files, c.base, c.applied, c.target, before) && before.Resolved?
    requires ResolvesTo(c.files', c.anchor, c.applied', c.target, after)
    ensures !after.Untargeted? && !after.Mismatched?
    ensures After(c) == Filter(AboveAnchor(c.anchor), Before(c))
    ensures after.Resolved? <==> NoDependencyBelow(c)
    ensures !after.Resolved? ==> after.Unsortable? && after.reason.UnknownDependency?
    ensures after.Resolved? ==> after.apply == Filter(AboveAnchor(c.anchor), before.apply)
  {
    UnappliedAfter(c);
    NoNewError(c, before);
    KnownAfter(c, before);
    if NoDependencyBelow(c) {
      OrderAfter(c, before.apply);
    }
    hide LeastOrder, ValidOrder, AllKnown, Excluded, All, NoDependencyBelow, SomeUntagged, GoodCut;
    if NoDependencyBelow(c) {
      var p := Filter(AboveAnchor(c.anchor), before.apply);
      if after.Resolved? {
        LeastOrderUnique(After(c), p, after.apply);
      } else {
        LeastIsValid(After(c), p);
      }
    }
  }

  lemma LeastIsValid(migs: seq<RawMigration>, p: seq<RawMigration>)
    requires LeastOrder(migs, p)
    ensures ValidOrder(migs, p)
  {
  }

  lemma LeastOrderUnique(migs: seq<RawMigration>, p: seq<RawMigration>, q: seq<RawMigration>)
    requires LeastOrder(migs, p) && LeastOrder(migs, q)
    ensures p == q
  {
    NotAfterAntisymmetric(migs, p, q);
  }

  lemma OrderAfter(c: Cut, apply: seq<RawMigration>)
    requires GoodCut(c) && LeastOrder(Before(c), apply) && NoDependencyBelow(c)
    ensures LeastOrder(After(c), Filter(AboveAnchor(c.anchor), apply))
  {
    var above, migs := AboveAnchor(c.anchor), Before(c);
    UnappliedAfter(c);
    UnappliedOfSelected(c.files, c.base, c.applied, c.target);
    LeastIsGreedy(migs, apply);
    forall m, d | m in migs && above(m) && d in m.dependsOn && d in Names(migs) ensures d in Names(Filter(above, migs)) {
      assert m in After(c) && Less(c.anchor, d);
      var x :| x in migs && x.name == d;
      assert x in Filter(above, migs);
    }
    hide Unapplied, NoDependencyBelow, GoodCut;
    GreedyRestrict(migs, above, apply);
    FilterDistinct(above, migs);
    SameCount(migs, apply, above);
    GreedyIffLeast(Filter(above, migs), Filter(above, apply), Filter(above, apply));
  }

  lemma SameCount(migs: seq<RawMigration>, p: seq<RawMigration>, keep: RawMigration -> bool)
    requires multiset(p) == multiset(migs)
    ensures |Filter(keep, p)| == |Filter(keep, migs)|
  {
    forall m ensures multiset(Filter(keep, p))[m] == multiset(Filter(keep, migs))[m] {
      FilterMultiset(keep, p, m);
      FilterMultiset(keep, migs, m);
    }
    assert multiset(Filter(keep, p)) == multiset(Filter(keep, migs));
    assert |multiset(Filter(keep, p))| == |Filter(keep, p)|;
    assert |multiset(Filter(keep, migs))| == |Filter(keep, migs)|;
  }
}
