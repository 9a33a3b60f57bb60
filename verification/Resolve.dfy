/** Reading a migrations directory for one run, and matching it against history by name. */
module Resolve {
  import opened History
  import opened Migrations
  import opened NameOrder
  import opened TopoSort

  // ----- Selecting from a list of migrations, order kept -----

  function Filter(keep: RawMigration -> bool, s: seq<RawMigration>): (r: seq<RawMigration>)
    ensures forall m :: m in r <==> m in s && keep(m)
  {
    if s == [] then [] else
      var k := |s| - 1;
      assert s == s[..k] + [s[k]];
      if keep(s[k]) then Filter(keep, s[..k]) + [s[k]] else Filter(keep, s[..k])
  }

  lemma FilterAppend(keep: RawMigration -> bool, a: seq<RawMigration>, m: RawMigration)
    ensures Filter(keep, a + [m]) == if keep(m) then Filter(keep, a) + [m] else Filter(keep, a)
  {
    assert (a + [m])[..|a|] == a;
  }

  lemma FilterStep(keep: RawMigration -> bool, s: seq<RawMigration>, i: nat)
    requires i < |s|
    ensures Filter(keep, s[..i + 1]) == if keep(s[i]) then Filter(keep, s[..i]) + [s[i]] else Filter(keep, s[..i])
  {
    assert s[..i + 1] == s[..i] + [s[i]];
    FilterAppend(keep, s[..i], s[i]);
  }

  /** Two selections in turn are the selection by a condition equivalent to both. */
  lemma {:induction false} FilterTwice(f: RawMigration -> bool, g: RawMigration -> bool, h: RawMigration -> bool, s: seq<RawMigration>)
    requires forall m | m in s :: h(m) == (g(m) && f(m))
    ensures Filter(f, Filter(g, s)) == Filter(h, s)
  {
    if s != [] {
      var k := |s| - 1;
      FilterTwice(f, g, h, s[..k]);
      FilterAppend(f, Filter(g, s[..k]), s[k]);
      assert s[k] in s && h(s[k]) == (g(s[k]) && f(s[k]));
    }
  }

  lemma {:induction false} FilterAll(f: RawMigration -> bool, s: seq<RawMigration>)
    requires forall m | m in s :: f(m)
    ensures Filter(f, s) == s
  {
    if s != [] {
      var k := |s| - 1;
      FilterAll(f, s[..k]);
      assert s == s[..k] + [s[k]] && f(s[k]);
    }
  }

  lemma {:induction false} FilterMultiset(f: RawMigration -> bool, s: seq<RawMigration>, m: RawMigration)
    ensures multiset(Filter(f, s))[m] == if f(m) then multiset(s)[m] else 0
  {
    if s != [] {
      var k := |s| - 1;
      assert s == s[..k] + [s[k]];
      FilterMultiset(f, s[..k], m);
    }
  }

  lemma FilterDistinct(f: RawMigration -> bool, s: seq<RawMigration>)
    requires DistinctNames(s)
    ensures DistinctNames(Filter(f, s))
  {
    var r := Filter(f, s);
    forall i, j | 0 <= i < j < |r| ensures r[i].name != r[j].name {
      if r[i] == r[j] {
        FilterMultiset(f, s, r[i]);
        AtMostOnce(s, r[i]);
        TwiceCounted(r, i, j);
      } else {
        assert r[i] in s && r[j] in s;
      }
    }
  }

  lemma TwiceCounted(r: seq<RawMigration>, i: nat, j: nat)
    requires i < j < |r| && r[i] == r[j]
    ensures multiset(r)[r[i]] >= 2
  {
    assert r == r[..j] + [r[j]] + r[j + 1..];
    assert r[..j][i] in multiset(r[..j]);
  }

  // ----- The directory -----

  /** No target selects everything; otherwise the target must be listed verbatim. */
  predicate SelectedBy(m: RawMigration, target: string)
  {
    target == "" || target in m.targets
  }

  /** The post-baseline migrations of the directory, whatever their target. */
  function All(files: seq<RawMigration>, baseline: string): seq<RawMigration>
  {
    Filter((m: RawMigration) => Less(baseline, m.name), files)
  }

  /** The only migrations ever applied. */
  function Selected(files: seq<RawMigration>, baseline: string, target: string): seq<RawMigration>
  {
    Filter((m: RawMigration) => Less(baseline, m.name) && SelectedBy(m, target), files)
  }

  function Excluded(files: seq<RawMigration>, baseline: string, target: string): set<string>
  {
    set m | m in files && Less(baseline, m.name) && !SelectedBy(m, target) :: m.name
  }

  /** A candidate (post-baseline, not applied) carries no routing although a target is in effect. */
  predicate Untagged(m: RawMigration, baseline: string, applied: set<string>, target: string)
  {
    target != "" && Less(baseline, m.name) && m.name !in applied && m.targets == []
  }

  datatype LocalSet =
    | LocalSet(all: seq<RawMigration>, selected: seq<RawMigration>, excluded: set<string>)
    | TargetRequired(file: string)

  /** A file position that triggers the error. */
  ghost predicate SomeUntagged(files: seq<RawMigration>, baseline: string, applied: set<string>, target: string)
  {
    exists m :: m in files && Untagged(m, baseline, applied, target)
  }

  /** First loop: post-baseline files and the names the target does not select. */
  method SplitDirectory(files: seq<RawMigration>, baseline: string, applied: set<string>, target: string)
    returns (untagged: bool, file: string, all: seq<RawMigration>, excluded: set<string>)
    ensures untagged <==> SomeUntagged(files, baseline, applied, target)
    ensures !untagged ==> all == All(files, baseline) && excluded == Excluded(files, baseline, target)
  {
    untagged, file, all, excluded := false, "", [], {};
    SplitStart(files, baseline, target);
    hide All, Excluded, Leq, SomeUntagged;
    for i := 0 to |files|
      invariant !untagged && all == All(files[..i], baseline) && excluded == Excluded(files[..i], baseline, target)
      invariant forall k :: 0 <= k < i ==> !Untagged(files[k], baseline, applied, target)
    {
      var mig := files[i];
      AllStep(files, baseline, i);
      ExcludedStep(files, baseline, target, i);
      if Leq(mig.name, baseline) {
        continue;
      }
      all := all + [mig];
      if target == "" {
        continue;
      }
      if mig.name !in applied && |mig.targets| == 0 {
        untagged, file := true, mig.name;
        UntaggedFound(files, baseline, applied, target, i);
        return;
      }
      if !SelectedBy(mig, target) {
        excluded := excluded + {mig.name};
      }
    }
    NoneUntagged(files, baseline, applied, target);
    assert files[..|files|] == files;
  }

  lemma SplitStart(files: seq<RawMigration>, baseline: string, target: string)
    ensures All(files[..0], baseline) == [] && Excluded(files[..0], baseline, target) == {}
  {
  }

  lemma AllStep(files: seq<RawMigration>, baseline: string, i: nat)
    requires i < |files|
    ensures All(files[..i + 1], baseline) ==
            if Less(baseline, files[i].name) then All(files[..i], baseline) + [files[i]] else All(files[..i], baseline)
  {
    FilterStep((m: RawMigration) => Less(baseline, m.name), files, i);
  }

  lemma UntaggedFound(files: seq<RawMigration>, baseline: string, applied: set<string>, target: string, i: nat)
    requires i < |files| && Untagged(files[i], baseline, applied, target)
    ensures SomeUntagged(files, baseline, applied, target)
  {
    assert files[i] in files;
  }

  lemma NoneUntagged(files: seq<RawMigration>, baseline: string, applied: set<string>, target: string)
    requires forall k :: 0 <= k < |files| ==> !Untagged(files[k], baseline, applied, target)
    ensures !SomeUntagged(files, baseline, applied, target)
  {
    hide Untagged;
  }

  lemma ExcludedStep(files: seq<RawMigration>, baseline: string, target: string, i: nat)
    requires i < |files|
    ensures Excluded(files[..i + 1], baseline, target) == Excluded(files[..i], baseline, target) +
            if Less(baseline, files[i].name) && !SelectedBy(files[i], target) then {files[i].name} else {}
  {
    assert files[..i + 1] == files[..i] + [files[i]];
  }

  /** Drops everything at or below the baseline and splits the rest by target. */
  method ResolveLocalSet(files: seq<RawMigration>, baseline: string, applied: set<string>, target: string)
    returns (r: LocalSet)
    ensures r.TargetRequired? <==> SomeUntagged(files, baseline, applied, target)
    ensures r.LocalSet? ==> r.all == All(files, baseline) && r.excluded == Excluded(files, baseline, target)
    ensures r.LocalSet? && DistinctNames(files) ==> r.selected == Selected(files, baseline, target)
  {
    var untagged, file, all, excluded := SplitDirectory(files, baseline, applied, target);
    if untagged {
      return TargetRequired(file);
    }
    if DistinctNames(files) {
      SelectedIsRouted(files, baseline, target);
    }
    if target == "" {
      return LocalSet(all, all, excluded);
    }
    var selected: seq<RawMigration> := [];
    var routed := (m: RawMigration) => m.name !in excluded;
    for i := 0 to |all|
      invariant selected == Filter(routed, all[..i])
    {
      FilterStep(routed, all, i);
      if all[i].name !in excluded {
        selected := selected + [all[i]];
      }
    }
    assert all[..|all|] == all;
    return LocalSet(all, selected, excluded);
  }

  /** With distinct names, leaving out the excluded names is the same as selecting by target. */
  lemma SelectedIsRouted(files: seq<RawMigration>, baseline: string, target: string)
    requires DistinctNames(files)
    ensures Filter((m: RawMigration) => m.name !in Excluded(files, baseline, target), All(files, baseline)) == Selected(files, baseline, target)
    ensures target == "" ==> All(files, baseline) == Selected(files, baseline, target)
  {
    var post := (m: RawMigration) => Less(baseline, m.name);
    var routed := (m: RawMigration) => m.name !in Excluded(files, baseline, target);
    var chosen := (m: RawMigration) => Less(baseline, m.name) && SelectedBy(m, target);
    forall m | m in files && post(m) ensures routed(m) == SelectedBy(m, target) {
      if m.name in Excluded(files, baseline, target) {
        var x :| x in files && x.name == m.name && !SelectedBy(x, target);
        SameNameSameMigration(files, x, m);
      }
    }
    FilterTwice(routed, post, chosen, files);
    if target == "" {
      FilterAll(routed, All(files, baseline));
    }
  }

  // ----- Matching against history -----

  /** Selected, not yet applied, in filename order. */
  function Unapplied(files: seq<RawMigration>, baseline: string, applied: set<string>, target: string): seq<RawMigration>
  {
    Filter((m: RawMigration) => Less(baseline, m.name) && SelectedBy(m, target) && m.name !in applied, files)
  }

  datatype Resolution =
    | Resolved(apply: seq<RawMigration>, excluded: set<string>, all: seq<RawMigration>)
    | Untargeted(file: string)
    | Mismatched(name: string)
    | Unsortable(reason: SortResult)

  /** Exactly when each outcome arises, and what a successful resolution holds. */
  ghost predicate ResolvesTo(files: seq<RawMigration>, baseline: string, applied: set<string>, target: string, r: Resolution)
  {
    var todo := Unapplied(files, baseline, applied, target);
    var excluded := Excluded(files, baseline, target);
    if SomeUntagged(files, baseline, applied, target) then r.Untargeted?
    else if !(applied <= Names(All(files, baseline))) then
      r.Mismatched? && r.name in applied && r.name !in Names(All(files, baseline))
    else if !AllKnown(todo, applied, excluded) then r.Unsortable? && r.reason.UnknownDependency?
    else
      || (r.Resolved? && LeastOrder(todo, r.apply) && r.excluded == excluded && r.all == All(files, baseline))
      || (r.Unsortable? && r.reason.Cycle? && forall q :: !ValidOrder(todo, q))
  }

  /** `applied` are the names of visible history; validation reads the unfiltered directory. */
  method ResolveMigrations(files: seq<RawMigration>, baseline: string, applied: set<string>, target: string)
    returns (r: Resolution)
    ensures DistinctNames(files) ==> ResolvesTo(files, baseline, applied, target, r)
  {
    var local := ResolveLocalSet(files, baseline, applied, target);
    if local.TargetRequired? {
      return Untargeted(local.file);
    }
    var missing := FindMismatch(applied, Names(local.all));
    if missing.Some? {
      return Mismatched(missing.value);
    }
    if DistinctNames(files) {
      UnappliedOfSelected(files, baseline, applied, target);
    }
    hide LeastOrder, ValidOrder, AllKnown, Unknown, Unapplied, Selected, Excluded, All, SomeUntagged, Names, DistinctNames;
    var unapplied := SelectUnapplied(local.selected, applied);
    var sorted := TopoSortMigrations(unapplied, applied, local.excluded);
    if !sorted.Sorted? {
      return Unsortable(sorted);
    }
    return Resolved(sorted.order, local.excluded, local.all);
  }

  /** Every applied migration must exist locally; visited in any order. */
  method FindMismatch(applied: set<string>, localNames: set<string>) returns (missing: Option<string>)
    ensures missing.None? <==> applied <= localNames
    ensures missing.Some? ==> missing.value in applied && missing.value !in localNames
  {
    var names := applied;
    while names != {}
      invariant names <= applied
      invariant applied - names <= localNames
      decreases names
    {
      var name :| name in names;
      names := names - {name};
      if name !in localNames {
        return Some(name);
      }
    }
    return None;
  }

  /** The migrations not in history yet, in order. */
  method SelectUnapplied(selected: seq<RawMigration>, applied: set<string>) returns (unapplied: seq<RawMigration>)
    ensures unapplied == Filter((m: RawMigration) => m.name !in applied, selected)
  {
    unapplied := [];
    var isNew := (m: RawMigration) => m.name !in applied;
    for i := 0 to |selected|
      invariant unapplied == Filter(isNew, selected[..i])
    {
      FilterStep(isNew, selected, i);
      if selected[i].name !in applied {
        unapplied := unapplied + [selected[i]];
      }
    }
    assert selected[..|selected|] == selected;
  }

  lemma UnappliedOfSelected(files: seq<RawMigration>, baseline: string, applied: set<string>, target: string)
    requires DistinctNames(files)
    ensures Filter((m: RawMigration) => m.name !in applied, Selected(files, baseline, target)) == Unapplied(files, baseline, applied, target)
    ensures DistinctNames(Unapplied(files, baseline, applied, target))
    ensures "" !in Names(Unapplied(files, baseline, applied, target))
  {
    var isNew := (m: RawMigration) => m.name !in applied;
    var chosen := (m: RawMigration) => Less(baseline, m.name) && SelectedBy(m, target);
    var todo := (m: RawMigration) => Less(baseline, m.name) && SelectedBy(m, target) && m.name !in applied;
    FilterTwice(isNew, chosen, todo, files);
    FilterDistinct(todo, files);
  }
}
