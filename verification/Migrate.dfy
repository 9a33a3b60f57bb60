/** `pgroll migrate`: the `--to` bound, and the dependency check each Start repeats. */
module Migrate {
  import opened Migrations
  import opened TopoSort
  import opened Resolve

  // ----- The bound -----

  /** The dependencies of `x` that this run applies are all in `s`. */
  ghost predicate DependenciesIn(inRun: map<string, RawMigration>, x: string, s: set<string>)
  {
    x in inRun ==> forall d | d in inRun[x].dependsOn && d in inRun :: d in s
  }

  ghost predicate Closed(inRun: map<string, RawMigration>, s: set<string>)
  {
    forall x | x in s :: DependenciesIn(inRun, x, s)
  }

  /** The least set that contains `prefix` and is closed under dependencies inside the run. */
  ghost predicate LeastBound(inRun: map<string, RawMigration>, prefix: set<string>, bound: set<string>)
  {
    && prefix <= bound
    && Closed(inRun, bound)
    && forall s | prefix <= s && Closed(inRun, s) :: bound <= s
  }

  /** Pulling `name` in from `before` reached only what every closed superset holds anyway. */
  ghost predicate Forced(inRun: map<string, RawMigration>, before: set<string>, name: string, after: set<string>)
  {
    forall s | before <= s && name in s && Closed(inRun, s) :: after <= s
  }

  /** Everything pulled in, and `name` itself, has its dependencies inside `after`. */
  ghost predicate Settled(inRun: map<string, RawMigration>, before: set<string>, name: string, after: set<string>)
  {
    && before <= after <= before + inRun.Keys
    && DependenciesIn(inRun, name, after)
    && forall x | x in after && x !in before :: DependenciesIn(inRun, x, after)
  }

  /** Adds the dependencies of `name`, recursively; terminates on cyclic dependencies too. */
  method Pull(inRun: map<string, RawMigration>, before: set<string>, name: string) returns (bound: set<string>)
    ensures Settled(inRun, before, name, bound)
    ensures Forced(inRun, before, name, bound)
    decreases inRun.Keys - before
  {
    bound := before;
    if name !in inRun {
      return;
    }
    var deps := inRun[name].dependsOn;
    for i := 0 to |deps|
      invariant before <= bound <= before + inRun.Keys
      invariant forall x | x in bound && x !in before :: DependenciesIn(inRun, x, bound)
      invariant forall j | 0 <= j < i && deps[j] in inRun :: deps[j] in bound
      invariant Forced(inRun, before, name, bound)
    {
      var dep := deps[i];
      if dep in bound || dep !in inRun {
        continue;
      }
      ghost var was := bound;
      bound := Pull(inRun, bound + {dep}, dep);
      forall s | before <= s && name in s && Closed(inRun, s) ensures bound <= s {
        assert DependenciesIn(inRun, name, s);
        assert was + {dep} <= s;
      }
    }
  }

  /**
   * Closes the prefix. Ranging over the map while it grows visits the original names in any order
   * and may or may not visit the ones added on the way.
   */
  method CloseBound(inRun: map<string, RawMigration>, prefix: set<string>) returns (bound: set<string>)
    ensures LeastBound(inRun, prefix, bound)
  {
    bound := prefix;
    var todo, visited: set<string> := prefix, {};
    while todo != {}
      invariant prefix <= bound <= prefix + inRun.Keys
      invariant todo <= bound && visited <= bound && todo !! visited
      invariant prefix <= todo + visited
      invariant forall x | x in bound && x !in todo :: DependenciesIn(inRun, x, bound)
      invariant forall s | prefix <= s && Closed(inRun, s) :: bound <= s
      decreases prefix + inRun.Keys - visited
    {
      var name :| name in todo;
      var was := bound;
      bound := Pull(inRun, bound, name);
      var alsoVisited: set<string> :| alsoVisited <= bound - was;
      todo, visited := todo - {name} + (alsoVisited - visited), visited + {name};
    }
  }

  lemma LeastBoundUnique(inRun: map<string, RawMigration>, prefix: set<string>, a: set<string>, b: set<string>)
    requires LeastBound(inRun, prefix, a) && LeastBound(inRun, prefix, b)
    ensures a == b
  {
  }

  datatype BoundResult =
    | Bounded(migs: seq<RawMigration>)
    | AlreadyApplied
    | NotFound

  function InRun(apply: seq<RawMigration>): (r: map<string, RawMigration>)
    ensures r.Keys == Names(apply)
    ensures forall n | n in r :: r[n] in apply && r[n].name == n
  {
    if apply == [] then map[] else
      var k := |apply| - 1;
      assert apply == apply[..k] + [apply[k]];
      NamesAppend(apply[..k], apply[k]);
      InRun(apply[..k])[apply[k].name := apply[k]]
  }

  /** What `--to` leaves of the apply list: the kept migrations, in apply order. */
  ghost predicate BoundedBy(apply: seq<RawMigration>, prefix: set<string>, migs: seq<RawMigration>)
  {
    exists bound :: LeastBound(InRun(apply), prefix, bound) && migs == Filter((m: RawMigration) => m.name in bound, apply)
  }

  /** Locates the target in the full local sequence and bounds the run there. */
  method BoundTo(apply: seq<RawMigration>, all: seq<RawMigration>, to: string, recorded: set<string>)
    returns (r: BoundResult)
    ensures r.Bounded? <==> to in Names(all)
    ensures r.AlreadyApplied? <==> to !in Names(all) && to in recorded
    ensures r.Bounded? ==> exists idx :: 0 <= idx < |all| && all[idx].name == to
                             && (forall k :: 0 <= k < idx ==> all[k].name != to)
                             && BoundedBy(apply, Names(all[..idx + 1]), r.migs)
  {
    var idx := 0;
    while idx < |all| && all[idx].name != to
      invariant 0 <= idx <= |all|
      invariant forall k :: 0 <= k < idx ==> all[k].name != to
    {
      idx := idx + 1;
    }
    if idx == |all| {
      return if to in recorded then AlreadyApplied else NotFound;
    }
    assert all[idx] in all;
    var inRun := InRun(apply);
    var bound := CloseBound(inRun, Names(all[..idx + 1]));
    var kept := (m: RawMigration) => m.name in bound;
    var bounded: seq<RawMigration> := [];
    for i := 0 to |apply|
      invariant bounded == Filter(kept, apply[..i])
    {
      FilterStep(kept, apply, i);
      if apply[i].name in bound {
        bounded := bounded + [apply[i]];
      }
    }
    assert apply[..|apply|] == apply;
    return Bounded(bounded);
  }

  // ----- The dependency check of each Start -----

  ghost predicate Satisfied(m: RawMigration, applied: set<string>, excluded: set<string>)
  {
    forall d | d in m.dependsOn :: d in applied || d in excluded
  }

  /** The dependencies that neither history nor the excluded set accounts for. */
  method ValidateDependencies(m: RawMigration, applied: set<string>, satisfied: set<string>) returns (missing: seq<string>)
    ensures missing == [] <==> Satisfied(m, applied, satisfied)
    ensures forall d :: d in missing <==> d in m.dependsOn && d !in applied && d !in satisfied
  {
    missing := [];
    for i := 0 to |m.dependsOn|
      invariant forall d :: d in missing <==> d in m.dependsOn[..i] && d !in applied && d !in satisfied
    {
      var dep := m.dependsOn[i];
      assert m.dependsOn[..i + 1] == m.dependsOn[..i] + [dep];
      if dep in applied || dep in satisfied {
        continue;
      }
      missing := missing + [dep];
    }
    assert m.dependsOn[..|m.dependsOn|] == m.dependsOn;
    assert missing != [] ==> missing[0] in missing;
  }

  /** Each migration finds its dependencies in history, in the excluded set, or earlier in the batch. */
  ghost predicate BatchSatisfied(migs: seq<RawMigration>, applied: set<string>, excluded: set<string>)
  {
    forall k | 0 <= k < |migs| :: Satisfied(migs[k], applied + Names(migs[..k]), excluded)
  }

  lemma {:induction false} PrefixSatisfied(todo: seq<RawMigration>, apply: seq<RawMigration>, applied: set<string>,
                                           excluded: set<string>, bound: set<string>, i: nat)
    requires DistinctNames(todo) && ValidOrder(todo, apply) && AllKnown(todo, applied, excluded)
    requires Closed(InRun(apply), bound) && i <= |apply|
    ensures BatchSatisfied(Filter((m: RawMigration) => m.name in bound, apply[..i]), applied, excluded)
  {
    var kept := (m: RawMigration) => m.name in bound;
    hide ValidOrder, AllKnown, Closed, BatchSatisfied, Satisfied;
    if i != 0 {
      PrefixSatisfied(todo, apply, applied, excluded, bound, i - 1);
      FilterStep(kept, apply, i - 1);
      if kept(apply[i - 1]) {
        KeptSatisfied(todo, apply, applied, excluded, bound, i - 1);
        AppendSatisfied(Filter(kept, apply[..i - 1]), apply[i - 1], applied, excluded);
      }
    } else {
      EmptySatisfied(applied, excluded);
    }
  }

  lemma EmptySatisfied(applied: set<string>, excluded: set<string>)
    ensures BatchSatisfied([], applied, excluded)
  {
  }

  lemma AppendSatisfied(before: seq<RawMigration>, m: RawMigration, applied: set<string>, excluded: set<string>)
    requires BatchSatisfied(before, applied, excluded) && Satisfied(m, applied + Names(before), excluded)
    ensures BatchSatisfied(before + [m], applied, excluded)
  {
    var after := before + [m];
    forall k | 0 <= k < |after| ensures Satisfied(after[k], applied + Names(after[..k]), excluded) {
      assert after[..k] == if k < |before| then before[..k] else before;
    }
  }

  lemma KeptSatisfied(todo: seq<RawMigration>, apply: seq<RawMigration>, applied: set<string>, excluded: set<string>,
                      bound: set<string>, i: nat)
    requires DistinctNames(todo) && ValidOrder(todo, apply) && AllKnown(todo, applied, excluded)
    requires Closed(InRun(apply), bound) && i < |apply| && apply[i].name in bound
    ensures Satisfied(apply[i], applied + Names(Filter((m: RawMigration) => m.name in bound, apply[..i])), excluded)
  {
    var m, inRun, kept := apply[i], InRun(apply), (m: RawMigration) => m.name in bound;
    PermutationMembers(todo, apply);
    assert m in apply && m in todo;
    SameNameSameMigration(apply, inRun[m.name], m);
    assert DependenciesKnown(Names(todo), applied, excluded, m);
    assert DependenciesIn(inRun, m.name, bound);
    forall d | d in m.dependsOn && d !in applied && d !in excluded
      ensures d in Names(Filter(kept, apply[..i]))
    {
      assert d in Names(todo) && d in bound;
      assert d in Names(apply[..i]);
      var x :| x in apply[..i] && x.name == d;
      assert x in Filter(kept, apply[..i]);
    }
  }

  /**
   * A resolved batch never trips its own dependency check, whole or bounded: whatever closed set
   * of names the run is cut down to, every Start finds its dependencies.
   */
  lemma BatchNeverTrips(files: seq<RawMigration>, baseline: string, applied: set<string>, target: string, r: Resolution,
                        bound: set<string>)
    requires DistinctNames(files) && ResolvesTo(files, baseline, applied, target, r) && r.Resolved?
    requires Closed(InRun(r.apply), bound)
    ensures BatchSatisfied(Filter((m: RawMigration) => m.name in bound, r.apply), applied, r.excluded)
    ensures Names(r.apply) <= bound ==> BatchSatisfied(r.apply, applied, r.excluded)
  {
    var todo := Unapplied(files, baseline, applied, target);
    UnappliedOfSelected(files, baseline, applied, target);
    PrefixSatisfied(todo, r.apply, applied, r.excluded, bound, |r.apply|);
    assert r.apply[..|r.apply|] == r.apply;
    if Names(r.apply) <= bound {
      FilterAll((m: RawMigration) => m.name in bound, r.apply);
    }
  }

  /** Starts the batch in order; every Start first checks its dependencies against history. */
  method StartBatch(migs: seq<RawMigration>, applied: set<string>, excluded: set<string>)
    returns (refused: bool, history: set<string>)
    ensures !refused <==> BatchSatisfied(migs, applied, excluded)
    ensures !refused ==> history == applied + Names(migs)
  {
    refused, history := false, applied;
    assert Names(migs[..0]) == {};
    hide Satisfied, Names;
    for i := 0 to |migs|
      invariant history == applied + Names(migs[..i])
      invariant forall k | 0 <= k < i :: Satisfied(migs[k], applied + Names(migs[..k]), excluded)
    {
      var missing := ValidateDependencies(migs[i], history, excluded);
      if missing != [] {
        refused := true;
        return;
      }
      NamesPrefix(migs, i);
      history := history + {migs[i].name};
    }
    assert migs[..|migs|] == migs;
  }
}
