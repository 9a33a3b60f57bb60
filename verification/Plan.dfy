/** The plan that converges a database's history to a migrations directory. */
module Plan {
  import opened History
  import opened Migrations
  import opened TopoSort
  import opened Resolve
  import NameOrder

  /** What the revert planners say about going back to a migration: refused, or the names they would revert. */
  datatype Preview = Refuses | Reverts(view: seq<string>)

  datatype Blocked =
    | Unblocked
    | NoConvergenceTarget(migrations: seq<string>)
    | RevertRefused(migrations: seq<string>)
    | NonContiguous(migrations: seq<string>)

  datatype PlanResult =
    | Planned(apply: seq<RawMigration>, revert: seq<string>, blocked: Blocked, inSync: bool)
    | TargetNotFound
    | Unroutable(file: string)
    | Unorderable(reason: SortResult)

  /** The point state a plan reads besides the history: whether a deployment is in flight, and the leaf. */
  datatype Status = Status(complete: bool, leaf: Option<string>)

  // ----- The legs as functions of the two sets of names -----

  /** Index of the newest history entry that exists locally, or -1. */
  function Convergence(db: seq<string>, local: set<string>): (k: int)
    ensures -1 <= k < |db|
    ensures k >= 0 ==> db[k] in local
    ensures forall i :: k < i < |db| ==> db[i] !in local
  {
    if db == [] then -1 else if db[|db| - 1] in local then |db| - 1 else Convergence(db[..|db| - 1], local)
  }

  function RevertSuffix(db: seq<string>, local: set<string>): seq<string>
  {
    db[Convergence(db, local) + 1..]
  }

  function NotIn(db: seq<string>, names: set<string>): (r: seq<string>)
    ensures forall n :: n in r <==> n in db && n !in names
  {
    if db == [] then [] else
      var k := |db| - 1;
      assert db == db[..k] + [db[k]];
      NotIn(db[..k], names) + if db[k] in names then [] else [db[k]]
  }

  /** Absent locally, but at or below the convergence point. */
  function Interleaved(db: seq<string>, local: set<string>): seq<string>
  {
    NotIn(db, local + NameSet(RevertSuffix(db, local)))
  }

  ghost predicate Distinct(db: seq<string>)
  {
    forall i, j :: 0 <= i < j < |db| ==> db[i] != db[j]
  }

  lemma SuffixMembers(db: seq<string>, local: set<string>, n: string)
    ensures n in RevertSuffix(db, local) <==> exists i :: Convergence(db, local) < i < |db| && db[i] == n
  {
    InSuffix(db, Convergence(db, local) + 1, n);
  }

  lemma InSuffix(db: seq<string>, k: nat, n: string)
    requires k <= |db|
    ensures n in db[k..] <==> exists i :: k <= i < |db| && db[i] == n
  {
    if i :| k <= i < |db| && db[i] == n {
      assert db[k..][i - k] == n;
    }
  }

  /** Every history entry is exactly one of: present locally, to be reverted, interleaved. */
  lemma Trichotomy(db: seq<string>, local: set<string>, n: string)
    requires n in db
    ensures n in local ==> n !in RevertSuffix(db, local) && n !in Interleaved(db, local)
    ensures n in RevertSuffix(db, local) ==> n !in local && n !in Interleaved(db, local)
    ensures n in local || n in RevertSuffix(db, local) || n in Interleaved(db, local)
  {
    SuffixMembers(db, local, n);
    hide RevertSuffix;
  }

  /** What is interleaved has a migration that stays above it: reverting it would unwind that one too. */
  lemma InterleavedIff(db: seq<string>, local: set<string>, n: string)
    requires Distinct(db) && n in db
    ensures n in Interleaved(db, local) <==> n !in local && exists i, j :: 0 <= i < j < |db| && db[i] == n && db[j] in local
  {
    SuffixMembers(db, local, n);
    assert n in Interleaved(db, local) <==> n !in local && n !in RevertSuffix(db, local);
    hide Interleaved, RevertSuffix;
    var i :| 0 <= i < |db| && db[i] == n;
    var k := Convergence(db, local);
    assert i == k ==> n in local;
  }

  /** The entries above a name; all of them when it is not there (the baseline). */
  function Above(db: seq<string>, to: string): seq<string>
  {
    if db == [] then [] else if db[0] == to then db[1..] else
      var rest := Above(db[1..], to);
      if to in db[1..] then rest else db
  }

  // ----- What a plan is -----

  ghost predicate RevertLeg(point: string, candidates: seq<string>, preview: string -> Preview, revert: seq<string>, blocked: Blocked)
  {
    match preview(point)
    case Refuses => revert == [] && blocked == RevertRefused(candidates)
    case Reverts(view) => revert == view && blocked == Unblocked
  }

  /** The revert leg: towards the convergence point, or the baseline, or nowhere. */
  ghost predicate SuffixLeg(db: seq<string>, local: set<string>, baseline: string, preview: string -> Preview,
                            revert: seq<string>, blocked: Blocked)
  {
    var k, suffix := Convergence(db, local), RevertSuffix(db, local);
    if suffix == [] then revert == [] && blocked == Unblocked
    else if k >= 0 then RevertLeg(db[k], suffix, preview, revert, blocked)
    else if baseline != "" then RevertLeg(baseline, suffix, preview, revert, blocked)
    else revert == [] && blocked == NoConvergenceTarget(suffix)
  }

  /** The revert and blocked legs: interleaved history blocks unless the revert leg already does. */
  ghost predicate Legs(db: seq<string>, local: set<string>, baseline: string, preview: string -> Preview,
                       revert: seq<string>, blocked: Blocked)
  {
    var interleaved := Interleaved(db, local);
    exists first: Blocked :: SuffixLeg(db, local, baseline, preview, revert, first)
                             && blocked == if interleaved != [] && first == Unblocked then NonContiguous(interleaved) else first
  }

  function LastName(migs: seq<RawMigration>): Option<string>
  {
    if migs == [] then None else Some(migs[|migs| - 1].name)
  }

  predicate InSync(r: PlanResult, status: Status, selected: seq<RawMigration>, target: string)
    requires r.Planned?
  {
    && status.complete && r.apply == [] && r.revert == [] && r.blocked == Unblocked
    && (target != "" || (status.leaf.Some? && status.leaf == LastName(selected)))
  }

  ghost predicate PlansTo(files: seq<RawMigration>, baseline: string, db: seq<string>, to: string, target: string,
                          preview: string -> Preview, status: Status, r: PlanResult)
  {
    var applied, local := NameSet(db), Names(All(files, baseline));
    var todo, excluded := Unapplied(files, baseline, applied, target), Excluded(files, baseline, target);
    if SomeUntagged(files, baseline, applied, target) then r.Unroutable?
    else if to != "" && to !in applied && to != baseline then r.TargetNotFound?
    else if to != "" then
      r.Planned? && r.apply == [] && RevertLeg(to, Above(db, to), preview, r.revert, r.blocked)
      && (r.inSync <==> InSync(r, status, Selected(files, baseline, target), target))
    else if !AllKnown(todo, applied, excluded) then r.Unorderable? && r.reason.UnknownDependency?
    else
      || (r.Planned? && LeastOrder(todo, r.apply) && Legs(db, local, baseline, preview, r.revert, r.blocked)
          && (r.inSync <==> InSync(r, status, Selected(files, baseline, target), target)))
      || (r.Unorderable? && r.reason.Cycle? && forall q :: !ValidOrder(todo, q))
  }

  // ----- Carrying a plan out -----

  function NameSeq(migs: seq<RawMigration>): (r: seq<string>)
    ensures |r| == |migs| && forall i :: 0 <= i < |migs| ==> r[i] == migs[i].name
  {
    seq(|migs|, i requires 0 <= i < |migs| => migs[i].name)
  }

  /** The history once the suffix is reverted and the apply leg has run. */
  function CarriedOut(db: seq<string>, local: set<string>, apply: seq<RawMigration>): seq<string>
  {
    db[..Convergence(db, local) + 1] + NameSeq(apply)
  }

  lemma NotBlocked(db: seq<string>, local: set<string>, baseline: string, preview: string -> Preview, revert: seq<string>)
    requires Distinct(db) && Legs(db, local, baseline, preview, revert, Unblocked)
    ensures forall i :: 0 <= i <= Convergence(db, local) ==> db[i] in local
  {
    assert Interleaved(db, local) == [];
    hide Legs, Interleaved;
    var k := Convergence(db, local);
    forall i | 0 <= i < k ensures db[i] in local {
      InterleavedIff(db, local, db[i]);
    }
  }

  lemma {:induction false} NoneNotIn(db: seq<string>, names: set<string>)
    requires forall i :: 0 <= i < |db| ==> db[i] in names
    ensures NotIn(db, names) == []
  {
    if db != [] {
      NoneNotIn(db[..|db| - 1], names);
    }
  }

  lemma ConvergenceAtTop(db: seq<string>, local: set<string>)
    requires forall i :: 0 <= i < |db| ==> db[i] in local
    ensures Convergence(db, local) == |db| - 1 && RevertSuffix(db, local) == [] && Interleaved(db, local) == []
  {
    NoneNotIn(db, local + NameSet(RevertSuffix(db, local)));
  }

  lemma {:induction false} FilterNone(keep: RawMigration -> bool, s: seq<RawMigration>)
    requires forall m | m in s :: !keep(m)
    ensures Filter(keep, s) == []
  {
    if s != [] {
      FilterNone(keep, s[..|s| - 1]);
    }
  }

  /** A history entry that exists locally survives; whatever was unapplied is applied. */
  lemma CarriedOutNames(files: seq<RawMigration>, baseline: string, db: seq<string>, target: string, apply: seq<RawMigration>)
    requires multiset(apply) == multiset(Unapplied(files, baseline, NameSet(db), target))
    ensures var local := Names(All(files, baseline));
            var after := NameSet(CarriedOut(db, local, apply));
            && (forall n | n in local && n in db :: n in after)
            && (forall m | m in Unapplied(files, baseline, NameSet(db), target) :: m.name in after)
            && (forall i :: 0 <= i < |apply| ==> apply[i].name in local)
  {
    var local, k := Names(All(files, baseline)), Convergence(db, Names(All(files, baseline)));
    var todo, after := Unapplied(files, baseline, NameSet(db), target), CarriedOut(db, local, apply);
    forall n | n in local && n in db ensures n in after {
      var i :| 0 <= i < |db| && db[i] == n;
      assert after[i] == n;
    }
    forall m | m in todo ensures m.name in after {
      assert m in multiset(apply);
      var i :| 0 <= i < |apply| && apply[i] == m;
      assert after[k + 1 + i] == m.name;
    }
    forall i | 0 <= i < |apply| ensures apply[i].name in local {
      assert apply[i] in multiset(todo);
      assert apply[i] in todo && apply[i] in All(files, baseline);
    }
  }

  lemma NothingLeft(files: seq<RawMigration>, baseline: string, db: seq<string>, target: string, apply: seq<RawMigration>)
    requires multiset(apply) == multiset(Unapplied(files, baseline, NameSet(db), target))
    requires !SomeUntagged(files, baseline, NameSet(db), target)
    ensures var after := NameSet(CarriedOut(db, Names(All(files, baseline)), apply));
            Unapplied(files, baseline, after, target) == [] && !SomeUntagged(files, baseline, after, target)
  {
    CarriedOutNames(files, baseline, db, target, apply);
    var local := Names(All(files, baseline));
    var after := NameSet(CarriedOut(db, local, apply));
    var left := (m: RawMigration) => NameOrder.Less(baseline, m.name) && SelectedBy(m, target) && m.name !in after;
    forall m | m in files && NameOrder.Less(baseline, m.name) ensures m.name in local {
      assert m in All(files, baseline);
    }
    forall m | m in files ensures !left(m) {
      if NameOrder.Less(baseline, m.name) && SelectedBy(m, target) && m.name !in NameSet(db) {
        assert m in Unapplied(files, baseline, NameSet(db), target);
      }
    }
    FilterNone(left, files);
    forall m | m in files ensures !Untagged(m, baseline, after, target) {
      assert !Untagged(m, baseline, NameSet(db), target);
    }
  }

  /** The leaf of a history that ends with these entries, on top of the baseline. */
  function LeafOf(db: seq<string>, baseline: string): Option<string>
  {
    if db != [] then Some(db[|db| - 1]) else if baseline != "" then Some(baseline) else None
  }

  /** What the apply leg ends with, or else the convergence point, is the last local migration. */
  predicate EndsAtLocalLeaf(db: seq<string>, local: set<string>, apply: seq<RawMigration>, selected: seq<RawMigration>)
  {
    && selected != []
    && if apply != [] then LastName(apply) == LastName(selected)
       else Convergence(db, local) >= 0 && Some(db[Convergence(db, local)]) == LastName(selected)
  }

  /**
   * The plan converges. When nothing is blocked, reverting the suffix and applying the apply leg gives a history whose
   * own plan, for the same target, has nothing to apply, to revert or blocked, and cannot fail. It is reported in sync
   * exactly when the deployment is complete and, without a target, the run ended with the last local migration.
   */
  lemma Converges(files: seq<RawMigration>, baseline: string, db: seq<string>, target: string, preview: string -> Preview,
                  status: Status, r: PlanResult, preview': string -> Preview, status': Status, r': PlanResult)
    requires Distinct(db) && PlansTo(files, baseline, db, "", target, preview, status, r) && r.Planned? && r.blocked == Unblocked
    requires PlansTo(files, baseline, CarriedOut(db, Names(All(files, baseline)), r.apply), "", target, preview', status', r')
    requires status'.leaf == LeafOf(CarriedOut(db, Names(All(files, baseline)), r.apply), baseline)
    ensures r'.Planned? && r'.apply == [] && r'.revert == [] && r'.blocked == Unblocked
    ensures r'.inSync <==> status'.complete
                           && (target != "" || EndsAtLocalLeaf(db, Names(All(files, baseline)), r.apply, Selected(files, baseline, target)))
  {
    var local := Names(All(files, baseline));
    var after := CarriedOut(db, local, r.apply);
    hide *;
    PlanParts(files, baseline, db, target, preview, status, r);
    NothingLeft(files, baseline, db, target, r.apply);
    CarriedOutNames(files, baseline, db, target, r.apply);
    NotBlocked(db, local, baseline, preview, r.revert);
    AllLocal(db, local, r.apply);
    ConvergenceAtTop(after, local);
    EmptyPlan(files, baseline, after, target, preview', status', r');
    NoneSelected(files, baseline, after, target);
    LeafAgrees(db, local, baseline, r.apply, Selected(files, baseline, target));
  }

  /** Selected migrations that are all applied leave a history that is not empty. */
  lemma NoneSelected(files: seq<RawMigration>, baseline: string, db: seq<string>, target: string)
    requires Unapplied(files, baseline, NameSet(db), target) == []
    ensures db == [] ==> Selected(files, baseline, target) == []
  {
    if db == [] {
      var keep := (m: RawMigration) => NameOrder.Less(baseline, m.name) && SelectedBy(m, target);
      forall m | m in files ensures !keep(m) {
        assert m !in Unapplied(files, baseline, NameSet(db), target);
      }
      FilterNone(keep, files);
    }
  }

  lemma LeafAgrees(db: seq<string>, local: set<string>, baseline: string, apply: seq<RawMigration>, selected: seq<RawMigration>)
    requires CarriedOut(db, local, apply) == [] ==> selected == []
    ensures var leaf := LeafOf(CarriedOut(db, local, apply), baseline);
            leaf.Some? && leaf == LastName(selected) <==> EndsAtLocalLeaf(db, local, apply, selected)
  {
    hide Convergence;
  }

  /** Two files, the later one already applied. */
  const LATE_FILES := [RawMigration("01", [], []), RawMigration("02", [], [])]

  /**
   * Applying the earlier file converges: the next plan has nothing left to do. But the history then ends with that
   * file, and the directory with the other, so it is not reported in sync, now or at any later plan.
   */
  lemma ConvergedNeverInSync(preview: string -> Preview, status: Status, r: PlanResult, preview': string -> Preview, status': Status, r': PlanResult)
    requires PlansTo(LATE_FILES, "", ["02"], "", "", preview, status, r)
    ensures r.Planned? && r.blocked == Unblocked && r.apply == [LATE_FILES[0]]
    ensures CarriedOut(["02"], Names(All(LATE_FILES, "")), r.apply) == ["02", "01"]
    ensures PlansTo(LATE_FILES, "", ["02", "01"], "", "", preview', status', r') && status'.leaf == Some("01") ==>
              r'.Planned? && r'.apply == [] && r'.revert == [] && r'.blocked == Unblocked && !r'.inSync
  {
    hide *;
    LateSets();
    LatePlan(preview, status, r);
    LateCarried();
    if PlansTo(LATE_FILES, "", ["02", "01"], "", "", preview', status', r') && status'.leaf == Some("01") {
      OneEntry();
      Converges(LATE_FILES, "", ["02"], "", preview, status, r, preview', status', r');
      LateEnds();
    }
  }

  lemma OneEntry()
    ensures Distinct(["02"]) && LeafOf(["02", "01"], "") == Some("01")
  {
  }

  lemma LateSets()
    ensures All(LATE_FILES, "") == LATE_FILES == Selected(LATE_FILES, "", "")
    ensures Unapplied(LATE_FILES, "", NameSet(["02"]), "") == [LATE_FILES[0]]
    ensures !SomeUntagged(LATE_FILES, "", NameSet(["02"]), "")
    ensures Names(LATE_FILES) == {"01", "02"} && NameSet(["02"]) == {"02"}
  {
    LateSelected();
    LateUnapplied();
    hide All, Selected, Unapplied;
    assert LATE_FILES[0] in LATE_FILES && LATE_FILES[1] in LATE_FILES;
  }

  lemma LateSelected()
    ensures All(LATE_FILES, "") == LATE_FILES == Selected(LATE_FILES, "", "")
  {
    FilterAll((m: RawMigration) => NameOrder.Less("", m.name), LATE_FILES);
    FilterAll((m: RawMigration) => NameOrder.Less("", m.name) && SelectedBy(m, ""), LATE_FILES);
    hide Filter;
  }

  lemma LateUnapplied()
    ensures Unapplied(LATE_FILES, "", NameSet(["02"]), "") == [LATE_FILES[0]]
  {
    var todo := (m: RawMigration) => NameOrder.Less("", m.name) && SelectedBy(m, "") && m.name !in NameSet(["02"]);
    assert LATE_FILES == ([] + [LATE_FILES[0]]) + [LATE_FILES[1]];
    FilterAppend(todo, [], LATE_FILES[0]);
    FilterAppend(todo, [] + [LATE_FILES[0]], LATE_FILES[1]);
    assert Filter(todo, []) == [];
    hide Filter;
    assert "02" in NameSet(["02"]) && "01" != "02" by { assert ["02"][0] == "02" && "01"[1] != "02"[1]; }
  }

  lemma LateCarried()
    ensures CarriedOut(["02"], {"01", "02"}, [LATE_FILES[0]]) == ["02", "01"]
  {
    LateConvergence();
    hide Convergence;
  }

  lemma LateConvergence()
    ensures Convergence(["02"], {"01", "02"}) == 0
  {
  }

  lemma LateEnds()
    ensures !EndsAtLocalLeaf(["02"], {"01", "02"}, [LATE_FILES[0]], LATE_FILES)
  {
    hide Convergence;
    assert "01"[1] != "02"[1];
  }

  lemma LatePlan(preview: string -> Preview, status: Status, r: PlanResult)
    requires PlansTo(LATE_FILES, "", ["02"], "", "", preview, status, r)
    ensures r.Planned? && r.blocked == Unblocked && r.apply == [LATE_FILES[0]]
  {
    LateSets();
    LateConvergence();
    var m := LATE_FILES[0];
    OneOrder(m);
    LateLegs(preview);
    hide All, Selected, Unapplied, SomeUntagged, NameSet, Names, Legs, LeastOrder, ValidOrder, Excluded;
  }

  lemma OneOrder(m: RawMigration)
    requires m.dependsOn == []
    ensures ValidOrder([m], [m]) && (forall p :: LeastOrder([m], p) ==> p == [m])
    ensures forall applied, excluded :: AllKnown([m], applied, excluded)
  {
    forall p | LeastOrder([m], p) ensures p == [m] {
      assert multiset(p) == multiset([m]);
      assert |multiset(p)| == |p| == 1;
      assert p[0] in multiset(p);
    }
  }

  lemma LateLegs(preview: string -> Preview)
    ensures forall revert, blocked :: Legs(["02"], {"01", "02"}, "", preview, revert, blocked) ==> revert == [] && blocked == Unblocked
  {
    ConvergenceAtTop(["02"], {"01", "02"});
    hide Convergence, RevertSuffix, Interleaved;
  }

  lemma AllLocal(db: seq<string>, local: set<string>, apply: seq<RawMigration>)
    requires forall i :: 0 <= i <= Convergence(db, local) ==> db[i] in local
    requires forall i :: 0 <= i < |apply| ==> apply[i].name in local
    ensures forall i :: 0 <= i < |CarriedOut(db, local, apply)| ==> CarriedOut(db, local, apply)[i] in local
  {
  }

  lemma PlanParts(files: seq<RawMigration>, baseline: string, db: seq<string>, target: string, preview: string -> Preview,
                  status: Status, r: PlanResult)
    requires PlansTo(files, baseline, db, "", target, preview, status, r) && r.Planned?
    ensures !SomeUntagged(files, baseline, NameSet(db), target)
    ensures multiset(r.apply) == multiset(Unapplied(files, baseline, NameSet(db), target))
    ensures Legs(db, Names(All(files, baseline)), baseline, preview, r.revert, r.blocked)
  {
    hide Legs, SomeUntagged, Unapplied, Excluded, All;
  }

  lemma EmptyPlan(files: seq<RawMigration>, baseline: string, db: seq<string>, target: string, preview: string -> Preview,
                  status: Status, r: PlanResult)
    requires PlansTo(files, baseline, db, "", target, preview, status, r)
    requires var local := Names(All(files, baseline));
             RevertSuffix(db, local) == [] && Interleaved(db, local) == []
    requires Unapplied(files, baseline, NameSet(db), target) == [] && !SomeUntagged(files, baseline, NameSet(db), target)
    ensures r.Planned? && r.apply == [] && r.revert == [] && r.blocked == Unblocked
    ensures r.inSync <==> status.complete
                          && (target != "" || (status.leaf.Some? && status.leaf == LastName(Selected(files, baseline, target))))
  {
    hide SomeUntagged, Unapplied, Excluded, All, Selected, RevertSuffix, Interleaved, NameSet, Names;
    EmptyOrder(if r.Planned? then r.apply else []);
  }

  lemma EmptyOrder(p: seq<RawMigration>)
    ensures ValidOrder([], [])
    ensures LeastOrder([], p) ==> p == []
  {
    assert |p| != 0 ==> p[0] in multiset(p);
  }

  // ----- Computing it -----

  /** Computes the plan; executes nothing. `db` is the visible history, oldest first. */
  method Plan(files: seq<RawMigration>, baseline: string, db: seq<string>, to: string, target: string,
              preview: string -> Preview, status: Status) returns (r: PlanResult)
    requires Distinct(db)
    ensures DistinctNames(files) ==> PlansTo(files, baseline, db, to, target, preview, status, r)
  {
    var applied := NameSet(db);
    var local := ResolveLocalSet(files, baseline, applied, target);
    if local.TargetRequired? {
      return Unroutable(local.file);
    }
    if to != "" {
      if to !in applied && to != baseline {
        return TargetNotFound;
      }
      var above := SuffixAbove(db, to);
      var revert, blocked := FillRevertLeg(to, above, preview);
      r := Planned([], revert, blocked, false);
      return r.(inSync := InSync(r, status, local.selected, target));
    }
    var unapplied := SelectUnapplied(local.selected, applied);
    if DistinctNames(files) {
      UnappliedOfSelected(files, baseline, applied, target);
    }
    hide LeastOrder, ValidOrder, AllKnown, Unknown, Legs, Unapplied, Excluded, SomeUntagged, All, Selected, NameSet;
    var sorted := TopoSortMigrations(unapplied, applied, local.excluded);
    if !sorted.Sorted? {
      return Unorderable(sorted);
    }
    var revert, blocked := RevertAndBlocked(db, Names(local.all), baseline, preview);
    r := Planned(sorted.order, revert, blocked, false);
    return r.(inSync := InSync(r, status, local.selected, target));
  }

  method SuffixAbove(db: seq<string>, to: string) returns (above: seq<string>)
    requires Distinct(db)
    ensures above == Above(db, to)
  {
    for i := 0 to |db|
      invariant to !in db[..i]
    {
      if db[i] == to {
        AboveAt(db, i);
        return db[i + 1..];
      }
      assert db[..i + 1] == db[..i] + [db[i]];
    }
    assert db[..|db|] == db;
    AboveNone(db, to);
    return db;
  }

  lemma {:induction false} AboveAt(db: seq<string>, i: nat)
    requires Distinct(db) && i < |db|
    ensures Above(db, db[i]) == db[i + 1..]
  {
    if i > 0 {
      AboveAt(db[1..], i - 1);
      assert db[1..][i - 1] == db[i] && db[1..][i..] == db[i + 1..];
    }
  }

  lemma AboveNone(db: seq<string>, to: string)
    requires to !in db
    ensures Above(db, to) == db
  {
  }

  method FillRevertLeg(to: string, candidates: seq<string>, preview: string -> Preview)
    returns (revert: seq<string>, blocked: Blocked)
    ensures RevertLeg(to, candidates, preview, revert, blocked)
  {
    match preview(to)
    case Refuses => return [], RevertRefused(candidates);
    case Reverts(view) => return view, Unblocked;
  }

  /** The convergence point from the top, the suffix above it, and what is interleaved below it. */
  method RevertAndBlocked(db: seq<string>, local: set<string>, baseline: string, preview: string -> Preview)
    returns (revert: seq<string>, blocked: Blocked)
    ensures Legs(db, local, baseline, preview, revert, blocked)
  {
    var k := FindConvergence(db, local);
    var suffix := db[k + 1..];
    var interleaved := CollectInterleaved(db, local + NameSet(suffix));
    assert suffix == RevertSuffix(db, local) && interleaved == Interleaved(db, local);
    hide Convergence, RevertSuffix, Interleaved, NotIn, NameSet;
    revert, blocked := FillSuffixLeg(db, local, baseline, preview, k, suffix);
    hide SuffixLeg;
    if |interleaved| > 0 && blocked == Unblocked {
      blocked := NonContiguous(interleaved);
    }
  }

  method FillSuffixLeg(db: seq<string>, local: set<string>, baseline: string, preview: string -> Preview, k: int, suffix: seq<string>)
    returns (revert: seq<string>, blocked: Blocked)
    requires k == Convergence(db, local) && suffix == RevertSuffix(db, local)
    ensures SuffixLeg(db, local, baseline, preview, revert, blocked)
  {
    hide Convergence, RevertSuffix, RevertLeg;
    revert, blocked := [], Unblocked;
    if |suffix| > 0 {
      if k >= 0 {
        revert, blocked := FillRevertLeg(db[k], suffix, preview);
      } else if baseline != "" {
        revert, blocked := FillRevertLeg(baseline, suffix, preview);
      } else {
        blocked := NoConvergenceTarget(suffix);
      }
    }
  }

  method FindConvergence(db: seq<string>, local: set<string>) returns (k: int)
    ensures k == Convergence(db, local)
  {
    k := |db| - 1;
    while k >= 0 && db[k] !in local
      invariant -1 <= k < |db| && Convergence(db, local) == Convergence(db[..k + 1], local)
    {
      assert db[..k + 1][..k] == db[..k];
      k := k - 1;
    }
    assert db[..|db|] == db;
  }

  method CollectInterleaved(db: seq<string>, names: set<string>) returns (r: seq<string>)
    ensures r == NotIn(db, names)
  {
    r := [];
    for i := 0 to |db|
      invariant r == NotIn(db[..i], names)
    {
      assert db[..i + 1][..i] == db[..i];
      if db[i] !in names {
        r := r + [db[i]];
      }
    }
    assert db[..|db|] == db;
  }
}
