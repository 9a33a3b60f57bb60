/** Migration files as the directory resolution sees them. */
module Migrations {

  /** A parsed migration file: its name, its `depends_on` list and its `targets` list. */
  datatype RawMigration = RawMigration(name: string, dependsOn: seq<string>, targets: seq<string>)

  function Names(migs: seq<RawMigration>): (r: set<string>)
  {
    set m | m in migs :: m.name
  }

  ghost predicate DistinctNames(migs: seq<RawMigration>)
  {
    forall i, j :: 0 <= i < j < |migs| ==> migs[i].name != migs[j].name
  }

  lemma NamesAppend(a: seq<RawMigration>, m: RawMigration)
    ensures Names(a + [m]) == Names(a) + {m.name}
  {
    forall n ensures n in Names(a + [m]) <==> n in Names(a) + {m.name} {
      if n in Names(a) {
        var x :| x in a && x.name == n;
        assert x in a + [m];
      }
      assert m in a + [m];
    }
  }

  lemma NamesPrefix(q: seq<RawMigration>, k: nat)
    requires k < |q|
    ensures Names(q[..k + 1]) == Names(q[..k]) + {q[k].name}
  {
    assert q[..k + 1] == q[..k] + [q[k]];
    NamesAppend(q[..k], q[k]);
  }

  lemma NotInPrefix(q: seq<RawMigration>, k: nat)
    requires DistinctNames(q) && k < |q|
    ensures q[k].name !in Names(q[..k])
  {
    forall x | x in q[..k] ensures x.name != q[k].name {
      var i :| 0 <= i < k && q[i] == x;
    }
  }

  lemma SubsetCardinality(a: set<string>, b: set<string>)
    requires a <= b
    ensures |a| <= |b|
    ensures |a| == |b| ==> a == b
  {
    assert b == a + (b - a);
  }

  /** Names never outnumber the migrations, and match them one to one when distinct. */
  lemma {:induction false} NamesCardinality(q: seq<RawMigration>)
    ensures |Names(q)| <= |q|
    ensures DistinctNames(q) <==> |Names(q)| == |q|
  {
    if q == [] {
      assert Names(q) == {};
    } else {
      var k := |q| - 1;
      NamesCardinality(q[..k]);
      assert q[..k + 1] == q;
      NamesPrefix(q, k);
      DistinctStep(q, k);
      hide Names, DistinctNames;
    }
  }

  lemma DistinctStep(q: seq<RawMigration>, k: nat)
    requires k + 1 == |q|
    ensures DistinctNames(q) <==> DistinctNames(q[..k]) && q[k].name !in Names(q[..k])
  {
    if DistinctNames(q) {
      NotInPrefix(q, k);
    }
    forall i | 0 <= i < k && q[k].name !in Names(q[..k]) ensures q[i].name != q[k].name {
      assert q[..k][i] in q[..k];
    }
  }
}

/** Dependency ordering of unapplied migrations (Kahn's algorithm with a file-position tiebreak). */
module TopoSort {
  import opened Migrations

  datatype SortResult =
    | Sorted(order: seq<RawMigration>)
    | UnknownDependency(migration: string, dependency: string)
    | Cycle(names: set<string>)

  // ----- Specification -----

  predicate HasDependencies(migs: seq<RawMigration>)
  {
    exists i :: 0 <= i < |migs| && migs[i].dependsOn != []
  }

  /** Every dependency is an unapplied migration of this run, already applied, or excluded by the target. */
  ghost predicate AllKnown(migs: seq<RawMigration>, applied: set<string>, excluded: set<string>)
  {
    forall m | m in migs :: DependenciesKnown(Names(migs), applied, excluded, m)
  }

  ghost predicate DependenciesKnown(names: set<string>, applied: set<string>, excluded: set<string>, m: RawMigration)
  {
    forall d | d in m.dependsOn :: d in names || d in applied || d in excluded
  }

  ghost predicate Unknown(migs: seq<RawMigration>, applied: set<string>, excluded: set<string>, mig: string, dep: string)
  {
    && dep !in Names(migs) && dep !in applied && dep !in excluded
    && exists m :: m in migs && m.name == mig && dep in m.dependsOn
  }

  /** Filesystem position of the named migration. */
  function Position(migs: seq<RawMigration>, name: string): (p: nat)
    requires name in Names(migs)
    ensures p < |migs| && migs[p].name == name
    ensures forall i :: 0 <= i < p ==> migs[i].name != name
  {
    if migs[0].name == name then 0 else
      assert migs == [migs[0]] + migs[1..];
      1 + Position(migs[1..], name)
  }

  /** Every dependency on a migration of the run is met strictly earlier in `q`. */
  ghost predicate Respects(migs: seq<RawMigration>, q: seq<RawMigration>)
  {
    forall k, d | 0 <= k < |q| && d in q[k].dependsOn && d in Names(migs) :: d in Names(q[..k])
  }

  /** `q` is a dependency-respecting permutation of `migs`. */
  ghost predicate ValidOrder(migs: seq<RawMigration>, q: seq<RawMigration>)
  {
    multiset(q) == multiset(migs) && Respects(migs, q)
  }

  /** `p` is `q`, or at the first difference `p` takes the migration with the lower file position. */
  ghost predicate NotAfter(migs: seq<RawMigration>, p: seq<RawMigration>, q: seq<RawMigration>)
  {
    p == q || exists k :: 0 <= k < |p| && Before(migs, p, q, k)
  }

  ghost predicate Before(migs: seq<RawMigration>, p: seq<RawMigration>, q: seq<RawMigration>, k: nat)
    requires k < |p|
  {
    && k < |q| && p[..k] == q[..k] && p[k] in migs && q[k] in migs
    && Position(migs, p[k].name) < Position(migs, q[k].name)
  }

  /** The lexicographically least dependency-respecting permutation. */
  ghost predicate LeastOrder(migs: seq<RawMigration>, p: seq<RawMigration>)
  {
    ValidOrder(migs, p) && forall q | ValidOrder(migs, q) :: NotAfter(migs, p, q)
  }

  /** `m` is not placed yet and everything it waits for is. */
  ghost predicate Ready(migs: seq<RawMigration>, placed: set<string>, m: RawMigration)
  {
    && m in migs
    && m.name !in placed
    && forall d | d in m.dependsOn && d in Names(migs) :: d in placed
  }

  /** Each step of `p` takes the ready migration with the lowest file position. */
  ghost predicate Greedy(migs: seq<RawMigration>, p: seq<RawMigration>)
  {
    forall k | 0 <= k < |p| :: GreedyAt(migs, Names(p[..k]), p[k])
  }

  ghost predicate GreedyAt(migs: seq<RawMigration>, placed: set<string>, m: RawMigration)
  {
    && Ready(migs, placed, m)
    && forall x | Ready(migs, placed, x) :: Position(migs, m.name) <= Position(migs, x.name)
  }

  // ----- Facts about the specification -----

  lemma SameNameSameMigration(migs: seq<RawMigration>, a: RawMigration, b: RawMigration)
    requires DistinctNames(migs) && a in migs && b in migs && a.name == b.name
    ensures a == b
  {
  }

  lemma GreedyDistinct(migs: seq<RawMigration>, p: seq<RawMigration>)
    requires Greedy(migs, p)
    ensures DistinctNames(p)
  {
    forall i, j | 0 <= i < j < |p| ensures p[i].name != p[j].name {
      assert GreedyAt(migs, Names(p[..j]), p[j]);
      assert p[..j][i] in p[..j];
    }
  }

  /** Distinct migrations drawn from `migs`, as many as `migs` has, are a permutation of it. */
  lemma PermutationByCount(migs: seq<RawMigration>, p: seq<RawMigration>)
    requires DistinctNames(migs) && DistinctNames(p) && |p| == |migs|
    requires forall m | m in p :: m in migs
    ensures multiset(p) == multiset(migs)
  {
    NamesCardinality(p);
    NamesCardinality(migs);
    assert Names(p) <= Names(migs);
    SubsetCardinality(Names(p), Names(migs));
    forall m ensures multiset(p)[m] == multiset(migs)[m] {
      AtMostOnce(p, m);
      AtMostOnce(migs, m);
      if m in migs {
        assert m.name in Names(p);
        var x :| x in p && x.name == m.name;
        SameNameSameMigration(migs, x, m);
      }
    }
  }

  lemma {:induction false} AtMostOnce(q: seq<RawMigration>, m: RawMigration)
    requires DistinctNames(q)
    ensures multiset(q)[m] == if m in q then 1 else 0
  {
    if q != [] {
      var k := |q| - 1;
      assert q == q[..k] + [q[k]];
      AtMostOnce(q[..k], m);
      assert forall i :: 0 <= i < k ==> q[..k][i] == q[i];
    }
  }

  lemma PermutationMembers(migs: seq<RawMigration>, q: seq<RawMigration>)
    requires multiset(q) == multiset(migs)
    ensures |q| == |migs| && Names(q) == Names(migs)
    ensures forall m :: m in q <==> m in migs
    ensures DistinctNames(migs) ==> DistinctNames(q)
  {
    assert |q| == |multiset(q)| == |multiset(migs)| == |migs|;
    assert forall m :: m in q <==> m in multiset(q);
    assert forall m :: m in migs <==> m in multiset(migs);
    NamesCardinality(q);
    NamesCardinality(migs);
  }

  /** A full greedy run is a valid order. */
  lemma GreedyIsValid(migs: seq<RawMigration>, p: seq<RawMigration>)
    requires DistinctNames(migs) && Greedy(migs, p) && |p| == |migs|
    ensures ValidOrder(migs, p)
  {
    GreedyDistinct(migs, p);
    forall m | m in p ensures m in migs {
      var k :| 0 <= k < |p| && p[k] == m;
      assert GreedyAt(migs, Names(p[..k]), p[k]);
    }
    PermutationByCount(migs, p);
    forall k, d | 0 <= k < |p| && d in p[k].dependsOn && d in Names(migs) ensures d in Names(p[..k]) {
      assert GreedyAt(migs, Names(p[..k]), p[k]);
    }
  }

  /** In a valid order each migration is ready when its turn comes. */
  lemma ValidReady(migs: seq<RawMigration>, q: seq<RawMigration>, k: nat)
    requires DistinctNames(migs) && ValidOrder(migs, q) && k < |q|
    ensures Ready(migs, Names(q[..k]), q[k])
  {
    PermutationMembers(migs, q);
    NotInPrefix(q, k);
    assert q[k] in migs;
  }

  lemma GreedyBeats(migs: seq<RawMigration>, placed: set<string>, a: RawMigration, b: RawMigration)
    requires DistinctNames(migs) && GreedyAt(migs, placed, a) && Ready(migs, placed, b) && a != b
    ensures Position(migs, a.name) < Position(migs, b.name)
  {
    assert Position(migs, a.name) <= Position(migs, b.name);
    var i :| 0 <= i < |migs| && migs[i] == a;
    var j :| 0 <= j < |migs| && migs[j] == b;
    PositionAt(migs, i);
    PositionAt(migs, j);
  }

  /** Where a greedy run and another valid order first differ, the greedy run takes the lower position. */
  lemma FirstDifference(migs: seq<RawMigration>, p: seq<RawMigration>, q: seq<RawMigration>, k: nat)
    requires DistinctNames(migs) && Greedy(migs, p) && ValidOrder(migs, q)
    requires k < |p| && k < |q| && p[..k] == q[..k] && p[k] != q[k]
    ensures Before(migs, p, q, k)
  {
    ValidReady(migs, q, k);
    GreedyBeats(migs, Names(p[..k]), p[k], q[k]);
  }

  lemma {:induction false} GreedyNotAfter(migs: seq<RawMigration>, p: seq<RawMigration>, q: seq<RawMigration>, k: nat)
    requires DistinctNames(migs) && Greedy(migs, p) && |p| == |q| && ValidOrder(migs, q)
    requires k <= |p| && p[..k] == q[..k]
    ensures NotAfter(migs, p, q)
    decreases |p| - k
  {
    if k == |p| {
      assert p == p[..k] && q == q[..k];
    } else if p[k] == q[k] {
      assert p[..k + 1] == p[..k] + [p[k]] && q[..k + 1] == q[..k] + [q[k]];
      GreedyNotAfter(migs, p, q, k + 1);
    } else {
      FirstDifference(migs, p, q, k);
    }
  }

  lemma NotAfterAntisymmetric(migs: seq<RawMigration>, p: seq<RawMigration>, q: seq<RawMigration>)
    requires NotAfter(migs, p, q) && NotAfter(migs, q, p)
    ensures p == q
  {
    if p != q {
      var k :| 0 <= k < |p| && Before(migs, p, q, k);
      forall j | 0 <= j < |q| ensures !Before(migs, q, p, j) {
        if j < k {
          assert p[..k][j] == p[j] && q[..k][j] == q[j];
        } else if k < j < |p| {
          assert p[..j][k] == p[k] && q[..j][k] == q[k];
        }
      }
    }
  }

  /** Greedy selection yields the least order, and there is no other least order. */
  lemma GreedyIffLeast(migs: seq<RawMigration>, p: seq<RawMigration>, q: seq<RawMigration>)
    requires DistinctNames(migs) && Greedy(migs, p) && |p| == |migs|
    ensures LeastOrder(migs, q) <==> q == p
  {
    GreedyIsValid(migs, p);
    forall x | ValidOrder(migs, x) ensures NotAfter(migs, p, x) {
      PermutationMembers(migs, x);
      GreedyNotAfter(migs, p, x, 0);
    }
    if LeastOrder(migs, q) {
      NotAfterAntisymmetric(migs, p, q);
    }
  }

  lemma {:induction false} StuckCovers(migs: seq<RawMigration>, placed: set<string>, q: seq<RawMigration>, k: nat)
    requires multiset(q) == multiset(migs) && Respects(migs, q) && k <= |q|
    requires forall m :: !Ready(migs, placed, m)
    ensures Names(q[..k]) <= placed
  {
    PermutationMembers(migs, q);
    if k > 0 {
      StuckCovers(migs, placed, q, k - 1);
      NamesPrefix(q, k - 1);
      assert q[k - 1] in migs && !Ready(migs, placed, q[k - 1]);
    } else {
      assert Names(q[..0]) == {};
    }
  }

  /** When nothing is ready before every migration is placed, no valid order exists. */
  lemma StuckMeansNoOrder(migs: seq<RawMigration>, p: seq<RawMigration>, q: seq<RawMigration>)
    requires DistinctNames(migs) && |p| < |migs|
    requires forall m :: !Ready(migs, Names(p), m)
    ensures !ValidOrder(migs, q)
  {
    NamesCardinality(p);
    NamesCardinality(migs);
    assert !(Names(migs) <= Names(p)) by {
      if Names(migs) <= Names(p) {
        SubsetCardinality(Names(migs), Names(p));
      }
    }
    if multiset(q) == multiset(migs) {
      PermutationMembers(migs, q);
      assert q[..|q|] == q;
      if Respects(migs, q) {
        StuckCovers(migs, Names(p), q, |q|);
      }
    }
  }

  /** Some ready migration has the lowest position, if any is ready at all. */
  lemma {:induction false} LowestReady(migs: seq<RawMigration>, placed: set<string>, k: nat) returns (found: bool, m: RawMigration)
    requires DistinctNames(migs) && migs != [] && k <= |migs|
    ensures found ==> GreedyAt(migs, placed, m)
    ensures !found ==> forall i :: 0 <= i < k ==> !Ready(migs, placed, migs[i])
  {
    found, m := false, migs[0];
    if k != 0 {
      found, m := LowestReady(migs, placed, k - 1);
      if !found && Ready(migs, placed, migs[k - 1]) {
        found, m := true, migs[k - 1];
        forall x | Ready(migs, placed, x) ensures Position(migs, m.name) <= Position(migs, x.name) {
          var i :| 0 <= i < |migs| && migs[i] == x;
          PositionAt(migs, i);
          PositionAt(migs, k - 1);
        }
      }
    }
  }

  /** Where a valid order exists, greedy selection never gets stuck. */
  lemma {:induction false} GreedyExists(migs: seq<RawMigration>, p: seq<RawMigration>, n: nat) returns (g: seq<RawMigration>)
    requires DistinctNames(migs) && ValidOrder(migs, p) && n <= |migs|
    ensures |g| == n && Greedy(migs, g)
  {
    g := [];
    if n != 0 {
      g := GreedyExists(migs, p, n - 1);
      var found, m := LowestReady(migs, Names(g), |migs|);
      if !found {
        forall x ensures !Ready(migs, Names(g), x) {
          assert x in migs ==> exists i :: 0 <= i < |migs| && migs[i] == x;
        }
        StuckMeansNoOrder(migs, g, p);
      }
      var was := g;
      g := was + [m];
      forall k | 0 <= k < n ensures GreedyAt(migs, Names(g[..k]), g[k]) {
        assert g[..k] == if k < |was| then was[..k] else was;
      }
    }
  }

  /** The least order is the greedy one. */
  lemma LeastIsGreedy(migs: seq<RawMigration>, p: seq<RawMigration>)
    requires DistinctNames(migs) && LeastOrder(migs, p)
    ensures Greedy(migs, p) && |p| == |migs|
  {
    var g := GreedyExists(migs, p, |migs|);
    GreedyIffLeast(migs, g, p);
  }

  lemma PositionAt(migs: seq<RawMigration>, k: nat)
    requires DistinctNames(migs) && k < |migs|
    ensures migs[k].name in Names(migs) && Position(migs, migs[k].name) == k
  {
    assert migs[k] in migs;
  }

  /** Without dependencies file order itself is the least order, so skipping the sort changes nothing. */
  lemma NoDependenciesKeepsFileOrder(migs: seq<RawMigration>)
    requires DistinctNames(migs) && !HasDependencies(migs)
    ensures Greedy(migs, migs)
  {
    forall k | 0 <= k < |migs| ensures GreedyAt(migs, Names(migs[..k]), migs[k]) {
      PositionAt(migs, k);
      NotInPrefix(migs, k);
      forall i | 0 <= i < k ensures migs[i].name in Names(migs[..k]) {
        assert migs[..k][i] in migs[..k];
      }
      forall x | Ready(migs, Names(migs[..k]), x) ensures k <= Position(migs, x.name) {
        var i :| 0 <= i < |migs| && migs[i] == x;
        PositionAt(migs, i);
      }
    }
  }

  // ----- The algorithm -----

  /** The in-degree counts and adjacency lists of the unapplied migrations. */
  datatype DepGraph = DepGraph(inDegree: map<string, int>, dependents: map<string, seq<string>>)
  {
    function Lookup(d: string): seq<string>
    {
      if d in dependents then dependents[d] else []
    }

    /** `n` depends on `d`: one more to wait for, and `d` learns of a dependent. */
    function AddEdge(n: string, d: string): (g: DepGraph)
      requires n in inDegree
      ensures g.inDegree.Keys == inDegree.Keys
    {
      DepGraph(inDegree[n := inDegree[n] + 1], dependents[d := Lookup(d) + [n]])
    }
  }

  /** For each unplaced migration, the in-run dependencies it still waits for, with multiplicity. */
  type WaitMap = map<string, multiset<string>>

  ghost function Wait(w: WaitMap, n: string, d: string, names: set<string>): (r: WaitMap)
    ensures r.Keys == w.Keys
  {
    if n in w && d in names then w[n := w[n] + multiset{d}] else w
  }

  /** After the first `j` entries of `deps` have been added to what `n` waits for. */
  ghost function WaitAll(w: WaitMap, n: string, deps: seq<string>, names: set<string>, j: nat): (r: WaitMap)
    requires j <= |deps|
    ensures r.Keys == w.Keys
  {
    if j == 0 then w else Wait(WaitAll(w, n, deps, names, j - 1), n, deps[j - 1], names)
  }

  /** What the first `i` migrations wait for before anything is placed. */
  ghost function Waits(migs: seq<RawMigration>, names: set<string>, i: nat): (r: WaitMap)
    requires i <= |migs|
    ensures r.Keys == names
  {
    if i == 0 then map n | n in names :: multiset{} else
      var m := migs[i - 1];
      WaitAll(Waits(migs, names, i - 1), m.name, m.dependsOn, names, |m.dependsOn|)
  }

  lemma WaitMembers(w: WaitMap, n: string, e: string, names: set<string>, x: string, d: string)
    requires x in w
    ensures d in Wait(w, n, e, names)[x] <==> d in w[x] || (x == n && d == e && d in names)
  {
  }

  lemma {:induction false} WaitAllMembers(w: WaitMap, n: string, deps: seq<string>, names: set<string>, j: nat, x: string, d: string)
    requires x in w && j <= |deps|
    ensures d in WaitAll(w, n, deps, names, j)[x] <==> d in w[x] || (x == n && d in deps[..j] && d in names)
  {
    hide Wait;
    if j != 0 {
      assert deps[..j] == deps[..j - 1] + [deps[j - 1]];
      WaitMembers(WaitAll(w, n, deps, names, j - 1), n, deps[j - 1], names, x, d);
      WaitAllMembers(w, n, deps, names, j - 1, x, d);
    }
  }

  /** A migration named `n` lists `d`. */
  ghost predicate DependsOn(migs: seq<RawMigration>, n: string, d: string)
  {
    exists m :: m in migs && m.name == n && d in m.dependsOn
  }

  lemma {:induction false} WaitsMembers(migs: seq<RawMigration>, names: set<string>, i: nat, n: string, d: string)
    requires n in names && i <= |migs|
    ensures d in Waits(migs, names, i)[n] <==> d in names && DependsOn(migs[..i], n, d)
  {
    hide *;
    if i == 0 {
      NothingWaits(migs, names, n, d);
    } else {
      var m := migs[i - 1];
      WaitsStep(migs, names, i);
      WaitsMembers(migs, names, i - 1, n, d);
      WaitAllMembers(Waits(migs, names, i - 1), m.name, m.dependsOn, names, |m.dependsOn|, n, d);
      assert m.dependsOn[..|m.dependsOn|] == m.dependsOn;
      DependsOnOneMore(migs, i - 1, n, d);
    }
  }

  lemma NothingWaits(migs: seq<RawMigration>, names: set<string>, n: string, d: string)
    requires n in names
    ensures d !in Waits(migs, names, 0)[n] && !DependsOn(migs[..0], n, d)
  {
  }

  lemma WaitsStep(migs: seq<RawMigration>, names: set<string>, i: nat)
    requires 0 < i <= |migs|
    ensures Waits(migs, names, i) == WaitAll(Waits(migs, names, i - 1), migs[i - 1].name, migs[i - 1].dependsOn, names, |migs[i - 1].dependsOn|)
  {
    hide WaitAll;
  }

  lemma DependsOnOneMore(migs: seq<RawMigration>, i: nat, n: string, d: string)
    requires i < |migs|
    ensures DependsOn(migs[..i + 1], n, d) <==> DependsOn(migs[..i], n, d) || (n == migs[i].name && d in migs[i].dependsOn)
  {
    assert migs[..i + 1] == migs[..i] + [migs[i]];
  }

  /**
   * The graph agrees with what is waited for: the in-degree is the number of dependencies waited
   * for, and the adjacency lists name each waiter once per occurrence.
   */
  ghost predicate Agrees(names: set<string>, g: DepGraph, w: WaitMap)
  {
    && g.inDegree.Keys == w.Keys
    && (forall n | n in w :: g.inDegree[n] == |w[n]|)
    && (forall d | d in names :: Waiters(d, g.Lookup(d), w))
  }

  ghost predicate Waiters(d: string, list: seq<string>, w: WaitMap)
  {
    forall n | n in w :: multiset(list)[n] == w[n][d]
  }

  lemma WaitersAdd(y: string, list: seq<string>, w: WaitMap, n: string, d: string, names: set<string>)
    requires Waiters(y, list, w) && n in w && d in names
    ensures Waiters(y, if y == d then list + [n] else list, Wait(w, n, d, names))
  {
    if y == d {
      assert multiset(list + [n]) == multiset(list) + multiset{n};
    }
  }

  lemma AddEdgeAgrees(names: set<string>, g: DepGraph, w: WaitMap, n: string, d: string)
    requires Agrees(names, g, w) && n in w && d in names
    ensures Agrees(names, g.AddEdge(n, d), Wait(w, n, d, names))
  {
    forall y | y in names ensures Waiters(y, g.AddEdge(n, d).Lookup(y), Wait(w, n, d, names)) {
      WaitersAdd(y, g.Lookup(y), w, n, d, names);
      hide Waiters, Wait;
      assert g.AddEdge(n, d).Lookup(y) == if y == d then g.Lookup(y) + [n] else g.Lookup(y);
    }
    CountAdd(g, w, n, d, names);
    hide Waiters, Wait, DepGraph.AddEdge;
  }

  lemma CountAdd(g: DepGraph, w: WaitMap, n: string, d: string, names: set<string>)
    requires g.inDegree.Keys == w.Keys && n in w && d in names
    requires forall x | x in w :: g.inDegree[x] == |w[x]|
    ensures forall x | x in w :: g.AddEdge(n, d).inDegree[x] == |Wait(w, n, d, names)[x]|
  {
    assert |w[n] + multiset{d}| == |w[n]| + 1;
  }

  /** The graph once the first `j` dependencies of `n` have been counted. */
  function AddAll(g: DepGraph, n: string, deps: seq<string>, names: set<string>, j: nat): (r: DepGraph)
    requires n in g.inDegree && j <= |deps|
    ensures r.inDegree.Keys == g.inDegree.Keys
  {
    if j == 0 then g else
      var h := AddAll(g, n, deps, names, j - 1);
      if deps[j - 1] in names then h.AddEdge(n, deps[j - 1]) else h
  }

  /** The graph once the dependencies of the first `i` migrations have been counted. */
  function GraphOf(migs: seq<RawMigration>, names: set<string>, i: nat): (r: DepGraph)
    requires i <= |migs| && Names(migs) <= names
    ensures r.inDegree.Keys == names
  {
    if i == 0 then DepGraph(map n | n in names :: 0, map[]) else
      var m := migs[i - 1];
      assert m in migs;
      AddAll(GraphOf(migs, names, i - 1), m.name, m.dependsOn, names, |m.dependsOn|)
  }

  lemma {:induction false} AddAllAgrees(g: DepGraph, n: string, deps: seq<string>, names: set<string>, j: nat, w: WaitMap)
    requires n in g.inDegree && j <= |deps| && Agrees(names, g, w)
    ensures Agrees(names, AddAll(g, n, deps, names, j), WaitAll(w, n, deps, names, j))
  {
    hide Agrees, Wait, DepGraph.AddEdge;
    if j != 0 {
      AddAllAgrees(g, n, deps, names, j - 1, w);
      WaitAgrees(names, AddAll(g, n, deps, names, j - 1), WaitAll(w, n, deps, names, j - 1), n, deps[j - 1]);
    }
  }

  lemma WaitAgrees(names: set<string>, g: DepGraph, w: WaitMap, n: string, d: string)
    requires Agrees(names, g, w) && n in g.inDegree
    ensures n in w && Agrees(names, if d in names then g.AddEdge(n, d) else g, Wait(w, n, d, names))
  {
    if d in names {
      AddEdgeAgrees(names, g, w, n, d);
    }
  }

  lemma EmptyAgrees(names: set<string>)
    ensures Agrees(names, DepGraph(map n | n in names :: 0, map[]), map n | n in names :: multiset{})
  {
  }

  lemma {:induction false} GraphOfAgrees(migs: seq<RawMigration>, names: set<string>, i: nat)
    requires i <= |migs| && Names(migs) <= names
    ensures Agrees(names, GraphOf(migs, names, i), Waits(migs, names, i))
  {
    hide Agrees, WaitAll, AddAll;
    if i == 0 {
      EmptyAgrees(names);
    } else {
      var m := migs[i - 1];
      assert m in migs;
      GraphOfAgrees(migs, names, i - 1);
      AddAllAgrees(GraphOf(migs, names, i - 1), m.name, m.dependsOn, names, |m.dependsOn|, Waits(migs, names, i - 1));
    }
  }

  /** Counts the dependencies of one migration; stops at one nobody knows. */
  method AddDependencies(names: set<string>, m: RawMigration, applied: set<string>, excluded: set<string>, g0: DepGraph)
    returns (unknown: bool, dep: string, g: DepGraph)
    requires m.name in g0.inDegree
    ensures !unknown <==> DependenciesKnown(names, applied, excluded, m)
    ensures unknown ==> dep in m.dependsOn && dep !in names && dep !in applied && dep !in excluded
    ensures !unknown ==> g == AddAll(g0, m.name, m.dependsOn, names, |m.dependsOn|)
  {
    hide DepGraph.AddEdge;
    unknown, dep, g := false, "", g0;
    for j := 0 to |m.dependsOn|
      invariant g == AddAll(g0, m.name, m.dependsOn, names, j)
      invariant forall l | 0 <= l < j :: m.dependsOn[l] in names || m.dependsOn[l] in applied || m.dependsOn[l] in excluded
    {
      dep := m.dependsOn[j];
      if dep in names {
        g := g.AddEdge(m.name, dep);
      } else if dep !in applied && dep !in excluded {
        unknown := true;
        return;
      }
    }
  }

  /** First loop: in-degrees and adjacency lists, refusing a dependency nobody knows. */
  method BuildGraph(migs: seq<RawMigration>, applied: set<string>, excluded: set<string>)
    returns (unknown: bool, mig: string, dep: string, g: DepGraph)
    ensures !unknown <==> AllKnown(migs, applied, excluded)
    ensures unknown ==> Unknown(migs, applied, excluded, mig, dep)
    ensures !unknown ==> g == GraphOf(migs, Names(migs), |migs|)
  {
    var names := Names(migs);
    unknown, mig, dep, g := false, "", "", DepGraph(map n | n in names :: 0, map[]);
    hide DependenciesKnown, AddAll;
    for i := 0 to |migs|
      invariant g == GraphOf(migs, names, i)
      invariant forall k | 0 <= k < i :: DependenciesKnown(names, applied, excluded, migs[k])
    {
      assert migs[i] in migs;
      unknown, dep, g := AddDependencies(names, migs[i], applied, excluded, g);
      if unknown {
        mig := migs[i].name;
        return;
      }
    }
  }

  /**
   * Inner scan: the in-degree-0 name with the lowest position. Map iteration order is arbitrary,
   * and the empty string doubles as "none found".
   */
  method PickBest(migs: seq<RawMigration>, inDegree: map<string, int>) returns (best: string)
    requires inDegree.Keys <= Names(migs)
    ensures best == "" ==> "" in inDegree || forall n | n in inDegree :: inDegree[n] != 0
    ensures best != "" ==> best in inDegree && inDegree[best] == 0
    ensures best != "" ==> forall n | n in inDegree && inDegree[n] == 0 :: Position(migs, best) <= Position(migs, n)
  {
    best := "";
    var bestPos := |migs|;
    var todo := inDegree.Keys;
    while todo != {}
      invariant todo <= inDegree.Keys
      invariant best == "" && "" !in inDegree ==> bestPos == |migs|
      invariant best != "" ==> best in inDegree && inDegree[best] == 0 && bestPos == Position(migs, best)
      invariant forall n | n in inDegree && n !in todo && inDegree[n] == 0 :: bestPos <= Position(migs, n)
      decreases todo
    {
      var name :| name in todo;
      todo := todo - {name};
      if inDegree[name] == 0 {
        var pos := Position(migs, name);
        if pos < bestPos {
          bestPos := pos;
          best := name;
        }
      }
    }
  }

  /** Innermost loop: one decrement per listed dependent that is still unplaced. */
  method ReduceDegrees(inDegree: map<string, int>, list: seq<string>) returns (r: map<string, int>)
    ensures r.Keys == inDegree.Keys
    ensures forall n | n in inDegree :: r[n] == inDegree[n] - multiset(list)[n]
  {
    r := inDegree;
    for i := 0 to |list|
      invariant r.Keys == inDegree.Keys
      invariant forall n | n in inDegree :: r[n] == inDegree[n] - multiset(list[..i])[n]
    {
      assert list[..i + 1] == list[..i] + [list[i]];
      if list[i] in r {
        r := r[list[i] := r[list[i]] - 1];
      }
    }
    assert list[..|list|] == list;
  }

  /** The unplaced migrations and what they still wait for, after `placed` have been emitted. */
  ghost predicate Progress(migs: seq<RawMigration>, placed: set<string>, w: WaitMap)
  {
    && w.Keys == Names(migs) - placed
    && forall n, d | n in w :: d in w[n] <==> d in Names(migs) && d !in placed && DependsOn(migs, n, d)
  }

  lemma WaitsProgress(migs: seq<RawMigration>)
    ensures Progress(migs, {}, Waits(migs, Names(migs), |migs|))
  {
    hide Waits, DependsOn, Names;
    forall n, d | n in Names(migs)
      ensures d in Waits(migs, Names(migs), |migs|)[n] <==> d in Names(migs) && DependsOn(migs, n, d)
    {
      WaitsMembers(migs, Names(migs), |migs|, n, d);
      assert migs[..|migs|] == migs;
    }
  }

  /** A name waits for nothing exactly when its migration is ready. */
  lemma ReadyIffZero(migs: seq<RawMigration>, placed: set<string>, w: WaitMap, m: RawMigration)
    requires DistinctNames(migs) && Progress(migs, placed, w) && m in migs
    ensures Ready(migs, placed, m) <==> m.name in w && |w[m.name]| == 0
  {
    if m.name in w {
      if |w[m.name]| == 0 {
        forall d | d in m.dependsOn && d in Names(migs) ensures d in placed {
          assert DependsOn(migs, m.name, d);
          assert d !in w[m.name];
        }
      } else {
        var d :| d in w[m.name];
        assert DependsOn(migs, m.name, d);
        var x :| x in migs && x.name == m.name && d in x.dependsOn;
        SameNameSameMigration(migs, x, m);
      }
    }
  }

  /** Placing `best` drops it, and every occurrence of it, from what the others wait for. */
  ghost function Release(w: WaitMap, best: string): (r: WaitMap)
    ensures r.Keys == w.Keys - {best}
  {
    map n | n in w && n != best :: w[n][best := 0]
  }

  lemma ReleaseProgress(migs: seq<RawMigration>, placed: set<string>, w: WaitMap, best: string)
    requires Progress(migs, placed, w) && best in w
    ensures Progress(migs, placed + {best}, Release(w, best))
  {
    var r := Release(w, best);
    forall n, d | n in r ensures d in r[n] <==> d in w[n] && d != best {
    }
  }

  lemma WithoutOccurrences(s: multiset<string>, x: string)
    ensures |s[x := 0]| == |s| - s[x]
  {
    assert s == s[x := 0] + multiset{}[x := s[x]];
  }

  lemma ReleaseWaiters(d: string, list: seq<string>, w: WaitMap, best: string)
    requires Waiters(d, list, w) && d != best
    ensures Waiters(d, list, Release(w, best))
  {
  }

  lemma CountRelease(g: DepGraph, w: WaitMap, best: string, reduced: map<string, int>)
    requires g.inDegree.Keys == w.Keys && reduced.Keys == w.Keys - {best}
    requires forall n | n in w :: g.inDegree[n] == |w[n]|
    requires Waiters(best, g.Lookup(best), w)
    requires forall n | n in reduced :: reduced[n] == g.inDegree[n] - multiset(g.Lookup(best))[n]
    ensures forall n | n in reduced :: reduced[n] == |Release(w, best)[n]|
  {
    forall n | n in reduced ensures reduced[n] == |Release(w, best)[n]| {
      WithoutOccurrences(w[n], best);
    }
  }

  /** Emitting `best` and decrementing its dependents keeps the graph in agreement. */
  lemma ReleaseAgrees(g: DepGraph, w: WaitMap, best: string, reduced: map<string, int>)
    requires Agrees(w.Keys, g, w) && best in w
    requires reduced.Keys == g.inDegree.Keys - {best}
    requires forall n | n in reduced :: reduced[n] == g.inDegree[n] - multiset(g.Lookup(best))[n]
    ensures Agrees(w.Keys - {best}, g.(inDegree := reduced), Release(w, best))
  {
    hide Waiters, Release;
    CountRelease(g, w, best, reduced);
    forall d | d in w && d != best ensures Waiters(d, g.(inDegree := reduced).Lookup(d), Release(w, best)) {
      ReleaseWaiters(d, g.Lookup(d), w, best);
    }
  }

  /** The name picked by the scan is the greedy choice. */
  lemma PlacedNext(migs: seq<RawMigration>, result: seq<RawMigration>, w: WaitMap, m: RawMigration)
    requires DistinctNames(migs) && Progress(migs, Names(result), w) && Greedy(migs, result)
    requires m in migs && m.name in w && |w[m.name]| == 0
    requires forall n | n in w && |w[n]| == 0 :: n in Names(migs) && Position(migs, m.name) <= Position(migs, n)
    ensures Greedy(migs, result + [m])
  {
    var p := result + [m];
    forall k | 0 <= k < |p| ensures GreedyAt(migs, Names(p[..k]), p[k]) {
      if k < |result| {
        assert p[..k] == result[..k];
      } else {
        assert p[..k] == result;
        ReadyIffZero(migs, Names(result), w, m);
        forall x | Ready(migs, Names(result), x) ensures Position(migs, m.name) <= Position(migs, x.name) {
          ReadyIffZero(migs, Names(result), w, x);
        }
      }
    }
  }

  /** With every in-degree positive, no order exists. */
  lemma StuckHere(migs: seq<RawMigration>, result: seq<RawMigration>, w: WaitMap)
    requires DistinctNames(migs) && Progress(migs, Names(result), w) && |result| < |migs|
    requires forall n | n in w :: |w[n]| != 0
    ensures forall q :: !ValidOrder(migs, q)
  {
    forall m ensures !Ready(migs, Names(result), m) {
      if m in migs {
        ReadyIffZero(migs, Names(result), w, m);
      }
    }
    forall q ensures !ValidOrder(migs, q) {
      StuckMeansNoOrder(migs, result, q);
    }
  }

  /** What holds between two iterations of the main loop. */
  ghost predicate LoopInv(migs: seq<RawMigration>, result: seq<RawMigration>, g: DepGraph, w: WaitMap)
  {
    && Names(result) <= Names(migs) && |Names(result)| == |result|
    && Progress(migs, Names(result), w)
    && Agrees(w.Keys, g, w)
    && (DistinctNames(migs) ==> Greedy(migs, result))
  }

  lemma LoopStep(migs: seq<RawMigration>, result: seq<RawMigration>, g: DepGraph, w: WaitMap, m: RawMigration,
                 reduced: map<string, int>)
    requires LoopInv(migs, result, g, w)
    requires m in migs && m.name in w && g.inDegree[m.name] == 0
    requires forall n | n in w && g.inDegree[n] == 0 :: n in Names(migs) && Position(migs, m.name) <= Position(migs, n)
    requires reduced.Keys == g.inDegree.Keys - {m.name}
    requires forall n | n in reduced :: reduced[n] == g.inDegree[n] - multiset(g.Lookup(m.name))[n]
    ensures LoopInv(migs, result + [m], g.(inDegree := reduced), Release(w, m.name))
  {
    NamesAppend(result, m);
    ReleaseProgress(migs, Names(result), w, m.name);
    ReleaseAgrees(g, w, m.name, reduced);
    if DistinctNames(migs) {
      PlacedNext(migs, result, w, m);
    }
    hide Greedy, Progress, Agrees, Release;
  }

  lemma LoopExit(migs: seq<RawMigration>, result: seq<RawMigration>, g: DepGraph, w: WaitMap)
    requires LoopInv(migs, result, g, w)
    ensures |result| <= |Names(migs)|
    ensures |result| >= |migs| && DistinctNames(migs) ==> LeastOrder(migs, result)
    ensures |result| < |migs| && (forall n | n in g.inDegree :: g.inDegree[n] != 0) && DistinctNames(migs)
            ==> forall q :: !ValidOrder(migs, q)
  {
    SubsetCardinality(Names(result), Names(migs));
    NamesCardinality(migs);
    if DistinctNames(migs) {
      if |result| >= |migs| {
        GreedyIffLeast(migs, result, result);
      } else if forall n | n in g.inDegree :: g.inDegree[n] != 0 {
        StuckHere(migs, result, w);
      }
    }
  }

  /** Sorts the unapplied migrations of a run. */
  method TopoSortMigrations(migs: seq<RawMigration>, applied: set<string>, excluded: set<string>) returns (r: SortResult)
    ensures !HasDependencies(migs) ==> r == Sorted(migs)
    ensures r.UnknownDependency? <==> !AllKnown(migs, applied, excluded)
    ensures r.UnknownDependency? ==> Unknown(migs, applied, excluded, r.migration, r.dependency)
    ensures r.Sorted? && DistinctNames(migs) ==> LeastOrder(migs, r.order)
    ensures r.Cycle? && DistinctNames(migs) && "" !in Names(migs) ==> forall q :: !ValidOrder(migs, q)
    ensures HasDependencies(migs) && !DistinctNames(migs) ==> !r.Sorted?
  {
    var hasDeps := false;
    for i := 0 to |migs|
      invariant !hasDeps
      invariant forall k | 0 <= k < i :: migs[k].dependsOn == []
    {
      if |migs[i].dependsOn| > 0 {
        hasDeps := true;
        break;
      }
    }
    if !hasDeps {
      if DistinctNames(migs) {
        NoDependenciesKeepsFileOrder(migs);
        GreedyIffLeast(migs, migs, migs);
      }
      return Sorted(migs);
    }
    hide LeastOrder, ValidOrder, AllKnown, Unknown, LoopInv;
    var unknown, mig, dep, g := BuildGraph(migs, applied, excluded);
    if unknown {
      return UnknownDependency(mig, dep);
    }
    ghost var w := Waits(migs, Names(migs), |migs|);
    var result: seq<RawMigration> := [];
    LoopEntry(migs);
    while |result| < |migs|
      invariant LoopInv(migs, result, g, w)
      decreases |migs| - |result|
    {
      var stuck, m;
      stuck, m, g, w := EmitNext(migs, result, g, w);
      if stuck {
        return Cycle(g.inDegree.Keys);
      }
      result := result + [m];
    }
    NamesCardinality(migs);
    LoopExit(migs, result, g, w);
    return Sorted(result);
  }

  /** One round of the main loop: emit the best ready migration, or report that none is. */
  method EmitNext(migs: seq<RawMigration>, result: seq<RawMigration>, g0: DepGraph, ghost w0: WaitMap)
    returns (stuck: bool, m: RawMigration, g: DepGraph, ghost w: WaitMap)
    requires |result| < |migs| && LoopInv(migs, result, g0, w0)
    ensures !stuck ==> LoopInv(migs, result + [m], g, w)
    ensures stuck && DistinctNames(migs) && "" !in Names(migs) ==> forall q :: !ValidOrder(migs, q)
  {
    LoopFacts(migs, result, g0, w0);
    LoopExit(migs, result, g0, w0);
    hide LoopInv, LeastOrder, ValidOrder;
    var best := PickBest(migs, g0.inDegree);
    if best == "" {
      return true, migs[0], g0, w0;
    }
    m := migs[Position(migs, best)];
    var reduced := ReduceDegrees(g0.inDegree - {best}, g0.Lookup(best));
    LoopStep(migs, result, g0, w0, m, reduced);
    stuck, g, w := false, g0.(inDegree := reduced), Release(w0, best);
  }

  lemma LoopEntry(migs: seq<RawMigration>)
    ensures LoopInv(migs, [], GraphOf(migs, Names(migs), |migs|), Waits(migs, Names(migs), |migs|))
  {
    GraphOfAgrees(migs, Names(migs), |migs|);
    WaitsProgress(migs);
    assert Names([]) == {};
  }

  lemma LoopFacts(migs: seq<RawMigration>, result: seq<RawMigration>, g: DepGraph, w: WaitMap)
    requires LoopInv(migs, result, g, w)
    ensures g.inDegree.Keys == w.Keys <= Names(migs)
  {
  }
}
