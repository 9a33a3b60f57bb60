/** Running a list of database actions, each distinct id once. */
module Coordinator {
  datatype Action<A> = Action(id: string, body: A)

  datatype Coordinator<A> = Coordinator(actions: map<string, Action<A>>, ordered: seq<string>)

  // ----- First and last occurrences -----

  predicate Has<A>(actions: seq<Action<A>>, id: string)
  {
    exists i :: 0 <= i < |actions| && actions[i].id == id
  }

  ghost predicate IsFirst<A>(actions: seq<Action<A>>, id: string, k: int)
  {
    0 <= k < |actions| && actions[k].id == id && forall i :: 0 <= i < k ==> actions[i].id != id
  }

  ghost predicate IsLast<A>(actions: seq<Action<A>>, id: string, k: int)
  {
    0 <= k < |actions| && actions[k].id == id && forall i :: k < i < |actions| ==> actions[i].id != id
  }

  /** What a coordinator over these actions is: every id once, by last occurrence, with its first action. */
  ghost predicate Coordinates<A>(actions: seq<Action<A>>, c: Coordinator<A>)
  {
    && (forall i, j :: 0 <= i < j < |c.ordered| ==> c.ordered[i] != c.ordered[j])
    && (forall id :: id in c.ordered <==> Has(actions, id))
    && (forall id :: id in c.actions <==> Has(actions, id))
    && (forall id, k :: IsFirst(actions, id, k) ==> id in c.actions && c.actions[id] == actions[k])
    && (forall i, j, k, l :: 0 <= i < j < |c.ordered| && IsLast(actions, c.ordered[i], k) && IsLast(actions, c.ordered[j], l) ==> k < l)
  }

  lemma LastExists<A>(actions: seq<Action<A>>, id: string) returns (k: nat)
    requires Has(actions, id)
    ensures IsLast(actions, id, k)
  {
    k := |actions| - 1;
    while actions[k].id != id
      invariant k < |actions| && forall i :: k < i < |actions| ==> actions[i].id != id
      decreases k
    {
      k := k - 1;
    }
  }

  lemma FirstExists<A>(actions: seq<Action<A>>, id: string) returns (k: nat)
    requires Has(actions, id)
    ensures IsFirst(actions, id, k)
  {
    k := 0;
    while actions[k].id != id
      invariant k < |actions| && forall i :: 0 <= i < k ==> actions[i].id != id
      decreases |actions| - k
    {
      k := k + 1;
    }
  }

  /** A list without repetitions, ascending in a measure, is determined by its members. */
  lemma {:induction false} AscendingUnique(a: seq<string>, b: seq<string>, f: map<string, int>)
    requires forall x :: x in a <==> x in b
    requires forall x | x in a :: x in f
    requires forall i, j :: 0 <= i < j < |a| ==> f[a[i]] < f[a[j]]
    requires forall i, j :: 0 <= i < j < |b| ==> f[b[i]] < f[b[j]]
    ensures a == b
  {
    assert |b| > 0 ==> b[0] in b;
    assert |a| > 0 ==> a[0] in a;
    if |a| > 0 {
      var k, l := |a| - 1, |b| - 1;
      assert a[k] in b && b[l] in a;
      var i :| 0 <= i < |b| && b[i] == a[k];
      var j :| 0 <= j < |a| && a[j] == b[l];
      assert a[k] == b[l];
      forall x ensures x in a[..k] <==> x in b[..l] {
        assert x in a <==> x in a[..k] || x == a[k];
        assert x in b <==> x in b[..l] || x == b[l];
      }
      AscendingUnique(a[..k], b[..l], f);
      assert a == a[..k] + [a[k]] && b == b[..l] + [b[l]];
    }
  }

  /** The position of each id's last occurrence. */
  lemma {:induction false} LastPositions<A>(actions: seq<Action<A>>, ids: seq<string>) returns (f: map<string, int>)
    requires forall id | id in ids :: Has(actions, id)
    ensures forall id | id in ids :: id in f && IsLast(actions, id, f[id])
  {
    f := map[];
    if ids != [] {
      f := LastPositions(actions, ids[1..]);
      var k := LastExists(actions, ids[0]);
      f := f[ids[0] := k];
      hide Has, IsLast;
      assert ids == [ids[0]] + ids[1..];
    }
  }

  lemma OrderUnique<A>(actions: seq<Action<A>>, c: Coordinator<A>, d: Coordinator<A>)
    requires Coordinates(actions, c) && Coordinates(actions, d)
    ensures c.ordered == d.ordered
  {
    hide Has, IsFirst, IsLast;
    assert forall id :: id in c.ordered <==> id in d.ordered;
    var f := LastPositions(actions, c.ordered);
    Ascends(actions, c, f);
    Ascends(actions, d, f);
    hide Coordinates;
    AscendingUnique(c.ordered, d.ordered, f);
  }

  lemma Ascends<A>(actions: seq<Action<A>>, c: Coordinator<A>, f: map<string, int>)
    requires Coordinates(actions, c) && forall id :: id in c.ordered ==> id in f && IsLast(actions, id, f[id])
    ensures forall i, j :: 0 <= i < j < |c.ordered| ==> f[c.ordered[i]] < f[c.ordered[j]]
  {
    hide Has, IsFirst, IsLast;
    assert forall i :: 0 <= i < |c.ordered| ==> c.ordered[i] in c.ordered;
  }

  /** There is one such coordinator: the description leaves no choice of order or action. */
  lemma CoordinatesUnique<A>(actions: seq<Action<A>>, c: Coordinator<A>, d: Coordinator<A>)
    requires Coordinates(actions, c) && Coordinates(actions, d)
    ensures c == d
  {
    OrderUnique(actions, c, d);
    hide Has, IsFirst, IsLast;
    forall id | id in c.actions ensures id in d.actions && c.actions[id] == d.actions[id] {
      var k := FirstExists(actions, id);
    }
    assert c.actions == d.actions;
  }

  /** One more action: its id moves to the end; its action is kept only if the id is new. */
  function AddAction<A>(c: Coordinator<A>, a: Action<A>): Coordinator<A>
  {
    Coordinator(if a.id in c.actions then c.actions else c.actions[a.id := a], Removed(c.ordered, a.id) + [a.id])
  }

  function Removed(ids: seq<string>, id: string): seq<string>
  {
    if ids == [] then [] else if ids[0] == id then ids[1..] else [ids[0]] + Removed(ids[1..], id)
  }

  /** Deleting the one occurrence leaves the others in order. */
  lemma {:induction false} RemovedAt(ids: seq<string>, id: string, k: nat)
    requires k < |ids| && ids[k] == id && forall i :: 0 <= i < k ==> ids[i] != id
    ensures Removed(ids, id) == ids[..k] + ids[k + 1..]
  {
    if k > 0 {
      RemovedAt(ids[1..], id, k - 1);
      assert ids[1..][..k - 1] == ids[1..k] && ids[1..][k..] == ids[k + 1..];
      assert ids[..k] == [ids[0]] + ids[1..k];
    } else {
      assert ids[..0] + ids[1..] == ids[1..];
    }
  }

  lemma {:induction false} RemovedAbsent(ids: seq<string>, id: string)
    requires id !in ids
    ensures Removed(ids, id) == ids
  {
    if ids != [] {
      RemovedAbsent(ids[1..], id);
      assert ids == [ids[0]] + ids[1..];
    }
  }

  /** Where each id of the new order was in the old one. */
  lemma RemovedIndices(ids: seq<string>, id: string) returns (at: seq<nat>)
    requires forall i, j :: 0 <= i < j < |ids| ==> ids[i] != ids[j]
    ensures |at| == |Removed(ids, id)|
    ensures forall i :: 0 <= i < |at| ==> at[i] < |ids| && ids[at[i]] == Removed(ids, id)[i] != id
    ensures forall i, j :: 0 <= i < j < |at| ==> at[i] < at[j]
    ensures forall x :: x in Removed(ids, id) <==> x in ids && x != id
  {
    if id in ids {
      var k :| 0 <= k < |ids| && ids[k] == id;
      RemovedAt(ids, id, k);
      at := Skipping(k, |ids|);
      hide Removed;
      SkipIndices(ids, k);
    } else {
      RemovedAbsent(ids, id);
      at := seq(|ids|, i requires 0 <= i < |ids| => i);
      hide Removed;
    }
  }

  lemma SkipIndices(ids: seq<string>, k: nat)
    requires k < |ids| && forall i, j :: 0 <= i < j < |ids| ==> ids[i] != ids[j]
    ensures var rest, at := ids[..k] + ids[k + 1..], Skipping(k, |ids|);
            && |rest| == |at|
            && (forall i :: 0 <= i < |at| ==> at[i] < |ids| && ids[at[i]] == rest[i] != ids[k])
            && (forall i, j :: 0 <= i < j < |at| ==> at[i] < at[j])
            && (forall x :: x in rest <==> x in ids && x != ids[k])
  {
    var rest, at := ids[..k] + ids[k + 1..], Skipping(k, |ids|);
    forall i | 0 <= i < |at| ensures at[i] < |ids| && ids[at[i]] == rest[i] != ids[k] {
    }
    forall x | x in ids && x != ids[k] ensures x in rest {
      var j :| 0 <= j < |ids| && ids[j] == x;
      assert rest[if j < k then j else j - 1] == x;
    }
  }

  /** The indices below `n` other than `k`. */
  function Skipping(k: nat, n: nat): (r: seq<nat>)
    requires k < n
    ensures |r| == n - 1 && forall i :: 0 <= i < n - 1 ==> r[i] == if i < k then i else i + 1
  {
    seq(n - 1, i requires 0 <= i < n - 1 => if i < k then i else i + 1)
  }

  lemma HasAppend<A>(actions: seq<Action<A>>, a: Action<A>)
    ensures forall id :: Has(actions + [a], id) <==> id == a.id || Has(actions, id)
    ensures forall id, k :: IsFirst(actions + [a], id, k) <==> IsFirst(actions, id, k) || (id == a.id && k == |actions| && !Has(actions, id))
    ensures forall id, k :: IsLast(actions + [a], id, k) <==> if id == a.id then k == |actions| else IsLast(actions, id, k)
  {
    var more := actions + [a];
    assert forall i :: 0 <= i < |actions| ==> more[i] == actions[i];
    assert more[|actions|] == a;
  }

  lemma AddCoordinates<A>(actions: seq<Action<A>>, c: Coordinator<A>, a: Action<A>)
    requires Coordinates(actions, c)
    ensures Coordinates(actions + [a], AddAction(c, a))
  {
    var at := RemovedIndices(c.ordered, a.id);
    HasAppend(actions, a);
    var d := AddAction(c, a);
    hide Has, IsFirst, IsLast, Removed;
    OrderedIds(c, a);
    AddOrder(actions, c, a, at);
  }

  lemma OrderedIds<A>(c: Coordinator<A>, a: Action<A>)
    requires forall x :: x in Removed(c.ordered, a.id) <==> x in c.ordered && x != a.id
    ensures forall id :: id in AddAction(c, a).ordered <==> id in c.ordered || id == a.id
  {
    hide Removed;
    assert forall id :: id in AddAction(c, a).ordered <==> id in Removed(c.ordered, a.id) || id == a.id;
  }

  lemma AddOrder<A>(actions: seq<Action<A>>, c: Coordinator<A>, a: Action<A>, at: seq<nat>)
    requires Coordinates(actions, c)
    requires |at| == |Removed(c.ordered, a.id)|
    requires forall i :: 0 <= i < |at| ==> at[i] < |c.ordered| && c.ordered[at[i]] == Removed(c.ordered, a.id)[i] != a.id
    requires forall i, j :: 0 <= i < j < |at| ==> at[i] < at[j]
    ensures var d := AddAction(c, a);
            forall i, j, k, l :: 0 <= i < j < |d.ordered| && IsLast(actions + [a], d.ordered[i], k) && IsLast(actions + [a], d.ordered[j], l) ==> k < l
    ensures var d := AddAction(c, a);
            forall i, j :: 0 <= i < j < |d.ordered| ==> d.ordered[i] != d.ordered[j]
  {
    HasAppend(actions, a);
    hide Has, IsFirst, IsLast, Removed;
    var d := AddAction(c, a);
    assert d.ordered == Removed(c.ordered, a.id) + [a.id];
    forall i, j, k, l | 0 <= i < j < |d.ordered| && IsLast(actions + [a], d.ordered[i], k) && IsLast(actions + [a], d.ordered[j], l)
      ensures k < l
    {
      assert d.ordered[i] == c.ordered[at[i]];
      if j < |at| {
        assert d.ordered[j] == c.ordered[at[j]];
        assert IsLast(actions, c.ordered[at[i]], k) && IsLast(actions, c.ordered[at[j]], l);
      } else {
        assert IsLast(actions, c.ordered[at[i]], k);
        LastBound(actions, c.ordered[at[i]], k);
      }
    }
  }

  lemma LastBound<A>(actions: seq<Action<A>>, id: string, k: int)
    requires IsLast(actions, id, k)
    ensures k < |actions|
  {
  }

  /** Collects the actions in order, moving a repeated id to the end of the order. */
  method NewCoordinator<A>(actions: seq<Action<A>>) returns (c: Coordinator<A>)
    ensures Coordinates(actions, c)
    ensures c == Built(actions)
  {
    var byId: map<string, Action<A>> := map[];
    var ordered: seq<string> := [];
    EmptyCoordinates<A>();
    for n := 0 to |actions|
      invariant Coordinates(actions[..n], Coordinator(byId, ordered))
      invariant Coordinator(byId, ordered) == Built(actions[..n])
    {
      var action := actions[n];
      assert actions[..n + 1] == actions[..n] + [action] && actions[..n + 1][..n] == actions[..n];
      AddCoordinates(actions[..n], Coordinator(byId, ordered), action);
      hide Coordinates;
      if action.id in byId {
        var idx := IndexOf(actions[..n], Coordinator(byId, ordered), action.id);
        RemovedAt(ordered, action.id, idx);
        ordered := ordered[..idx] + ordered[idx + 1..];
      } else {
        NotOrdered(actions[..n], Coordinator(byId, ordered), action.id);
        RemovedAbsent(ordered, action.id);
        byId := byId[action.id := action];
      }
      ordered := ordered + [action.id];
    }
    assert actions[..|actions|] == actions;
    return Coordinator(byId, ordered);
  }

  function Built<A>(actions: seq<Action<A>>): Coordinator<A>
  {
    if actions == [] then Coordinator(map[], []) else AddAction(Built(actions[..|actions| - 1]), actions[|actions| - 1])
  }

  lemma EmptyCoordinates<A>()
    ensures Coordinates<A>([], Coordinator(map[], []))
  {
  }

  lemma NotOrdered<A>(actions: seq<Action<A>>, c: Coordinator<A>, id: string)
    requires Coordinates(actions, c) && id !in c.actions
    ensures id !in c.ordered
  {
  }

  /** The search in the order list cannot miss: every known id is in it. */
  method IndexOf<A>(ghost actions: seq<Action<A>>, c: Coordinator<A>, id: string) returns (idx: nat)
    requires Coordinates(actions, c) && id in c.actions
    ensures idx < |c.ordered| && c.ordered[idx] == id && forall i :: 0 <= i < idx ==> c.ordered[i] != id
  {
    assert id in c.ordered;
    idx := 0;
    while c.ordered[idx] != id
      invariant idx < |c.ordered| && forall i :: 0 <= i < idx ==> c.ordered[i] != id
      decreases |c.ordered| - idx
    {
      idx := idx + 1;
    }
  }

  datatype Outcome<A> = Executed(run: seq<Action<A>>) | NotFound(id: string)

  /** Runs the actions in order. An id without its action cannot occur. */
  method Execute<A>(ghost actions: seq<Action<A>>, c: Coordinator<A>) returns (outcome: Outcome<A>)
    requires Coordinates(actions, c)
    ensures outcome.Executed? && |outcome.run| == |c.ordered|
    ensures forall i :: 0 <= i < |c.ordered| ==> c.ordered[i] in c.actions && outcome.run[i] == c.actions[c.ordered[i]]
  {
    var run: seq<Action<A>> := [];
    for i := 0 to |c.ordered|
      invariant |run| == i
      invariant forall j :: 0 <= j < i ==> c.ordered[j] in c.actions && run[j] == c.actions[c.ordered[j]]
    {
      var id := c.ordered[i];
      assert id in c.ordered;
      if id !in c.actions {
        return NotFound(id);
      }
      run := run + [c.actions[id]];
    }
    return Executed(run);
  }

  // ----- With no repeated id, the list itself -----

  ghost predicate DistinctIds<A>(actions: seq<Action<A>>)
  {
    forall i, j :: 0 <= i < j < |actions| ==> actions[i].id != actions[j].id
  }

  /** What is executed: each ordered id's action. */
  function Effective<A>(c: Coordinator<A>): (run: seq<Action<A>>)
    requires forall i :: 0 <= i < |c.ordered| ==> c.ordered[i] in c.actions
    ensures |run| == |c.ordered| && forall i :: 0 <= i < |run| ==> run[i] == c.actions[c.ordered[i]]
  {
    seq(|c.ordered|, i requires 0 <= i < |c.ordered| => c.actions[c.ordered[i]])
  }

  ghost predicate AsGiven<A>(c: Coordinator<A>, actions: seq<Action<A>>)
  {
    && |c.ordered| == |actions|
    && (forall i :: 0 <= i < |actions| ==> c.ordered[i] == actions[i].id)
    && (forall i :: 0 <= i < |actions| ==> actions[i].id in c.actions && c.actions[actions[i].id] == actions[i])
    && (forall id | id in c.actions :: id in c.ordered)
  }

  lemma AddAsGiven<A>(c: Coordinator<A>, actions: seq<Action<A>>, a: Action<A>)
    requires AsGiven(c, actions) && forall i :: 0 <= i < |actions| ==> actions[i].id != a.id
    ensures AsGiven(AddAction(c, a), actions + [a])
  {
    assert a.id !in c.ordered;
    RemovedAbsent(c.ordered, a.id);
    hide Removed;
    var d := AddAction(c, a);
    assert d.ordered == c.ordered + [a.id];
    assert forall id :: id in d.ordered <==> id in c.ordered || id == a.id;
  }

  /** With no id repeated the coordinator runs the list it was given, in its order. */
  lemma {:induction false} DistinctRunsAsGiven<A>(actions: seq<Action<A>>)
    requires DistinctIds(actions)
    ensures AsGiven(Built(actions), actions) && Effective(Built(actions)) == actions
  {
    hide AsGiven, AddAction, Removed, Built, Effective;
    if actions == [] {
      NoneAsGiven<A>();
    } else {
      var k := |actions| - 1;
      DistinctRunsAsGiven(actions[..k]);
      AddAsGiven(Built(actions[..k]), actions[..k], actions[k]);
      assert actions == actions[..k] + [actions[k]];
      BuiltLast(actions);
    }
    EffectiveAsGiven(Built(actions), actions);
  }

  lemma NoneAsGiven<A>()
    ensures AsGiven<A>(Built([]), [])
  {
  }

  lemma BuiltLast<A>(actions: seq<Action<A>>)
    requires actions != []
    ensures Built(actions) == AddAction(Built(actions[..|actions| - 1]), actions[|actions| - 1])
  {
  }

  lemma EffectiveAsGiven<A>(c: Coordinator<A>, actions: seq<Action<A>>)
    requires AsGiven(c, actions)
    ensures (forall i :: 0 <= i < |c.ordered| ==> c.ordered[i] in c.actions) && Effective(c) == actions
  {
  }

  lemma {:induction false} BuiltCoordinates<A>(actions: seq<Action<A>>)
    ensures Coordinates(actions, Built(actions))
    ensures forall i :: 0 <= i < |Built(actions).ordered| ==> Built(actions).ordered[i] in Built(actions).actions
  {
    if actions == [] {
      EmptyCoordinates<A>();
    } else {
      var k := |actions| - 1;
      BuiltCoordinates(actions[..k]);
      AddCoordinates(actions[..k], Built(actions[..k]), actions[k]);
      assert actions == actions[..k] + [actions[k]];
    }
    var c := Built(actions);
    forall i | 0 <= i < |c.ordered| ensures c.ordered[i] in c.actions {
      assert c.ordered[i] in c.ordered;
    }
  }

  // ----- With repeated ids, each once -----

  /** What runs is taken from the list, and no id runs twice. */
  lemma RunsEachOnce<A>(actions: seq<Action<A>>)
    ensures forall i :: 0 <= i < |Built(actions).ordered| ==> Built(actions).ordered[i] in Built(actions).actions
    ensures var run := Effective(Built(actions));
            DistinctIds(run) && forall i :: 0 <= i < |run| ==> run[i] in actions
  {
    BuiltCoordinates(actions);
    var c := Built(actions);
    hide Built;
    var run := Effective(c);
    forall i | 0 <= i < |run| ensures run[i] in actions && run[i].id == c.ordered[i] {
      assert c.ordered[i] in c.ordered;
      var k := FirstExists(actions, c.ordered[i]);
      assert IsFirst(actions, c.ordered[i], k);
    }
  }
}
