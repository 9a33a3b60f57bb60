/** Backfilling a new column in batches while clients keep writing through the old schema. */
module Backfill {
  import opened History

  /** A row: what clients write, the new column, and the marker that the new column is still to be filled. */
  datatype Record<O, N> = Record(value: O, derived: N, flagged: bool)

  /** A committed client write through the old schema; an update that moves a row removes and puts. */
  datatype Write<O> = Put(key: int, value: O) | Remove(key: int)

  /** The trigger: any write through the old schema derives the new column and lowers the marker. */
  function Fire<O, N>(up: O -> N, value: O): Record<O, N>
  {
    Record(value, up(value), false)
  }

  function Apply<O, N>(up: O -> N, rows: map<int, Record<O, N>>, w: Write<O>): map<int, Record<O, N>>
  {
    match w
    case Put(k, v) => rows[k := Fire(up, v)]
    case Remove(k) => rows - {k}
  }

  function ApplyAll<O, N>(up: O -> N, rows: map<int, Record<O, N>>, ws: seq<Write<O>>): map<int, Record<O, N>>
    decreases |ws|
  {
    if ws == [] then rows else ApplyAll(up, Apply(up, rows, ws[0]), ws[1..])
  }

  function Flagged<O, N>(rows: map<int, Record<O, N>>): set<int>
  {
    set k | k in rows && rows[k].flagged
  }

  /** A row whose marker is down has its new column. */
  ghost predicate Consistent<O, N>(up: O -> N, rows: map<int, Record<O, N>>)
  {
    forall k | k in rows && !rows[k].flagged :: rows[k].derived == up(rows[k].value)
  }

  /** Clients never raise a marker and never write an inconsistent row. */
  lemma {:induction false} WritesOnlyLower<O, N>(up: O -> N, rows: map<int, Record<O, N>>, ws: seq<Write<O>>)
    requires Consistent(up, rows)
    ensures Consistent(up, ApplyAll(up, rows, ws)) && Flagged(ApplyAll(up, rows, ws)) <= Flagged(rows)
    decreases |ws|
  {
    if ws != [] {
      WritesOnlyLower(up, Apply(up, rows, ws[0]), ws[1..]);
    }
  }

  lemma SubsetSize(a: set<int>, b: set<int>)
    requires a <= b
    ensures |a| <= |b| && (|a| == |b| ==> a == b)
  {
    assert b == a + (b - a);
  }

  /** The rows a batch may take: marked, and past the last reported key. */
  function Eligible<O, N>(rows: map<int, Record<O, N>>, last: Option<int>): set<int>
  {
    set k | k in rows && rows[k].flagged && (last.Some? ==> k > last.value)
  }

  /** The lowest eligible keys, up to the batch size. */
  ghost predicate IsBatch(eligible: set<int>, size: nat, batch: set<int>)
  {
    && batch <= eligible
    && |batch| == (if size < |eligible| then size else |eligible|)
    && forall b, e :: b in batch && e in eligible && e !in batch ==> b < e
  }

  lemma Inhabited<T>(keys: set<T>) returns (k: T)
    requires keys != {}
    ensures k in keys
  {
    k :| k in keys;
  }

  method Lowest(keys: set<int>) returns (k: int)
    requires keys != {}
    ensures k in keys && forall x :: x in keys ==> k <= x
  {
    ghost var some := Inhabited(keys);
    k :| k in keys;
    var rest := keys - {k};
    while rest != {}
      invariant k in keys && rest <= keys && forall x :: x in keys ==> x in rest || k <= x
      decreases rest
    {
      ghost var other := Inhabited(rest);
      var x :| x in rest;
      rest := rest - {x};
      if x < k {
        k := x;
      }
    }
  }

  /** The ordered, limited selection of a batch. */
  method SelectBatch(eligible: set<int>, size: nat) returns (batch: set<int>)
    ensures IsBatch(eligible, size, batch)
  {
    batch := {};
    var rest := eligible;
    while |batch| < size && rest != {}
      invariant rest == eligible - batch && batch <= eligible && |batch| <= size
      invariant forall b, e :: b in batch && e in rest ==> b < e
      decreases rest
    {
      var k := Lowest(rest);
      batch, rest := batch + {k}, rest - {k};
    }
    assert eligible == batch + rest;
  }

  /** Touching each row of the batch fires the trigger on it. */
  function Touch<O, N>(up: O -> N, rows: map<int, Record<O, N>>, batch: set<int>): map<int, Record<O, N>>
  {
    map k | k in rows :: if k in batch then Fire(up, rows[k].value) else rows[k]
  }

  lemma TouchLowers<O, N>(up: O -> N, rows: map<int, Record<O, N>>, batch: set<int>)
    requires Consistent(up, rows)
    ensures Consistent(up, Touch(up, rows, batch)) && Flagged(Touch(up, rows, batch)) == Flagged(rows) - batch
  {
    var after := Touch(up, rows, batch);
    forall k ensures k in Flagged(after) <==> k in Flagged(rows) - batch {
      assert k in rows ==> after[k].flagged == (rows[k].flagged && k !in batch);
    }
  }

  /** Nothing that is marked has been passed over. */
  ghost predicate NotPassed<O, N>(rows: map<int, Record<O, N>>, last: Option<int>)
  {
    last.Some? ==> forall k | k in rows && rows[k].flagged :: k > last.value
  }

  class Backfill<O, N> {
    const up: O -> N
    const batchSize: nat
    var rows: map<int, Record<O, N>>
    var last: Option<int>

    constructor (up: O -> N, batchSize: nat, rows: map<int, Record<O, N>>)
      ensures this.up == up && this.batchSize == batchSize && this.rows == rows && last == None
    {
      this.up, this.batchSize, this.rows, this.last := up, batchSize, rows, None;
    }

    /**
     * One keyed batch. The reported key is that of any row of the batch: the window has no order.
     * Ends the loop when the batch is empty.
     */
    method UpdateBatch() returns (more: bool)
      requires Consistent(up, rows) && NotPassed(rows, last)
      modifies this
      ensures Consistent(up, rows) && NotPassed(rows, last)
      ensures more <==> batchSize > 0 && Flagged(old(rows)) != {}
      ensures rows.Keys == old(rows).Keys && forall k | k in rows :: rows[k].value == old(rows)[k].value
      ensures Flagged(rows) <= Flagged(old(rows)) && (more ==> Flagged(rows) != Flagged(old(rows)))
      ensures !more ==> rows == old(rows)
    {
      var eligible := Eligible(rows, last);
      assert eligible == Flagged(rows);
      var batch := SelectBatch(eligible, batchSize);
      if batch == {} {
        assert batchSize == 0 || |eligible| == 0;
        return false;
      }
      TouchLowers(up, rows, batch);
      ghost var some := Inhabited(batch);
      var reported :| reported in batch;
      assert forall k :: k in Flagged(Touch(up, rows, batch)) ==> k > reported;
      rows := Touch(up, rows, batch);
      last := Some(reported);
      assert reported in batch && reported !in Flagged(rows);
      return true;
    }

    /** The keyed loop, with the writes committed before each batch. */
    method Start(writes: nat -> seq<Write<O>>) returns (batches: nat)
      requires Consistent(up, rows) && last == None
      modifies this
      ensures Consistent(up, rows)
      ensures batches <= |Flagged(old(rows))|
      ensures batchSize > 0 ==> Flagged(rows) == {} && forall k | k in rows :: rows[k].derived == up(rows[k].value)
      ensures batchSize == 0 ==> rows == ApplyAll(up, old(rows), writes(0))
    {
      batches := 0;
      var more := true;
      while more
        invariant Consistent(up, rows) && NotPassed(rows, last)
        invariant batches + |Flagged(rows)| <= |Flagged(old(rows))|
        invariant !more && batchSize > 0 ==> Flagged(rows) == {}
        invariant batchSize == 0 ==> batches == 0 && rows == if more then old(rows) else ApplyAll(up, old(rows), writes(0))
        decreases more, |Flagged(rows)|
      {
        WritesOnlyLower(up, rows, writes(batches));
        SubsetSize(Flagged(ApplyAll(up, rows, writes(batches))), Flagged(rows));
        StillNotPassed(rows, ApplyAll(up, rows, writes(batches)), last);
        rows := ApplyAll(up, rows, writes(batches));
        ghost var between := rows;
        more := UpdateBatch();
        SubsetSize(Flagged(rows), Flagged(between));
        if more {
          batches := batches + 1;
        }
      }
      if batchSize > 0 {
        NothingLeft(up, rows);
      }
    }

    /** One batch of a table without a usable key: any marked rows, up to the batch size. */
    method UpdateAnyBatch() returns (more: bool)
      requires Consistent(up, rows)
      modifies this
      ensures Consistent(up, rows) && last == old(last)
      ensures more <==> batchSize > 0 && Flagged(old(rows)) != {}
      ensures rows.Keys == old(rows).Keys && forall k | k in rows :: rows[k].value == old(rows)[k].value
      ensures Flagged(rows) <= Flagged(old(rows)) && (more ==> Flagged(rows) != Flagged(old(rows)))
      ensures !more ==> rows == old(rows)
    {
      var flagged := Flagged(rows);
      var lowest := SelectBatch(flagged, batchSize);
      var batch: set<int> :| batch <= flagged && |batch| == |lowest|;
      if batch == {} {
        assert batchSize == 0 || |flagged| == 0;
        return false;
      }
      TouchLowers(up, rows, batch);
      ghost var some := Inhabited(batch);
      rows := Touch(up, rows, batch);
      assert some in batch && some !in Flagged(rows);
      return true;
    }

    /** The loop for a table without a usable key. */
    method StartUnkeyed(writes: nat -> seq<Write<O>>) returns (batches: nat)
      requires Consistent(up, rows)
      modifies this
      ensures Consistent(up, rows)
      ensures batches <= |Flagged(old(rows))|
      ensures batchSize > 0 ==> Flagged(rows) == {} && forall k | k in rows :: rows[k].derived == up(rows[k].value)
      ensures batchSize == 0 ==> rows == ApplyAll(up, old(rows), writes(0))
    {
      batches := 0;
      var more := true;
      while more
        invariant Consistent(up, rows)
        invariant batches + |Flagged(rows)| <= |Flagged(old(rows))|
        invariant !more && batchSize > 0 ==> Flagged(rows) == {}
        invariant batchSize == 0 ==> batches == 0 && rows == if more then old(rows) else ApplyAll(up, old(rows), writes(0))
        decreases more, |Flagged(rows)|
      {
        WritesOnlyLower(up, rows, writes(batches));
        SubsetSize(Flagged(ApplyAll(up, rows, writes(batches))), Flagged(rows));
        rows := ApplyAll(up, rows, writes(batches));
        ghost var between := rows;
        more := UpdateAnyBatch();
        SubsetSize(Flagged(rows), Flagged(between));
        if more {
          batches := batches + 1;
        }
      }
      if batchSize > 0 {
        NothingLeft(up, rows);
      }
    }
  }

  lemma NothingLeft<O, N>(up: O -> N, rows: map<int, Record<O, N>>)
    requires Consistent(up, rows) && Flagged(rows) == {}
    ensures forall k | k in rows :: rows[k].derived == up(rows[k].value)
  {
    forall k | k in rows ensures !rows[k].flagged {
      assert k !in Flagged(rows);
    }
  }

  lemma StillNotPassed<O, N>(a: map<int, Record<O, N>>, b: map<int, Record<O, N>>, last: Option<int>)
    requires NotPassed(a, last) && Flagged(b) <= Flagged(a)
    ensures NotPassed(b, last)
  {
    forall k | k in b && b[k].flagged ensures k in a && a[k].flagged {
      assert k in Flagged(b);
    }
  }
}
