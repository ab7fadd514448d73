/**
 * `_combine_triggers`: merging binary event rows (one row per event, one
 * column per sample) into a single trigger channel, each row contributing its
 * event id at its nonzero samples, and refusing when two events share a sample.
 */
module Triggers {
  import opened Wrappers

  /** Every row has `cols` entries: the shape of a 2-D array. */
  predicate Rectangular(data: seq<seq<int>>, cols: nat)
  {
    forall k :: 0 <= k < |data| ==> |data[k]| == cols
  }

  /** `data.astype(bool).sum(axis=0)[j]`: how many rows are nonzero in column j. */
  function ColumnCount(data: seq<seq<int>>, cols: nat, j: nat): (n: nat)
    requires Rectangular(data, cols) && j < cols
    ensures n <= |data|
  {
    if data == [] then 0
    else ColumnCount(data[..|data| - 1], cols, j) + (if data[|data| - 1][j] != 0 then 1 else 0)
  }

  /** Some sample has more than one event. */
  predicate Overlap(data: seq<seq<int>>, cols: nat)
    requires Rectangular(data, cols)
  {
    exists j :: 0 <= j < cols && ColumnCount(data, cols, j) > 1
  }

  /** `.max()` over the first n column counts. */
  function MaxCount(data: seq<seq<int>>, cols: nat, n: nat): (m: nat)
    requires Rectangular(data, cols) && 0 < n <= cols
    ensures forall j :: 0 <= j < n ==> ColumnCount(data, cols, j) <= m
    ensures exists j :: 0 <= j < n && ColumnCount(data, cols, j) == m
  {
    if n == 1 then ColumnCount(data, cols, 0)
    else
      var rest := MaxCount(data, cols, n - 1);
      var c := ColumnCount(data, cols, n - 1);
      if c > rest then c else rest
  }

  /**
   * `np.any(d.nonzero())`: true when the row is nonzero at some column other
   * than 0, since the index tuple `(array([0]),)` counts as false.
   */
  predicate Active(row: seq<int>)
    ensures Active(row) ==> exists j :: 0 <= j < |row| && row[j] != 0
    ensures (exists j :: 0 <= j < |row| && row[j] != 0) && row[0] == 0 ==> Active(row)
    ensures |row| > 0 && (forall j :: 1 <= j < |row| ==> row[j] == 0) ==> !Active(row)
  {
    exists j :: 1 <= j < |row| && row[j] != 0
  }

  /** The value the loop has added to column j after the first k rows of the zip. */
  function Accum(data: seq<seq<int>>, cols: nat, remapping: seq<int>, k: nat, j: nat): int
    requires Rectangular(data, cols) && k <= |data| && k <= |remapping| && j < cols
  {
    if k == 0 then 0
    else Accum(data, cols, remapping, k - 1, j) + (if Active(data[k - 1]) && data[k - 1][j] != 0 then remapping[k - 1] else 0)
  }

  /** `zip(data, remapping)` stops at the shorter of the two. */
  function ZipLength(data: seq<seq<int>>, remapping: seq<int>): (n: nat)
    ensures n <= |data| && n <= |remapping|
    ensures n == |data| || n == |remapping|
  {
    if |data| < |remapping| then |data| else |remapping|
  }

  /** The trigger channel `_combine_triggers` returns when nothing overlaps. */
  function Trigger(data: seq<seq<int>>, cols: nat, remapping: seq<int>): (t: seq<int>)
    requires Rectangular(data, cols)
    ensures |t| == cols
  {
    seq(cols, j requires 0 <= j < cols => Accum(data, cols, remapping, ZipLength(data, remapping), j))
  }

  /**
   * `_combine_triggers(data, remapping)`: ValueError for an array without
   * columns (the maximum of nothing), None when a sample has two events, and
   * otherwise the sum of each event's id over its nonzero samples.
   */
  method CombineTriggers(data: seq<seq<int>>, cols: nat, remapping: seq<int>) returns (r: Result<Option<seq<int>>>)
    requires Rectangular(data, cols)
    ensures cols == 0 ==> r == Err(ValueError)
    ensures cols > 0 ==> r.Ok? && (r.value.None? <==> Overlap(data, cols))
    ensures cols > 0 && !Overlap(data, cols) ==> r == Ok(Some(Trigger(data, cols, remapping)))
  {
    var newTrigger := new int[cols](j => 0);
    if cols == 0 {
      return Err(ValueError);
    }
    var maxCount := MaxCount(data, cols, cols);
    if maxCount > 1 {
      return Ok(None);
    }
    var n := ZipLength(data, remapping);
    for k := 0 to n
      invariant forall j :: 0 <= j < cols ==> newTrigger[j] == Accum(data, cols, remapping, k, j)
    {
      var d := data[k];
      var eventId := remapping[k];
      if Active(d) {
        for j := 0 to cols
          invariant forall i :: 0 <= i < j ==> newTrigger[i] == Accum(data, cols, remapping, k + 1, i)
          invariant forall i :: j <= i < cols ==> newTrigger[i] == Accum(data, cols, remapping, k, i)
        {
          if d[j] != 0 {
            newTrigger[j] := newTrigger[j] + eventId;
          }
        }
      }
    }
    assert forall j :: 0 <= j < cols ==> newTrigger[..][j] == Trigger(data, cols, remapping)[j];
    assert newTrigger[..] == Trigger(data, cols, remapping);
    return Ok(Some(newTrigger[..]));
  }

  /** Two rows nonzero in the same column make its count at least two. */
  lemma {:induction false} TwoRowsCount(data: seq<seq<int>>, cols: nat, j: nat, a: nat, b: nat)
    requires Rectangular(data, cols) && j < cols
    requires a < b < |data| && data[a][j] != 0 && data[b][j] != 0
    ensures ColumnCount(data, cols, j) >= 2
  {
    var init := data[..|data| - 1];
    if b < |data| - 1 {
      TwoRowsCount(init, cols, j, a, b);
    } else {
      OneRowCount(init, cols, j, a);
    }
  }

  lemma {:induction false} OneRowCount(data: seq<seq<int>>, cols: nat, j: nat, a: nat)
    requires Rectangular(data, cols) && j < cols
    requires a < |data| && data[a][j] != 0
    ensures ColumnCount(data, cols, j) >= 1
  {
    if a < |data| - 1 {
      OneRowCount(data[..|data| - 1], cols, j, a);
    }
  }

  /** The accumulated value of a column that only row d (if any) is nonzero in. */
  lemma {:induction false} AccumSingle(data: seq<seq<int>>, cols: nat, remapping: seq<int>, k: nat, j: nat, d: nat)
    requires Rectangular(data, cols) && k <= |data| && k <= |remapping| && j < cols
    requires forall m :: 0 <= m < |data| && m != d ==> data[m][j] == 0
    ensures Accum(data, cols, remapping, k, j) ==
      if d < k && Active(data[d]) && data[d][j] != 0 then remapping[d] else 0
  {
    if k > 0 {
      AccumSingle(data, cols, remapping, k - 1, j, d);
    }
  }

  /**
   * Without overlaps, a column that no row marks stays 0, and a column marked
   * by row d gets `remapping[d]` when d is within the zip and the row is
   * active, and 0 otherwise.
   */
  lemma TriggerValue(data: seq<seq<int>>, cols: nat, remapping: seq<int>, j: nat)
    requires Rectangular(data, cols) && j < cols && !Overlap(data, cols)
    ensures (forall m :: 0 <= m < |data| ==> data[m][j] == 0) ==> Trigger(data, cols, remapping)[j] == 0
    ensures forall d :: 0 <= d < |data| && data[d][j] != 0 ==>
      Trigger(data, cols, remapping)[j] == if d < |remapping| && Active(data[d]) then remapping[d] else 0
  {
    var n := ZipLength(data, remapping);
    if forall m :: 0 <= m < |data| ==> data[m][j] == 0 {
      AccumSingle(data, cols, remapping, n, j, |data|);
    }
    forall d | 0 <= d < |data| && data[d][j] != 0
      ensures Trigger(data, cols, remapping)[j] == if d < |remapping| && Active(data[d]) then remapping[d] else 0
    {
      forall m | 0 <= m < |data| && m != d ensures data[m][j] == 0 {
        if data[m][j] != 0 {
          if m < d {
            TwoRowsCount(data, cols, j, m, d);
          } else {
            TwoRowsCount(data, cols, j, d, m);
          }
        }
      }
      AccumSingle(data, cols, remapping, n, j, d);
    }
  }

  // ----- the row test as evidently intended -----

  /** The value column j gets after the first k rows when every nonzero entry counts. */
  function IntendedAccum(data: seq<seq<int>>, cols: nat, remapping: seq<int>, k: nat, j: nat): int
    requires Rectangular(data, cols) && k <= |data| && k <= |remapping| && j < cols
  {
    if k == 0 then 0
    else IntendedAccum(data, cols, remapping, k - 1, j) + (if data[k - 1][j] != 0 then remapping[k - 1] else 0)
  }

  /** The trigger channel when each event contributes its id at every nonzero sample, column 0 included. */
  function IntendedTrigger(data: seq<seq<int>>, cols: nat, remapping: seq<int>): (t: seq<int>)
    requires Rectangular(data, cols)
    ensures |t| == cols
  {
    seq(cols, j requires 0 <= j < cols => IntendedAccum(data, cols, remapping, ZipLength(data, remapping), j))
  }

  lemma {:induction false} IntendedAccumSingle(data: seq<seq<int>>, cols: nat, remapping: seq<int>, k: nat, j: nat, d: nat)
    requires Rectangular(data, cols) && k <= |data| && k <= |remapping| && j < cols
    requires forall m :: 0 <= m < |data| && m != d ==> data[m][j] == 0
    ensures IntendedAccum(data, cols, remapping, k, j) == if d < k && data[d][j] != 0 then remapping[d] else 0
  {
    if k > 0 {
      IntendedAccumSingle(data, cols, remapping, k - 1, j, d);
    }
  }

  /**
   * Without overlaps, the intended channel holds at each sample the id of
   * the event marking it (0 when the event lies beyond `remapping`), and 0
   * where no event does.
   */
  lemma IntendedTriggerValue(data: seq<seq<int>>, cols: nat, remapping: seq<int>, j: nat)
    requires Rectangular(data, cols) && j < cols && !Overlap(data, cols)
    ensures (forall m :: 0 <= m < |data| ==> data[m][j] == 0) ==> IntendedTrigger(data, cols, remapping)[j] == 0
    ensures forall d :: 0 <= d < |data| && data[d][j] != 0 ==>
      IntendedTrigger(data, cols, remapping)[j] == if d < |remapping| then remapping[d] else 0
  {
    var n := ZipLength(data, remapping);
    if forall m :: 0 <= m < |data| ==> data[m][j] == 0 {
      IntendedAccumSingle(data, cols, remapping, n, j, |data|);
    }
    forall d | 0 <= d < |data| && data[d][j] != 0
      ensures IntendedTrigger(data, cols, remapping)[j] == if d < |remapping| then remapping[d] else 0
    {
      forall m | 0 <= m < |data| && m != d ensures data[m][j] == 0 {
        if data[m][j] != 0 {
          if m < d {
            TwoRowsCount(data, cols, j, m, d);
          } else {
            TwoRowsCount(data, cols, j, d, m);
          }
        }
      }
      IntendedAccumSingle(data, cols, remapping, n, j, d);
    }
  }

  /** Row by row, the two channels differ only at column 0: a row nonzero at some j >= 1 is active. */
  lemma {:induction false} AccumAgreesAfterZero(data: seq<seq<int>>, cols: nat, remapping: seq<int>, k: nat, j: nat)
    requires Rectangular(data, cols) && k <= |data| && k <= |remapping| && 1 <= j < cols
    ensures Accum(data, cols, remapping, k, j) == IntendedAccum(data, cols, remapping, k, j)
  {
    if k > 0 {
      AccumAgreesAfterZero(data, cols, remapping, k - 1, j);
      assert data[k - 1][j] != 0 ==> Active(data[k - 1]);
    }
  }

  /** `_combine_triggers` as written agrees with the intended channel everywhere but at sample 0. */
  lemma TriggerAgreesAfterZero(data: seq<seq<int>>, cols: nat, remapping: seq<int>)
    requires Rectangular(data, cols)
    ensures forall j :: 1 <= j < cols ==> Trigger(data, cols, remapping)[j] == IntendedTrigger(data, cols, remapping)[j]
  {
    forall j | 1 <= j < cols ensures Trigger(data, cols, remapping)[j] == IntendedTrigger(data, cols, remapping)[j] {
      AccumAgreesAfterZero(data, cols, remapping, ZipLength(data, remapping), j);
    }
  }

  /**
   * An event whose only sample is sample 0 is dropped: for the single row
   * [1, 0] with id 5, `d.nonzero()` is `(array([0]),)`, which `np.any`
   * counts as false, so the channel stays [0, 0] instead of [5, 0].
   */
  lemma FirstSampleDropped()
    ensures Rectangular([[1, 0]], 2) && !Overlap([[1, 0]], 2)
    ensures Trigger([[1, 0]], 2, [5]) == [0, 0]
    ensures IntendedTrigger([[1, 0]], 2, [5]) == [5, 0]
  {
    var data := [[1, 0]];
    assert !Active(data[0]);
    assert ColumnCount(data, 2, 0) == 1 && ColumnCount(data, 2, 1) == 0 by {
      assert data[..0] == [];
    }
    assert Trigger(data, 2, [5])[0] == 0;
    assert IntendedTrigger(data, 2, [5])[0] == 5;
  }
}
