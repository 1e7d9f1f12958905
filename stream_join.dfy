/** The stream join: one pass over the primary table's data rows that looks
    each row's key up in the index and emits the merged row on a hit. */
module Streaming {
  import opened Types
  import opened RowMerge

  /** What one primary row comes to: too short to hold the key field, a key
      the index does not hold, or a hit with the merged row to emit. */
  datatype Probe = Short | Miss | Hit(merged: Row)

  /** The handling of one primary row. */
  function ProbeRow(row: Row, fromIndex: nat, index: Index, joinIndex: nat): Probe
  {
    if |row| <= fromIndex then Short
    else if row[fromIndex] in index then Hit(Merge(row, index[row[fromIndex]], joinIndex))
    else Miss
  }

  /** The primary row has a key field and the index holds a row under it. */
  predicate Matches(row: Row, fromIndex: nat, index: Index)
  {
    fromIndex < |row| && row[fromIndex] in index
  }

  /** The rows emitted for `rows`, in primary order. */
  function JoinedRows(rows: seq<Row>, fromIndex: nat, index: Index, joinIndex: nat): seq<Row>
  {
    if rows == [] then []
    else
      var p := ProbeRow(rows[|rows| - 1], fromIndex, index, joinIndex);
      JoinedRows(rows[..|rows| - 1], fromIndex, index, joinIndex) + (if p.Hit? then [p.merged] else [])
  }

  /** The number of primary rows that have a key field the index does not hold. */
  function MissCount(rows: seq<Row>, fromIndex: nat, index: Index): nat
  {
    if rows == [] then 0
    else
      var last := rows[|rows| - 1];
      MissCount(rows[..|rows| - 1], fromIndex, index) + (if fromIndex < |last| && last[fromIndex] !in index then 1 else 0)
  }

  /** The join streams: the output for two consecutive runs of primary rows is
      the output for the first followed by the output for the second. */
  lemma {:induction false} JoinedRowsAppend(a: seq<Row>, b: seq<Row>, fromIndex: nat, index: Index, joinIndex: nat)
    ensures JoinedRows(a + b, fromIndex, index, joinIndex)
         == JoinedRows(a, fromIndex, index, joinIndex) + JoinedRows(b, fromIndex, index, joinIndex)
  {
    if b != [] {
      var b' := b[..|b| - 1];
      assert (a + b)[..|a + b| - 1] == a + b';
      JoinedRowsAppend(a, b', fromIndex, index, joinIndex);
    } else {
      assert a + b == a;
    }
  }

  /** Every emitted row is the merge of some matching primary row with the
      row the index holds under its key, and every matching primary row
      contributes its merged row. */
  lemma {:induction false} JoinedRowsSoundAndComplete(rows: seq<Row>, fromIndex: nat, index: Index, joinIndex: nat)
    ensures forall o :: o in JoinedRows(rows, fromIndex, index, joinIndex) ==>
              exists i :: 0 <= i < |rows| && Matches(rows[i], fromIndex, index)
                          && o == Merge(rows[i], index[rows[i][fromIndex]], joinIndex)
    ensures forall i :: 0 <= i < |rows| && Matches(rows[i], fromIndex, index) ==>
              Merge(rows[i], index[rows[i][fromIndex]], joinIndex) in JoinedRows(rows, fromIndex, index, joinIndex)
  {
    if rows != [] {
      var init := rows[..|rows| - 1];
      var n := |rows| - 1;
      JoinedRowsSoundAndComplete(init, fromIndex, index, joinIndex);
      assert forall i :: 0 <= i < n ==> rows[i] == init[i];
    }
  }

  /** Every primary row is counted exactly once: as emitted, as a miss, or as
      too short to hold the key. */
  lemma {:induction false} CountsPartition(rows: seq<Row>, fromIndex: nat, index: Index, joinIndex: nat)
    ensures |JoinedRows(rows, fromIndex, index, joinIndex)| + MissCount(rows, fromIndex, index)
            + ShortCount(rows, fromIndex) == |rows|
  {
    if rows != [] {
      CountsPartition(rows[..|rows| - 1], fromIndex, index, joinIndex);
    }
  }

  /** Walks the primary rows in order: counts every row; for a row with a key
      field, emits the merged row and counts a match when the index holds the
      key, and counts a miss otherwise; a row without a key field is only
      counted in the total. */
  method StreamJoin(rows: seq<Row>, fromIndex: nat, index: Index, joinIndex: nat)
    returns (output: seq<Row>, total: nat, matched: nat, noKey: nat)
    ensures output == JoinedRows(rows, fromIndex, index, joinIndex)
    ensures total == |rows|
    ensures matched == |output|
    ensures noKey == MissCount(rows, fromIndex, index)
    ensures matched + noKey + ShortCount(rows, fromIndex) == total
  {
    output := [];
    total, matched, noKey := 0, 0, 0;
    for i := 0 to |rows|
      invariant output == JoinedRows(rows[..i], fromIndex, index, joinIndex)
      invariant total == i
      invariant matched == |output|
      invariant noKey == MissCount(rows[..i], fromIndex, index)
      invariant matched + noKey + ShortCount(rows[..i], fromIndex) == total
    {
      assert rows[..i + 1][..i] == rows[..i];
      total := total + 1;
      var record := rows[i];
      if fromIndex < |record| {
        var key := record[fromIndex];
        if key in index {
          matched := matched + 1;
          var row := JoinRows(record, index[key], joinIndex);
          output := output + [row];
        } else {
          noKey := noKey + 1;
        }
      }
    }
    assert rows[..|rows|] == rows;
  }
}
