/** The index build: one pass over the secondary table's data rows that
    stores each row under its key field, a later row overwriting an earlier
    one with the same key, and counts the rows that have no key field. */
module JoinIndex {
  import opened Types

  /** The index after the rows have been inserted in order: a row with a field
      at `pos` is stored under that field (replacing any earlier row with that
      key); a shorter row is skipped. */
  function IndexOf(rows: seq<Row>, pos: nat): (m: Index)
    ensures forall k :: k in m ==> HasKey(m[k], pos, k)
  {
    if rows == [] then map[]
    else
      var m := IndexOf(rows[..|rows| - 1], pos);
      var last := rows[|rows| - 1];
      if pos < |last| then m[last[pos] := last] else m
  }

  /** Row `i` is the last of `rows` whose field at `pos` is `key`. */
  ghost predicate IsLastWithKey(rows: seq<Row>, pos: nat, key: string, i: int)
  {
    && 0 <= i < |rows|
    && HasKey(rows[i], pos, key)
    && forall j :: i < j < |rows| ==> !HasKey(rows[j], pos, key)
  }

  /** Last write wins: a key is in the index exactly when some row carries it
      at `pos`, and then the index holds the last such row in input order. */
  lemma {:induction false} IndexHoldsLastRow(rows: seq<Row>, pos: nat, key: string)
    ensures key in IndexOf(rows, pos) <==> exists i :: 0 <= i < |rows| && HasKey(rows[i], pos, key)
    ensures key in IndexOf(rows, pos) ==>
              exists i :: IsLastWithKey(rows, pos, key, i) && IndexOf(rows, pos)[key] == rows[i]
  {
    if rows != [] {
      var init := rows[..|rows| - 1];
      var n := |rows| - 1;
      IndexHoldsLastRow(init, pos, key);
      if HasKey(rows[n], pos, key) {
        assert IsLastWithKey(rows, pos, key, n);
      } else {
        assert forall i :: 0 <= i < n ==> rows[i] == init[i];
        if key in IndexOf(init, pos) {
          var i :| IsLastWithKey(init, pos, key, i) && IndexOf(init, pos)[key] == init[i];
          assert IsLastWithKey(rows, pos, key, i);
        }
      }
    }
  }

  /** The rows whose keys are pairwise different (short rows aside). */
  ghost predicate DistinctKeys(rows: seq<Row>, pos: nat)
  {
    forall i, j :: 0 <= i < j < |rows| && pos < |rows[i]| && pos < |rows[j]| ==> rows[i][pos] != rows[j][pos]
  }

  /** The index holds at most one entry per keyed row, and exactly one per
      keyed row when no two rows share a key. */
  lemma {:induction false} IndexSize(rows: seq<Row>, pos: nat)
    ensures |IndexOf(rows, pos)| <= |rows| - ShortCount(rows, pos)
    ensures DistinctKeys(rows, pos) ==> |IndexOf(rows, pos)| == |rows| - ShortCount(rows, pos)
  {
    if rows != [] {
      var init := rows[..|rows| - 1];
      var last := rows[|rows| - 1];
      var m := IndexOf(init, pos);
      IndexSize(init, pos);
      if pos < |last| {
        var k := last[pos];
        assert m[k := last].Keys == m.Keys + {k};
        if k in m {
          assert m.Keys + {k} == m.Keys;
        } else {
          assert |m.Keys + {k}| == |m.Keys| + 1;
        }
        if DistinctKeys(rows, pos) {
          // no earlier row carries the last row's key, so it is new to the index
          forall i | 0 <= i < |init|
            ensures !HasKey(init[i], pos, k)
          {
            assert init[i] == rows[i];
          }
          IndexHoldsLastRow(init, pos, k);
        }
      }
    }
  }

  /** Walks the secondary rows in order: counts every row, stores a row that
      has a field at `joinIndex` under that field, and counts a row that has
      none as failed without storing it. */
  method BuildIndex(rows: seq<Row>, joinIndex: nat) returns (index: Index, total: nat, failed: nat)
    ensures index == IndexOf(rows, joinIndex)
    ensures total == |rows|
    ensures failed == ShortCount(rows, joinIndex)
    ensures forall k :: k in index ==> joinIndex < |index[k]| && index[k][joinIndex] == k
  {
    index := map[];
    total, failed := 0, 0;
    for i := 0 to |rows|
      invariant index == IndexOf(rows[..i], joinIndex)
      invariant total == i
      invariant failed == ShortCount(rows[..i], joinIndex)
    {
      assert rows[..i + 1][..i] == rows[..i];
      total := total + 1;
      var record := rows[i];
      if joinIndex < |record| {
        index := index[record[joinIndex] := record];
      } else {
        failed := failed + 1;
      }
    }
    assert rows[..|rows|] == rows;
  }
}
