/** The whole join run without its command line, progress output, timing and
    file handling: resolve the key in both headers, merge the headers, build
    the index from the secondary rows, then stream the primary rows. */
module Pipeline {
  import opened Types
  import opened KeyLookup
  import opened RowMerge
  import opened JoinIndex
  import opened Streaming

  /** What a successful run produces: the key's position in each header, the
      rows written to the output (header first) and the counters the run
      reports. */
  datatype Report = Report(
    fromKeyIndex: nat,
    joinKeyIndex: nat,
    output: seq<Row>,
    joinRecords: nat,
    joinFailedRecords: nat,
    fromRecords: nat,
    outputRecords: nat,
    noKeyInJoin: nat)

  /** Runs the join of `fromRows` (under header `fromHeaders`) with `joinRows`
      (under header `joinHeaders`) on the column named `key`. */
  method Join(fromHeaders: Row, joinHeaders: Row, key: string, fromRows: seq<Row>, joinRows: seq<Row>)
    returns (r: Result<Report, KeyError>)
    ensures r.Failure? <==> key !in fromHeaders || key !in joinHeaders
    ensures key !in fromHeaders ==> r == Failure(KeyNotFound(key, fromHeaders))
    ensures key in fromHeaders && key !in joinHeaders ==> r == Failure(KeyNotFound(key, joinHeaders))
    ensures r.Success? ==> FindKeyPosition(fromHeaders, key).Success? && FindKeyPosition(fromHeaders, key).value == r.value.fromKeyIndex
    ensures r.Success? ==> FindKeyPosition(joinHeaders, key).Success? && FindKeyPosition(joinHeaders, key).value == r.value.joinKeyIndex
    ensures r.Success? ==>
              r.value.output == [Merge(fromHeaders, joinHeaders, r.value.joinKeyIndex)]
                + JoinedRows(fromRows, r.value.fromKeyIndex, IndexOf(joinRows, r.value.joinKeyIndex), r.value.joinKeyIndex)
    ensures r.Success? ==> r.value.joinRecords == |joinRows|
    ensures r.Success? ==> r.value.joinFailedRecords == ShortCount(joinRows, r.value.joinKeyIndex)
    ensures r.Success? ==> r.value.fromRecords == |fromRows|
    ensures r.Success? ==> r.value.outputRecords == |r.value.output| - 1
    ensures r.Success? ==> r.value.noKeyInJoin == MissCount(fromRows, r.value.fromKeyIndex, IndexOf(joinRows, r.value.joinKeyIndex))
    ensures r.Success? ==>
              r.value.outputRecords + r.value.noKeyInJoin + ShortCount(fromRows, r.value.fromKeyIndex) == r.value.fromRecords
  {
    var from := FindKeyPosition(fromHeaders, key);
    if from.Failure? {
      r := Failure(from.error);
    } else {
      var join := FindKeyPosition(joinHeaders, key);
      if join.Failure? {
        r := Failure(join.error);
      } else {
        var fromIndex, joinIndex := from.value, join.value;
        var headers := JoinRows(fromHeaders, joinHeaders, joinIndex);
        var index, joinRecords, joinFailed := BuildIndex(joinRows, joinIndex);
        var written := [headers];
        var rows, fromRecords, outputRecords, noKeyInJoin := StreamJoin(fromRows, fromIndex, index, joinIndex);
        written := written + rows;
        r := Success(Report(fromIndex, joinIndex, written, joinRecords, joinFailed, fromRecords, outputRecords, noKeyInJoin));
      }
    }
  }

  /** The output header is the primary header followed by the secondary header
      without its key column, so it has one column fewer than the two together;
      when the secondary header names each column once, the key name no longer
      appears after the primary columns. */
  lemma OutputHeaderShape(fromHeaders: Row, joinHeaders: Row, key: string)
    requires key in joinHeaders
    ensures Merge(fromHeaders, joinHeaders, FindKeyPosition(joinHeaders, key).value)[..|fromHeaders|] == fromHeaders
    ensures |Merge(fromHeaders, joinHeaders, FindKeyPosition(joinHeaders, key).value)| == |fromHeaders| + |joinHeaders| - 1
    ensures (forall i, j :: 0 <= i < j < |joinHeaders| ==> joinHeaders[i] != joinHeaders[j]) ==>
              key !in Merge(fromHeaders, joinHeaders, FindKeyPosition(joinHeaders, key).value)[|fromHeaders|..]
  {
    var joinIndex := FindKeyPosition(joinHeaders, key).value;
    MergeFields(fromHeaders, joinHeaders, joinIndex);
    WithoutIsSliceRemoval(joinHeaders, joinIndex);
    assert Merge(fromHeaders, joinHeaders, joinIndex)[|fromHeaders|..] == Without(joinHeaders, joinIndex);
  }

  /** Inner join with last write wins: a primary row with a key field meets a
      miss exactly when no secondary row carries its key, and otherwise is
      merged with the LAST secondary row carrying it, the result having one
      field fewer than the two rows together. */
  lemma {:induction false} MatchUsesLastSecondaryRow(row: Row, fromIndex: nat, secondary: seq<Row>, joinIndex: nat)
    requires fromIndex < |row|
    ensures ProbeRow(row, fromIndex, IndexOf(secondary, joinIndex), joinIndex).Miss?
            <==> forall i :: 0 <= i < |secondary| ==> !HasKey(secondary[i], joinIndex, row[fromIndex])
    ensures forall i :: IsLastWithKey(secondary, joinIndex, row[fromIndex], i) ==>
              && ProbeRow(row, fromIndex, IndexOf(secondary, joinIndex), joinIndex) == Hit(Merge(row, secondary[i], joinIndex))
              && |Merge(row, secondary[i], joinIndex)| == |row| + |secondary[i]| - 1
  {
    var key := row[fromIndex];
    IndexHoldsLastRow(secondary, joinIndex, key);
    forall i | IsLastWithKey(secondary, joinIndex, key, i)
      ensures ProbeRow(row, fromIndex, IndexOf(secondary, joinIndex), joinIndex) == Hit(Merge(row, secondary[i], joinIndex))
      ensures |Merge(row, secondary[i], joinIndex)| == |row| + |secondary[i]| - 1
    {
      var i' :| IsLastWithKey(secondary, joinIndex, key, i') && IndexOf(secondary, joinIndex)[key] == secondary[i'];
      assert i == i';
      MergeFields(row, secondary[i], joinIndex);
    }
  }

  /** Every emitted row has as many fields as its primary row and its
      secondary row together, less the one key column left out. */
  lemma EmittedRowWidth(fromRows: seq<Row>, fromIndex: nat, secondary: seq<Row>, joinIndex: nat)
    ensures forall o :: o in JoinedRows(fromRows, fromIndex, IndexOf(secondary, joinIndex), joinIndex) ==>
              exists i, j :: 0 <= i < |fromRows| && 0 <= j < |secondary|
                          && |o| == |fromRows[i]| + |secondary[j]| - 1
  {
    var index := IndexOf(secondary, joinIndex);
    JoinedRowsSoundAndComplete(fromRows, fromIndex, index, joinIndex);
    forall o | o in JoinedRows(fromRows, fromIndex, index, joinIndex)
      ensures exists i, j :: 0 <= i < |fromRows| && 0 <= j < |secondary|
                          && |o| == |fromRows[i]| + |secondary[j]| - 1
    {
      var i :| 0 <= i < |fromRows| && Matches(fromRows[i], fromIndex, index)
               && o == Merge(fromRows[i], index[fromRows[i][fromIndex]], joinIndex);
      var key := fromRows[i][fromIndex];
      IndexHoldsLastRow(secondary, joinIndex, key);
      var j :| IsLastWithKey(secondary, joinIndex, key, j) && index[key] == secondary[j];
      MergeFields(fromRows[i], secondary[j], joinIndex);
    }
  }

  /** Two primary rows, a secondary table holding the key of the first only:
      the first is merged, the second is counted as a miss. */
  lemma ScenarioOneMatchOneMiss()
    ensures
      var secondary := [["1", "30"]];
      var primary := [["1", "Alice"], ["3", "Carol"]];
      var index := IndexOf(secondary, 0);
      && Merge(["id", "name"], ["id", "age"], 0) == ["id", "name", "age"]
      && JoinedRows(primary, 0, index, 0) == [["1", "Alice", "30"]]
      && MissCount(primary, 0, index) == 1
  {
    var secondary := [["1", "30"]];
    var primary := [["1", "Alice"], ["3", "Carol"]];
    assert secondary[..0] == [];
    assert IndexOf(secondary, 0) == map["1" := ["1", "30"]];
    assert ["id", "age"][..1] == ["id"] && ["id"][..0] == [];
    assert ["1", "30"][..1] == ["1"] && ["1"][..0] == [];
    assert Without(["id", "age"], 0) == ["age"];
    assert Without(["1", "30"], 0) == ["30"];
    assert primary[..1] == [["1", "Alice"]] && primary[..1][..0] == [];
    assert ProbeRow(["1", "Alice"], 0, IndexOf(secondary, 0), 0) == Hit(["1", "Alice", "30"]);
    assert JoinedRows(primary[..1], 0, IndexOf(secondary, 0), 0) == [["1", "Alice", "30"]];
    assert ProbeRow(["3", "Carol"], 0, IndexOf(secondary, 0), 0) == Miss;
    assert MissCount(primary[..1], 0, IndexOf(secondary, 0)) == 0;
  }

  /** A key repeated in the secondary table: the later row is the one used. */
  lemma ScenarioDuplicateKey()
    ensures
      var index := IndexOf([["1", "30"], ["1", "31"]], 0);
      JoinedRows([["1", "Alice"]], 0, index, 0) == [["1", "Alice", "31"]]
  {
    var secondary := [["1", "30"], ["1", "31"]];
    assert secondary[..1] == [["1", "30"]] && secondary[..1][..0] == [];
    assert IndexOf(secondary, 0) == map["1" := ["1", "31"]];
    assert ["1", "31"][..1] == ["1"] && ["1"][..0] == [];
    assert Without(["1", "31"], 0) == ["31"];
    assert [["1", "Alice"]][..0] == [];
    assert ProbeRow(["1", "Alice"], 0, IndexOf(secondary, 0), 0) == Hit(["1", "Alice", "31"]);
  }
}
