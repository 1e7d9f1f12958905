/** Values shared by every part of the join: rows of string fields, the
    in-memory index of the secondary table, and the failure-carrying wrappers. */
module Types {

  /** One record of a delimited-text table: its fields, in column order. */
  type Row = seq<string>

  /** The index of the secondary table: key value to the row stored under it. */
  type Index = map<string, Row>

  datatype Option<+T> = None | Some(value: T)

  datatype Result<+T, +E> = Success(value: T) | Failure(error: E)

  /** `row` has a field at position `pos`, and that field is `key`. */
  predicate HasKey(row: Row, pos: nat, key: string) {
    pos < |row| && row[pos] == key
  }

  /** The number of rows too short to hold a field at position `pos`. */
  function ShortCount(rows: seq<Row>, pos: nat): (n: nat)
    ensures n <= |rows|
    ensures n == 0 <==> forall i :: 0 <= i < |rows| ==> pos < |rows[i]|
  {
    if rows == [] then 0
    else ShortCount(rows[..|rows| - 1], pos) + (if pos < |rows[|rows| - 1]| then 0 else 1)
  }
}
