/** Header resolution: where the join key sits in a table's header row. */
module KeyLookup {
  import opened Types

  /** The failure of a header lookup; it names the key and the whole header. */
  datatype KeyError = KeyNotFound(key: string, headers: Row)

  /** The scan over `headers` from position `start` on: the first position
      whose field is exactly `key`, or None when no later field is. */
  function SearchFrom(headers: Row, key: string, start: nat): (r: Option<nat>)
    requires start <= |headers|
    ensures r.Some? ==> start <= r.value < |headers| && headers[r.value] == key
    ensures r.Some? ==> forall i :: start <= i < r.value ==> headers[i] != key
    ensures r.None? <==> forall i :: start <= i < |headers| ==> headers[i] != key
    decreases |headers| - start
  {
    if start == |headers| then None
    else if headers[start] == key then Some(start)
    else SearchFrom(headers, key, start + 1)
  }

  /** The zero-based position of the first header field equal to `key`
      (exact, case-sensitive comparison); KeyNotFound when there is none. */
  function FindKeyPosition(headers: Row, key: string): (r: Result<nat, KeyError>)
    ensures r.Success? ==> r.value < |headers| && headers[r.value] == key
    ensures r.Success? ==> forall i :: 0 <= i < r.value ==> headers[i] != key
    ensures r.Failure? <==> key !in headers
    ensures r.Failure? ==> r.error == KeyNotFound(key, headers)
  {
    match SearchFrom(headers, key, 0)
    case Some(i) => Success(i)
    case None => Failure(KeyNotFound(key, headers))
  }
}
