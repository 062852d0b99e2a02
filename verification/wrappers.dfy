/** Optional values, error-carrying results, and the first-success fallback
    combinator that the detail extractor's rule chains are built from. */
module Wrappers {

  /** A value that may be missing: `null` in the scraper, or "pattern did not match". */
  datatype Option<+T> = None | Some(value: T)

  /** Either a value or the message of the error that was thrown instead. */
  datatype Result<+T, +E> = Success(value: T) | Failure(error: E)

  /** Tries `rules` in list order on the same input and returns the answer of
      the first rule that produces one; later rules are not consulted. */
  function FirstSuccess<A, T>(rules: seq<A -> Option<T>>, x: A): (r: Option<T>)
    ensures r.Some? ==>
      exists i :: 0 <= i < |rules| && rules[i](x) == r && forall j :: 0 <= j < i ==> rules[j](x).None?
    ensures r.None? ==> forall i :: 0 <= i < |rules| ==> rules[i](x).None?
    decreases |rules|
  {
    if |rules| == 0 then None
    else if rules[0](x).Some? then rules[0](x)
    else
      var r := FirstSuccess(rules[1..], x);
      assert forall i :: 1 <= i < |rules| ==> rules[i] == rules[1..][i - 1];
      r
  }
}
