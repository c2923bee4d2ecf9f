/**
  What a route handler answers, and Python's list slicing, which the list handlers
  apply to a full scan.
*/
module Http {
  import opened Repositories

  /**
    A handler's answer: the response body, a 404 with its detail, a 422 from query
    validation before the handler runs, or an unhandled exception (a 500).
  */
  datatype Response<T> = Ok(value: T) | NotFound(detail: string) | Unprocessable | Error(fault: Fault)

  function Min(a: int, b: int): int { if a <= b then a else b }
  function Max(a: int, b: int): int { if a <= b then b else a }

  /** A slice bound resolved against length n: negative counts from the end, then clipped to [0, n]. */
  function ClampIndex(x: int, n: nat): (c: nat)
    ensures c <= n
    ensures 0 <= x <= n ==> c == x
    ensures x > n ==> c == n
    ensures x < 0 ==> c == Max(0, x + n)
  {
    if x < 0 then (if x + n < 0 then 0 else x + n)
    else if x > n then n
    else x
  }

  /** Python's `xs[start:stop]` with step 1: never fails, empty when the bounds cross. */
  function PySlice<T>(xs: seq<T>, start: int, stop: int): (r: seq<T>)
    ensures |r| <= |xs|
  {
    var s := ClampIndex(start, |xs|);
    var e := ClampIndex(stop, |xs|);
    if s < e then xs[s..e] else []
  }

  /**
    Reference description of a page: at most `limit` consecutive items starting at
    position `skip`, and nothing when `skip` is past the end.
  */
  function Window<T>(xs: seq<T>, skip: nat, limit: nat): (w: seq<T>)
    ensures |w| == Min(limit, Max(0, |xs| - skip))
    ensures forall k :: 0 <= k < |w| ==> w[k] == xs[skip + k]
  {
    seq(Min(limit, Max(0, |xs| - skip)), k requires 0 <= k < Min(limit, Max(0, |xs| - skip)) => xs[skip + k])
  }

  /** For non-negative skip and limit, `xs[skip:skip + limit]` is the page starting at skip. */
  lemma PySliceIsWindow<T>(xs: seq<T>, skip: int, limit: int)
    requires skip >= 0 && limit >= 0
    ensures PySlice(xs, skip, skip + limit) == Window(xs, skip, limit)
  {
    var w := Window(xs, skip, limit);
    var r := PySlice(xs, skip, skip + limit);
    assert |r| == |w|;
    forall k | 0 <= k < |r|
      ensures r[k] == w[k]
    {
    }
  }

  /**
    Whatever the bounds, a slice is the run of consecutive items that starts at the
    resolved start bound, so it holds only items of the list, in list order.
  */
  lemma PySliceIsRun<T>(xs: seq<T>, start: int, stop: int)
    ensures forall k :: 0 <= k < |PySlice(xs, start, stop)| ==>
              ClampIndex(start, |xs|) + k < |xs| && PySlice(xs, start, stop)[k] == xs[ClampIndex(start, |xs|) + k]
    ensures forall x :: x in PySlice(xs, start, stop) ==> x in xs
  {
    var r := PySlice(xs, start, stop);
    var s := ClampIndex(start, |xs|);
    forall x | x in r
      ensures x in xs
    {
      var k :| 0 <= k < |r| && r[k] == x;
      assert xs[s + k] == x;
    }
  }

  /**
    A negative skip counts from the end: with skip = -m (0 < m <= |xs|) and a limit
    reaching past the end, the page is the last m items.
  */
  lemma NegativeSkipTakesTail<T>(xs: seq<T>, m: int, limit: int)
    requires 0 < m <= |xs| && limit >= |xs| + m
    ensures PySlice(xs, -m, -m + limit) == xs[|xs| - m..]
  {
  }
}
