/**
 * `inputData` (main.py, and the same function in the notebook script):
 * pages through the remote dataset `limit` rows at a time until a page comes
 * back with a row count other than `limit`.
 *
 * The remote endpoint is modelled as a function from the filter clause to the
 * full, date-ordered result set of that query; the page at offset `o` is the
 * slice of that result set starting at `o`, at most `limit` rows long.
 */
module Paginator {
  import opened Collections

  /** The fixed part of the date filter clause. */
  const WhereClause := "&$where=inspection_date"

  /** The filter clause appended to every request URL. */
  function StartFilter(startDate: string, condition: string): (f: string)
    ensures f == "" <==> startDate == ""
    ensures startDate != "" ==> f == WhereClause + condition + "'" + startDate + "'"
  {
    if startDate != "" then WhereClause + condition + "'" + startDate + "'" else startDate
  }

  /** The rows not yet fetched when the next request is at `offset`. */
  function Remaining<T>(data: seq<T>, offset: nat): nat {
    if offset < |data| then |data| - offset else 0
  }

  /** The rows one request at `offset` returns: what remains, cut at `limit`. */
  function Page<T>(data: seq<T>, offset: nat, limit: nat): (p: seq<T>)
    ensures |p| == if Remaining(data, offset) < limit then Remaining(data, offset) else limit
    ensures offset + limit <= |data| ==> p == data[offset..offset + limit]
    ensures offset >= |data| ==> p == []
  {
    var lo := if offset < |data| then offset else |data|;
    var hi := if offset + limit < |data| then offset + limit else |data|;
    data[lo..hi]
  }

  lemma MulAtLeast(a: int, l: int)
    requires a >= 1 && l > 0
    ensures a * l >= l
  {
  }

  /** Euclidean division has one quotient. */
  lemma DivUnique(x: int, l: int, q: int, m: int)
    requires l > 0 && 0 <= m < l && x == q * l + m
    ensures x / l == q
  {
    var q', m' := x / l, x % l;
    assert (q - q') * l == m' - m;
    if q > q' { MulAtLeast(q - q', l); }
    if q' > q { MulAtLeast(q' - q, l); }
  }

  lemma DivStep(r: nat, l: nat)
    requires l > 0
    ensures (r + l) / l == r / l + 1
    ensures r < l ==> r / l == 0
  {
    DivUnique(r + l, l, r / l + 1, r % l);
    if r < l { DivUnique(r, l, 0, r); }
  }

  lemma MulStep(k: nat, l: nat)
    requires k > 0
    ensures (k - 1) * l + l == k * l
  {
  }

  /**
   * The pages the loop fetches, starting at `offset`: each page, and after a
   * page of exactly `limit` rows, the pages from the next offset on.
   */
  function Pages<T>(data: seq<T>, offset: nat, limit: nat): (ps: seq<seq<T>>)
    requires limit > 0
    ensures |ps| >= 1 && ps[0] == Page(data, offset, limit)
    decreases |data| - offset
  {
    var page := Page(data, offset, limit);
    if |page| == limit then [page] + Pages(data, offset + limit, limit) else [page]
  }

  /** The fetched pages together are exactly the rows from `offset` on, in order. */
  lemma {:induction false} PagesCoverRest<T>(data: seq<T>, offset: nat, limit: nat)
    requires limit > 0
    ensures Flatten(Pages(data, offset, limit)) == data[|data| - Remaining(data, offset)..]
    decreases |data| - offset
  {
    var page := Page(data, offset, limit);
    PagesUnfold(data, offset, limit);
    if |page| == limit {
      PagesCoverRest(data, offset + limit, limit);
      FullPageThenRest(data, offset, limit);
    } else {
      assert page == data[|data| - Remaining(data, offset)..];
    }
  }

  /** A full page is followed by what remains after it. */
  lemma FullPageThenRest<T>(data: seq<T>, offset: nat, limit: nat)
    requires limit > 0 && |Page(data, offset, limit)| == limit
    ensures data[|data| - Remaining(data, offset)..]
         == Page(data, offset, limit) + data[|data| - Remaining(data, offset + limit)..]
  {
    assert offset + limit <= |data|;
    assert data[offset..] == data[offset..offset + limit] + data[offset + limit..];
  }

  /**
   * The number of requests: one per full page of what remains, plus the final
   * short (possibly empty) one.
   */
  lemma {:induction false} RequestCount<T>(data: seq<T>, offset: nat, limit: nat)
    requires limit > 0
    ensures |Pages(data, offset, limit)| == Remaining(data, offset) / limit + 1
    decreases |data| - offset
  {
    var page := Page(data, offset, limit);
    if |page| == limit {
      RequestCount(data, offset + limit, limit);
      assert Remaining(data, offset) == Remaining(data, offset + limit) + limit;
      DivStep(Remaining(data, offset + limit), limit);
    } else {
      assert Remaining(data, offset) < limit;
      DivStep(Remaining(data, offset), limit);
    }
  }

  /**
   * The k-th request (from 0) is at `offset + k * limit`; every page before the
   * last is full and the last is not.
   */
  lemma {:induction false} PageShape<T>(data: seq<T>, offset: nat, limit: nat, k: nat)
    requires limit > 0 && k < |Pages(data, offset, limit)|
    ensures Pages(data, offset, limit)[k] == Page(data, offset + k * limit, limit)
    ensures k < |Pages(data, offset, limit)| - 1 <==> |Pages(data, offset, limit)[k]| == limit
    decreases |data| - offset
  {
    var page := Page(data, offset, limit);
    if k > 0 {
      assert |page| == limit;
      PageShape(data, offset + limit, limit, k - 1);
      MulStep(k, limit);
    }
  }

  /**
   * A result set whose size past `offset` is an exact multiple of `limit`
   * costs one extra request, which comes back empty.
   */
  lemma ExactMultipleEndsEmpty<T>(data: seq<T>, offset: nat, limit: nat, m: nat)
    requires limit > 0 && offset <= |data| && |data| - offset == m * limit
    ensures |Pages(data, offset, limit)| == m + 1
    ensures Pages(data, offset, limit)[m] == []
  {
    RequestCount(data, offset, limit);
    DivUnique(m * limit, limit, m, 0);
    PageShape(data, offset, limit, m);
    assert offset + m * limit == |data|;
  }

  /** With `limit` 0 every page is empty, so its row count always equals `limit`: the loop never stops. */
  lemma ZeroLimitNeverStops<T>(data: seq<T>, offset: nat)
    ensures |Page(data, offset, 0)| == 0
  {
  }

  /** 130 rows at 50 a time: three requests of 50, 50 and 30 rows. */
  lemma ThreePages<T>(data: seq<T>)
    requires |data| == 130
    ensures |Pages(data, 0, 50)| == 3
    ensures |Pages(data, 0, 50)[0]| == 50 && |Pages(data, 0, 50)[1]| == 50 && |Pages(data, 0, 50)[2]| == 30
    ensures Flatten(Pages(data, 0, 50)) == data
  {
    RequestCount(data, 0, 50);
    PageShape(data, 0, 50, 0);
    PageShape(data, 0, 50, 1);
    PageShape(data, 0, 50, 2);
    PagesCoverRest(data, 0, 50);
  }

  /**
   * The pagination loop. `requested` is the offset of each request, in order.
   * `limit` must be positive: with 0 the loop never ends.
   */
  method InputData<T>(endpoint: string -> seq<T>, limit: nat, offset: nat, startDate: string, condition: string)
    returns (df: seq<T>, requested: seq<nat>)
    requires limit > 0
    ensures df == Flatten(Pages(endpoint(StartFilter(startDate, condition)), offset, limit))
    ensures |requested| == |Pages(endpoint(StartFilter(startDate, condition)), offset, limit)|
    ensures forall k :: 0 <= k < |requested| ==> requested[k] == offset + k * limit
  {
    var data := endpoint(StartFilter(startDate, condition));
    df, requested := [], [];
    var off := offset;
    var counter := 1;
    var rows := limit;
    while limit == rows
      invariant off == offset + |requested| * limit
      invariant counter == |requested| + 1
      invariant requested == Offsets(offset, limit, |requested|)
      invariant rows == limit ==> Fetching(data, offset, limit, off, df, |requested|)
      invariant rows != limit ==> Fetched(data, offset, limit, df, |requested|)
      decreases rows == limit, |data| - off
    {
      var page := Page(data, off, limit);
      LoopStep(data, offset, limit, off, df, |requested|);
      OffsetsSnoc(offset, limit, |requested|);
      requested := requested + [off];
      rows := |page|;
      off := off + limit;
      df := df + page;
      counter := counter + 1;
    }
  }

  /** While fetching: the rows so far and the pages still to come make up all the pages. */
  ghost predicate Fetching<T>(data: seq<T>, offset: nat, limit: nat, off: nat, df: seq<T>, n: nat)
    requires limit > 0
  {
    n + |Pages(data, off, limit)| == |Pages(data, offset, limit)|
    && df + Flatten(Pages(data, off, limit)) == Flatten(Pages(data, offset, limit))
  }

  /** After the last page: every page was requested and the rows are all the pages. */
  ghost predicate Fetched<T>(data: seq<T>, offset: nat, limit: nat, df: seq<T>, n: nat)
    requires limit > 0
  {
    n == |Pages(data, offset, limit)| && df == Flatten(Pages(data, offset, limit))
  }

  /** The loop invariant carried over one request. */
  lemma LoopStep<T>(data: seq<T>, offset: nat, limit: nat, off: nat, df: seq<T>, n: nat)
    requires limit > 0 && off == offset + n * limit
    requires Fetching(data, offset, limit, off, df, n)
    ensures off + limit == offset + (n + 1) * limit
    ensures |Page(data, off, limit)| == limit ==>
      off < |data| && Fetching(data, offset, limit, off + limit, df + Page(data, off, limit), n + 1)
    ensures |Page(data, off, limit)| != limit ==> Fetched(data, offset, limit, df + Page(data, off, limit), n + 1)
  {
    PagesUnfold(data, off, limit);
    MulStep(n + 1, limit);
    var page := Page(data, off, limit);
    if |page| == limit {
      assert df + Flatten(Pages(data, off, limit)) == (df + page) + Flatten(Pages(data, off + limit, limit));
    }
  }

  /** One iteration's worth of `Pages`. */
  lemma PagesUnfold<T>(data: seq<T>, offset: nat, limit: nat)
    requires limit > 0
    ensures var page := Page(data, offset, limit);
      |page| == limit ==>
        (offset < |data|
         && |Pages(data, offset, limit)| == 1 + |Pages(data, offset + limit, limit)|
         && Flatten(Pages(data, offset, limit)) == page + Flatten(Pages(data, offset + limit, limit)))
    ensures var page := Page(data, offset, limit);
      |page| != limit ==> |Pages(data, offset, limit)| == 1 && Flatten(Pages(data, offset, limit)) == page
  {
    var page := Page(data, offset, limit);
    var ps := Pages(data, offset, limit);
    if |page| == limit {
      assert ps == [page] + Pages(data, offset + limit, limit);
      assert ps[1..] == Pages(data, offset + limit, limit);
    } else {
      assert ps == [page];
      assert Flatten(ps) == page + Flatten([]);
    }
  }

  /** The offsets of the first `n` requests. */
  function Offsets(offset: nat, limit: nat, n: nat): (r: seq<nat>)
    ensures |r| == n && forall k :: 0 <= k < n ==> r[k] == offset + k * limit
  {
    seq(n, k requires 0 <= k < n => offset + k * limit)
  }

  lemma OffsetsSnoc(offset: nat, limit: nat, n: nat)
    ensures Offsets(offset, limit, n) + [offset + n * limit] == Offsets(offset, limit, n + 1)
  {
  }
}
