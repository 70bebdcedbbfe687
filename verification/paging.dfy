/**
 * Offset paging shared by the meeting and Sonta Head listings: `page` and
 * `limit` default to 1 and 20, the query skips `(page - 1) * limit` rows and
 * takes `limit`, and `totalPages` is `Math.ceil(total / limit)`.
 */
module Paging {
  import opened Wrappers

  const DefaultPage := 1
  const DefaultLimit := 20

  datatype Page = Page(page: int, limit: int, skip: int, totalPages: int)

  /** `Math.ceil(total / limit)` for a positive limit. */
  function CeilDiv(total: nat, limit: int): (q: nat)
    requires limit >= 1
    ensures q * limit >= total
    ensures q > 0 ==> (q - 1) * limit < total
    ensures q == 0 <==> total == 0
  {
    var q := (total + limit - 1) / limit;
    var r := (total + limit - 1) % limit;
    assert q * limit + r == total + limit - 1;
    assert (q - 1) * limit == q * limit - limit;
    assert total > 0 && q == 0 ==> total + limit - 1 == r;
    q
  }

  /** The page metadata of a listing; the query DTOs require page and limit of at least 1. */
  function Paginate(page: Option<int>, limit: Option<int>, total: nat): (p: Page)
    requires page.Some? ==> page.value >= 1
    requires limit.Some? ==> limit.value >= 1
    ensures p.page == (if page.Some? then page.value else DefaultPage)
    ensures p.limit == (if limit.Some? then limit.value else DefaultLimit)
    ensures p.skip == (p.page - 1) * p.limit && p.skip >= 0 && p.limit >= 1
    ensures p.totalPages * p.limit >= total
    ensures p.totalPages == 0 <==> total == 0
    ensures p.totalPages > 0 ==> (p.totalPages - 1) * p.limit < total
  {
    var pg := page.GetOr(DefaultPage);
    var lim := limit.GetOr(DefaultLimit);
    MulNonNegative(pg - 1, lim);
    Page(pg, lim, (pg - 1) * lim, CeilDiv(total, lim))
  }

  /** The rows a page returns: `skip` rows dropped, at most `limit` kept. */
  function Window<T>(rows: seq<T>, p: Page): (w: seq<T>)
    requires p.skip >= 0 && p.limit >= 1
    ensures |w| <= p.limit
    ensures |w| == 0 <==> p.skip >= |rows|
    ensures p.skip + p.limit <= |rows| ==> |w| == p.limit
    ensures p.skip <= |rows| <= p.skip + p.limit ==> |w| == |rows| - p.skip
    ensures forall i :: 0 <= i < |w| ==> p.skip + i < |rows| && w[i] == rows[p.skip + i]
  {
    if p.skip >= |rows| then []
    else if p.skip + p.limit >= |rows| then rows[p.skip..]
    else rows[p.skip..p.skip + p.limit]
  }

  /** Row `i` lies on page `i / limit + 1`, within `totalPages`. */
  lemma RowPageInRange(limit: int, total: nat, i: nat)
    requires limit >= 1 && i < total
    ensures 1 <= i / limit + 1 <= CeilDiv(total, limit)
  {
    var n := i / limit;
    var tp := CeilDiv(total, limit);
    assert n * limit <= i;
    if n + 1 > tp {
      MulMonotone(tp, n, limit);
      assert false;
    }
  }

  /** The window of page `q` holds row `i` exactly when `q` is `i / limit + 1`. */
  lemma RowPageUnique(limit: int, i: nat, q: int)
    requires limit >= 1 && q >= 1
    ensures (q - 1) * limit <= i < (q - 1) * limit + limit <==> q == i / limit + 1
  {
    var n := i / limit;
    assert n * limit <= i < n * limit + limit;
    var skip := (q - 1) * limit;
    assert q * limit == skip + limit;
    assert (n + 1) * limit == n * limit + limit;
    if skip <= i < skip + limit {
      if q - 1 < n {
        MulMonotone(q, n, limit);
      } else if q - 1 > n {
        MulMonotone(n + 1, q - 1, limit);
      }
    }
  }

  /**
   * Every row of a listing of `total` rows lies on page `i / limit + 1`,
   * which is within `totalPages`, and on no other page.
   */
  lemma RowOnExactlyOnePage(limit: Option<int>, total: nat, i: nat, q: int)
    requires limit.Some? ==> limit.value >= 1
    requires i < total
    requires q >= 1
    ensures var p := Paginate(None, limit, total);
      1 <= i / p.limit + 1 <= p.totalPages
    ensures var p := Paginate(Some(q), limit, total);
      p.skip <= i < p.skip + p.limit <==> q == i / p.limit + 1
  {
    var lim := limit.GetOr(DefaultLimit);
    RowPageInRange(lim, total, i);
    RowPageUnique(lim, i, q);
  }

  lemma MulMonotone(a: int, b: int, c: int)
    requires a <= b && c >= 0
    ensures a * c <= b * c
  {
    assert b * c - a * c == (b - a) * c;
    MulNonNegative(b - a, c);
  }

  lemma MulNonNegative(a: int, b: int)
    requires a >= 0 && b >= 0
    ensures a * b >= 0
  {
  }
}
