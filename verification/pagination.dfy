/** The list pagination helper: ceiling division for the page count,
    clamping of the requested page to the last one, and the slice of that
    page. Go's integer division and slicing are used with non-negative
    operands only, where they agree with Dafny's. */
module Pagination {

  /** What the helper is given: a list of items, or a value of any other
      type, which it answers with an empty page. */
  datatype PageData<T> = Items(items: seq<T>) | NotASlice

  datatype PaginationResponse<T> = PaginationResponse(Data: seq<T>, CurrentPage: int, TotalPages: int, TotalItems: int)

  /** The number of pages of n items, limit to a page. */
  function TotalPages(n: nat, limit: int): (t: int)
    requires limit >= 1
    ensures t >= 0
    ensures (t - 1) * limit < n <= t * limit
  {
    CeilDiv(n, limit)
  }

  function CeilDiv(n: nat, limit: int): (t: nat)
    requires limit >= 1
    ensures (t - 1) * limit < n <= t * limit
    decreases n
  {
    if n == 0 then 0 else 1 + CeilDiv(if n <= limit then 0 else n - limit, limit)
  }

  /** Multiplying by a positive page size keeps the order of page numbers. */
  lemma MulMonotone(a: int, b: int, limit: int)
    requires a <= b && limit >= 1
    ensures a * limit <= b * limit
  {
    assert b * limit - a * limit == (b - a) * limit;
  }

  /** The page actually served: the requested one, lowered to the last page. */
  function ClampPage(page: int, totalPages: int): (p: int)
    ensures p <= page && p <= totalPages
    ensures p == page || p == totalPages
  {
    if page > totalPages then totalPages else page
  }

  /** Where the served page starts in the list. */
  function StartIndex(page: int, limit: int): int
  {
    (page - 1) * limit
  }

  /** Where it ends: one page on, but not past the end of the list. */
  function EndIndex(start: int, limit: int, n: nat): (e: int)
    ensures e <= n && e <= start + limit
    ensures e == n || e == start + limit
  {
    if start + limit > n then n else start + limit
  }

  /** With a positive limit, the served page starts inside the list exactly
      when the list is not empty and the requested page is at least 1; this
      is the precondition Paginate needs to slice without a panic. */
  lemma {:induction false} StartInRange(n: nat, page: int, limit: int)
    requires limit >= 1
    ensures var p := ClampPage(page, TotalPages(n, limit));
            0 <= StartIndex(p, limit) < n <==> n >= 1 && page >= 1
  {
    var t := TotalPages(n, limit);
    var p := ClampPage(page, t);
    if n >= 1 && page >= 1 {
      assert t >= 1;
      assert p >= 1;
      MulMonotone(0, p - 1, limit);
      MulMonotone(p - 1, t - 1, limit);
    } else if n == 0 {
      if t >= 1 {
        MulMonotone(0, t - 1, limit);
      }
    } else {
      assert p <= 0;
      assert (p - 1) * limit < 0;
    }
  }

  /** Paginate: a value that is not a list gives an empty page, no pages and
      no items, and echoes the requested page; a list gives its size, the
      ceiling of size over limit as the page count, the requested page
      lowered to the last one, and that page's items. */
  function Paginate<T>(data: PageData<T>, page: int, limit: int): (r: PaginationResponse<T>)
    requires data.Items? ==> limit >= 1 && page >= 1 && |data.items| >= 1
    ensures data.NotASlice? ==> r == PaginationResponse([], page, 0, 0)
    ensures data.Items? ==>
              && r.TotalItems == |data.items|
              && (r.TotalPages - 1) * limit < r.TotalItems <= r.TotalPages * limit
              && 1 <= r.CurrentPage <= r.TotalPages
              && r.CurrentPage == (if page > r.TotalPages then r.TotalPages else page)
              && 1 <= |r.Data| <= limit
              && (var start := (r.CurrentPage - 1) * limit;
                  && 0 <= start && start + |r.Data| <= r.TotalItems
                  && r.Data == data.items[start..start + |r.Data|]
                  && |r.Data| == (if start + limit > r.TotalItems then r.TotalItems - start else limit))
              && (r.CurrentPage < r.TotalPages ==> |r.Data| == limit)
  {
    match data
    case NotASlice => PaginationResponse([], page, 0, 0)
    case Items(xs) =>
      var n := |xs|;
      var total := TotalPages(n, limit);
      var p := ClampPage(page, total);
      StartInRange(n, page, limit);
      var start := StartIndex(p, limit);
      var end := EndIndex(start, limit, n);
      assert end > start;
      assert p < total ==> end == start + limit by {
        if p < total {
          MulMonotone(p, total - 1, limit);
        }
      }
      PaginationResponse(xs[start..end], p, total, n)
  }

  /** Pages 1 to k of a list, one after the other. */
  function PagesUpTo<T>(xs: seq<T>, limit: int, k: nat): seq<T>
    requires limit >= 1 && |xs| >= 1
  {
    if k == 0 then [] else PagesUpTo(xs, limit, k - 1) + Paginate(Items(xs), k, limit).Data
  }

  /** Page k of the list is the slice from (k - 1) * limit up to k * limit,
      or up to the end of the list for the last page. */
  lemma PageSlice<T>(xs: seq<T>, limit: int, k: int)
    requires limit >= 1 && |xs| >= 1
    requires 1 <= k <= TotalPages(|xs|, limit)
    ensures var start := (k - 1) * limit;
            var end := if k * limit < |xs| then k * limit else |xs|;
            0 <= start <= end <= |xs| && Paginate(Items(xs), k, limit).Data == xs[start..end]
  {
    var r := Paginate(Items(xs), k, limit);
    assert r.CurrentPage == k;
    assert k * limit == (k - 1) * limit + limit;
  }

  /** Every page before the last is full, so it ends inside the list. */
  lemma FullPagesEndInside(n: nat, limit: int, k: int)
    requires limit >= 1 && 0 <= k < TotalPages(n, limit)
    ensures k * limit <= n
  {
    MulMonotone(k, TotalPages(n, limit) - 1, limit);
  }

  /** Walking one page further appends that page's slice. */
  lemma PagesUpToStep<T>(xs: seq<T>, limit: int, k: int)
    requires limit >= 1 && |xs| >= 1
    requires 1 <= k <= TotalPages(|xs|, limit)
    ensures var end := if k * limit < |xs| then k * limit else |xs|;
            0 <= (k - 1) * limit <= end <= |xs|
            && PagesUpTo(xs, limit, k) == PagesUpTo(xs, limit, k - 1) + xs[(k - 1) * limit..end]
  {
    PageSlice(xs, limit, k);
  }

  /** A prefix is a shorter prefix followed by the slice between the two. */
  lemma PrefixSplit<T>(xs: seq<T>, a: int, b: int)
    requires 0 <= a <= b <= |xs|
    ensures xs[..b] == xs[..a] + xs[a..b]
  {
  }

  /** The first k pages hold the first k * limit items, up to the whole list
      once k reaches the page count. */
  lemma {:induction false} PagesUpToPrefix<T>(xs: seq<T>, limit: int, k: nat)
    requires limit >= 1 && |xs| >= 1
    requires k <= TotalPages(|xs|, limit)
    ensures PagesUpTo(xs, limit, k) == xs[..if k * limit < |xs| then k * limit else |xs|]
  {
    if k > 0 {
      var start := (k - 1) * limit;
      var end := if k * limit < |xs| then k * limit else |xs|;
      PagesUpToPrefix(xs, limit, k - 1);
      FullPagesEndInside(|xs|, limit, k - 1);
      PagesUpToStep(xs, limit, k);
      PrefixSplit(xs, start, end);
    }
  }

  /** Walking every page from 1 to the last yields each item exactly once,
      in order. */
  lemma PagesCover<T>(xs: seq<T>, limit: int)
    requires limit >= 1 && |xs| >= 1
    ensures PagesUpTo(xs, limit, TotalPages(|xs|, limit)) == xs
  {
    var t := TotalPages(|xs|, limit);
    PagesUpToPrefix(xs, limit, t);
    assert t * limit >= |xs|;
  }

  /** Any page requested past the last one is served as the last page. */
  lemma PastTheEndIsLastPage<T>(xs: seq<T>, page: int, limit: int)
    requires limit >= 1 && |xs| >= 1
    requires page >= TotalPages(|xs|, limit)
    ensures Paginate(Items(xs), page, limit) == Paginate(Items(xs), TotalPages(|xs|, limit), limit)
  {
  }

  /** The empty list: there are no pages, so the page is lowered to 0 and
      the slice would start at -limit, which panics in Go; the list
      endpoints answer an empty table this way. */
  lemma EmptyListStartsBeforeTheList(page: int, limit: int)
    requires limit >= 1
    ensures TotalPages(0, limit) == 0
    ensures ClampPage(page, TotalPages(0, limit)) <= 0
    ensures StartIndex(ClampPage(page, TotalPages(0, limit)), limit) < 0
    ensures page >= 1 ==> StartIndex(ClampPage(page, TotalPages(0, limit)), limit) == -limit
  {
    StartInRange(0, page, limit);
  }

  /** Paginate with the served page kept at 1 or above, so that an empty
      list gives an empty first page and a page below 1 gives the first. */
  function PaginateOrEmpty<T>(data: PageData<T>, page: int, limit: int): (r: PaginationResponse<T>)
    requires data.Items? ==> limit >= 1
    ensures data.NotASlice? ==> r == PaginationResponse([], page, 0, 0)
    ensures data.Items? && |data.items| == 0 ==> r == PaginationResponse([], 1, 0, 0)
    ensures data.Items? && |data.items| >= 1 && page >= 1 ==> r == Paginate(data, page, limit)
    ensures data.Items? && |data.items| >= 1 && page < 1 ==> r == Paginate(data, 1, limit)
    ensures data.Items? ==> |r.Data| <= limit && r.CurrentPage >= 1
  {
    match data
    case NotASlice => PaginationResponse([], page, 0, 0)
    case Items(xs) =>
      var n := |xs|;
      var total := TotalPages(n, limit);
      var clamped := ClampPage(page, total);
      var p := if clamped < 1 then 1 else clamped;
      if n == 0 then PaginationResponse([], p, total, n)
      else
        assert page >= 1 ==> p == ClampPage(page, total) by { StartInRange(n, page, limit); }
        assert page < 1 ==> p == ClampPage(1, total) by { StartInRange(n, 1, limit); }
        Paginate(data, p, limit)
  }
}
