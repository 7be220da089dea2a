/** PaginationRequest (the untrusted page and pageSize of a list query and
    their normalisation) and PaginatedResponse (the envelope a list endpoint
    returns, with its derived fields). */
module Pagination {
  import opened Int32
  import opened Sorting

  const DefaultPage: int32 := 1
  const DefaultPageSize: int32 := 10
  const MaxPageSize: int32 := 100

  /** Query-string parameters, already bound to C# ints. */
  datatype PaginationRequest = PaginationRequest(page: int32, pageSize: int32)

  /** A request that leaves both parameters out. */
  function DefaultRequest(): PaginationRequest {
    PaginationRequest(DefaultPage, DefaultPageSize)
  }

  /** GetValidPage: pages are 1-based; anything below 1 means the first page. */
  function GetValidPage(p: PaginationRequest): (r: int32)
    ensures r >= 1
    ensures p.page >= 1 ==> r == p.page
    ensures p.page < 1 ==> r == 1
  {
    if p.page < 1 then 1 else p.page
  }

  /** GetValidPageSize: clamped to at most 100, but a size below 1 falls back
      to the default 10 rather than to 1. */
  function GetValidPageSize(p: PaginationRequest): (r: int32)
    ensures 1 <= r <= MaxPageSize
    ensures 1 <= p.pageSize <= MaxPageSize ==> r == p.pageSize
    ensures p.pageSize < 1 ==> r == DefaultPageSize
    ensures p.pageSize > MaxPageSize ==> r == MaxPageSize
  {
    if p.pageSize < 1 then DefaultPageSize
    else if p.pageSize > MaxPageSize then MaxPageSize
    else p.pageSize
  }

  predicate IsNormalized(p: PaginationRequest) {
    p.page >= 1 && 1 <= p.pageSize <= MaxPageSize
  }

  /** The pair of values a list handler actually works with. */
  function Normalize(p: PaginationRequest): (r: PaginationRequest)
    ensures IsNormalized(r)
  {
    PaginationRequest(GetValidPage(p), GetValidPageSize(p))
  }

  /** Normalised pairs are exactly the fixed points of normalisation, so
      normalising twice is normalising once. */
  lemma NormalizeIdempotent(p: PaginationRequest)
    ensures Normalize(p) == p <==> IsNormalized(p)
    ensures Normalize(Normalize(p)) == Normalize(p)
  {
  }

  lemma DefaultIsNormalized()
    ensures Normalize(DefaultRequest()) == DefaultRequest()
  {
  }

  // ----- the envelope -----

  /** ceiling(a / b) for a count a and a page size b. The ensures pin the
      result down: it is the least r with a <= r * b. */
  function CeilDiv(a: nat, b: int): (r: nat)
    requires b >= 1
    ensures a <= Product(r, b)
    ensures r == 0 || Product(r - 1, b) < a
    ensures r == 0 <==> a == 0
  {
    var q := (a + b - 1) / b;
    var m := (a + b - 1) % b;
    assert a + b - 1 == q * b + m && 0 <= m < b;
    assert q * b == a + b - 1 - m;
    ProductIsMul(q, b);
    ProductIsMul(q - 1, b);
    q
  }

  /** PaginatedResponse<T>. */
  datatype PaginatedResponse<T> = PaginatedResponse(
    data: seq<T>,
    page: int,
    pageSize: int,
    totalCount: int,
    totalPages: int,
    hasNextPage: bool,
    hasPreviousPage: bool)

  /** The envelope exactly as both list handlers fill it in: TotalPages by
      ceiling division, HasNextPage by the unchecked int product
      `page * pageSize < totalCount`, HasPreviousPage by `page > 1`. */
  function BuildResponse<T>(data: seq<T>, page: int32, pageSize: int32, totalCount: nat): (r: PaginatedResponse<T>)
    requires pageSize >= 1
    ensures r.data == data && r.page == page as int && r.pageSize == pageSize as int
    ensures r.totalCount == totalCount
    ensures totalCount <= Product(r.totalPages, pageSize as int)
    ensures r.totalPages == 0 || Product(r.totalPages - 1, pageSize as int) < totalCount
    ensures r.hasPreviousPage <==> page > 1
    ensures page >= 1 && Product(page as int, pageSize as int) <= MaxValue ==>
      (r.hasNextPage <==> r.page < r.totalPages)
  {
    var r := PaginatedResponse(
      data, page as int, pageSize as int, totalCount,
      CeilDiv(totalCount, pageSize as int),
      Wrap(Product(page as int, pageSize as int)) as int < totalCount,
      page > 1);
    if page >= 1 then
      NextPageRule(page as int, pageSize as int, totalCount);
      ProductMonotone(0, page as int, pageSize as int);
      r
    else r
  }

  /** What the PaginatedResponse documentation says of its fields: pages are
      1-based, TotalPages = ceiling(TotalCount / PageSize), HasNextPage iff
      Page < TotalPages, HasPreviousPage iff Page > 1, and Data holds at most
      PageSize items. */
  predicate Documented<T>(r: PaginatedResponse<T>) {
    && r.page >= 1
    && r.pageSize >= 1
    && r.totalCount >= 0
    && r.totalPages == CeilDiv(r.totalCount, r.pageSize)
    && r.hasNextPage == (r.page < r.totalPages)
    && r.hasPreviousPage == (r.page > 1)
    && |r.data| <= r.pageSize
  }

  lemma ProductMonotone(a: int, b: int, c: int)
    requires a <= b && c >= 0
    ensures Product(a, c) <= Product(b, c)
  {
    ProductIsMul(a, c);
    ProductIsMul(b, c);
  }

  /** The documented rule `Page < TotalPages` and the handlers' formula
      `page * pageSize < totalCount` agree on every normalised input, over
      mathematical integers. */
  lemma NextPageRule(page: int, pageSize: int, totalCount: nat)
    requires page >= 1 && pageSize >= 1
    ensures (page < CeilDiv(totalCount, pageSize)) <==> (Product(page, pageSize) < totalCount)
  {
    var t := CeilDiv(totalCount, pageSize);
    if page < t {
      ProductMonotone(page, t - 1, pageSize);
    } else {
      ProductMonotone(t, page, pageSize);
    }
  }

  /** Whenever `page * pageSize` stays inside int32, the envelope the handlers
      build satisfies every documented rule. */
  lemma BuildResponseDocumented<T>(data: seq<T>, page: int32, pageSize: int32, totalCount: nat)
    requires page >= 1 && 1 <= pageSize
    requires |data| <= pageSize as int
    requires Product(page as int, pageSize as int) <= MaxValue
    ensures Documented(BuildResponse(data, page, pageSize, totalCount))
  {
    ProductMonotone(0, page as int, pageSize as int);
    NextPageRule(page as int, pageSize as int, totalCount);
  }

  /** An empty result set: no pages at all and no next page, while
      HasPreviousPage still follows the page number alone. */
  lemma EmptyResponse<T>(page: int32, pageSize: int32)
    requires page >= 1 && 1 <= pageSize
    requires Product(page as int, pageSize as int) <= MaxValue
    ensures BuildResponse<T>([], page, pageSize, 0)
      == PaginatedResponse([], page as int, pageSize as int, 0, 0, false, page > 1)
  {
    ProductMonotone(0, page as int, pageSize as int);
    assert Wrap(Product(page as int, pageSize as int)) as int >= 0;
  }

  /** When `page * pageSize` exceeds int32 the product wraps negative and the
      envelope announces a next page that does not exist: page 21474837 of size
      100 over 3 items has TotalPages 1 but HasNextPage true. */
  lemma HasNextPageOverflow()
    ensures var r := BuildResponse<int>([], 21474837, 100, 3);
      r.totalPages == 1 && r.hasNextPage && !Documented(r)
  {
    ProductIsMul(21474837, 100);
    assert Wrap(21474837 * 100) as int == 2147483700 - Modulus;
    ProductIsMul(0, 100);
    ProductIsMul(1, 100);
  }

  // ----- the page window -----

  /** Enumerable.Skip: what is left of s after its first n items; a count of
      zero or less skips nothing. */
  function Skip<T>(s: seq<T>, n: int): (r: seq<T>)
    ensures |r| == if n <= 0 then |s| else if n >= |s| then 0 else |s| - n
    ensures r == s[|s| - |r|..]
  {
    if n <= 0 then s else if n >= |s| then [] else s[n..]
  }

  /** Enumerable.Take: the first n items of s, or all of them when there are
      fewer; a count of zero or less takes nothing. */
  function Take<T>(s: seq<T>, n: int): (r: seq<T>)
    ensures |r| == if n <= 0 then 0 else if n >= |s| then |s| else n
    ensures r == s[..|r|]
  {
    if n <= 0 then [] else if n >= |s| then s else s[..n]
  }

  /** Take and Skip split a sequence at the same point: together they give
      back s, whatever the count. */
  lemma TakeSkip<T>(s: seq<T>, n: int)
    ensures Take(s, n) + Skip(s, n) == s
  {
    var k := |Take(s, n)|;
    assert |Skip(s, n)| == |s| - k;
    assert s[..k] + s[k..] == s;
  }

  /** The offset `(page - 1) * pageSize` before int wrap-around. */
  function Offset(page: int32, pageSize: int32): (o: int)
    ensures page >= 1 && pageSize >= 0 ==> o >= 0
  {
    var o := Product(page as int - 1, pageSize as int);
    assert page >= 1 && pageSize >= 0 ==> o >= 0 by {
      if page >= 1 && pageSize >= 0 {
        ProductMonotone(0, page as int - 1, pageSize as int);
      }
    }
    o
  }

  /** `.Skip((page - 1) * pageSize).Take(pageSize)`, the offset computed with
      unchecked int arithmetic. */
  function PageWindow<T>(s: seq<T>, page: int32, pageSize: int32): seq<T>
  {
    Take(Skip(s, Wrap(Offset(page, pageSize)) as int), pageSize as int)
  }

  /** How many items a page starting at offset o holds when count items
      exist and at most n fit: min(n, what is left). */
  function WindowLength(count: int, o: int, n: int): (len: int)
    requires 0 <= o && 0 <= n && 0 <= count
    ensures 0 <= len <= n && (o < count ==> o + len <= count)
    ensures len == 0 <==> o >= count || n == 0
  {
    if o >= count then 0 else if count - o < n then count - o else n
  }

  /** For a normalised pair whose offset fits in int32, the window is the
      contiguous slice of s that starts at (page - 1) * pageSize and holds
      min(pageSize, what is left) items. */
  lemma PageWindowSlice<T>(s: seq<T>, page: int32, pageSize: int32)
    requires page >= 1 && 1 <= pageSize
    requires Offset(page, pageSize) <= MaxValue
    ensures Offset(page, pageSize) >= 0
    ensures Offset(page, pageSize) < |s| ==>
      PageWindow(s, page, pageSize)
        == s[Offset(page, pageSize)..Offset(page, pageSize) + WindowLength(|s|, Offset(page, pageSize), pageSize as int)]
    ensures Offset(page, pageSize) >= |s| ==> PageWindow(s, page, pageSize) == []
  {
    ProductMonotone(0, page as int - 1, pageSize as int);
  }

  /** The offset a list handler computes for a request, after normalising it. */
  function RequestOffset(p: PaginationRequest): (o: int)
    ensures o >= 0
  {
    Offset(GetValidPage(p), GetValidPageSize(p))
  }

  /** The window a list handler serves for a request. */
  function PageOf<T>(s: seq<T>, p: PaginationRequest): seq<T> {
    PageWindow(s, GetValidPage(p), GetValidPageSize(p))
  }

  /** The run of s a request's page should show: it starts at the request's
      offset and holds min(pageSize, what is left) items. */
  function PageSlice<T>(s: seq<T>, p: PaginationRequest): (r: seq<T>)
    requires RequestOffset(p) < |s|
    ensures 1 <= |r| <= GetValidPageSize(p) as int
  {
    var o := RequestOffset(p);
    s[o..o + WindowLength(|s|, o, GetValidPageSize(p) as int)]
  }

  /** PageWindowSlice for the normalised pair of a request. */
  lemma PageOfSlice<T>(s: seq<T>, p: PaginationRequest)
    requires RequestOffset(p) <= MaxValue
    ensures RequestOffset(p) < |s| ==> PageOf(s, p) == PageSlice(s, p)
    ensures RequestOffset(p) >= |s| ==> PageOf(s, p) == []
  {
    PageWindowSlice(s, GetValidPage(p), GetValidPageSize(p));
  }

  /** The window is empty exactly when the offset is at or past the end. */
  lemma PageWindowEmpty<T>(s: seq<T>, page: int32, pageSize: int32)
    requires page >= 1 && 1 <= pageSize
    requires Offset(page, pageSize) <= MaxValue
    ensures PageWindow(s, page, pageSize) == [] <==> Offset(page, pageSize) >= |s|
  {
    PageWindowSlice(s, page, pageSize);
  }

  /** Where the window starts in s: the wrapped offset clamped to [0, |s|]. */
  function WindowStart<T>(s: seq<T>, page: int32, pageSize: int32): (a: nat)
    ensures a <= |s|
  {
    var o := Wrap(Offset(page, pageSize)) as int;
    if o <= 0 then 0 else if o >= |s| then |s| else o
  }

  /** Whatever the offset, even a wrapped one, the window is a contiguous
      run of s of at most pageSize items. */
  lemma PageWindowIsSlice<T>(s: seq<T>, page: int32, pageSize: int32)
    requires pageSize >= 1
    ensures var w := PageWindow(s, page, pageSize);
      var a := WindowStart(s, page, pageSize);
      a + |w| <= |s| && w == s[a..a + |w|] && |w| <= pageSize as int
  {
  }

  /** A slice holds only elements of s and keeps a sorted s sorted. */
  lemma SliceOfSorted<T>(s: seq<T>, a: nat, b: nat, key: T -> int)
    requires a <= b <= |s|
    ensures forall x <- s[a..b] :: x in s
    ensures SortedBy(s, key) ==> SortedBy(s[a..b], key)
  {
    var w := s[a..b];
    forall x <- w ensures x in s {
      var k :| 0 <= k < |w| && w[k] == x;
      assert w[k] == s[a + k];
    }
    if SortedBy(s, key) {
      forall i, j | 0 <= i < j < |w| ensures key(w[i]) <= key(w[j]) {
        assert w[i] == s[a + i] && w[j] == s[a + j];
      }
    }
  }

  /** The window keeps the order of s and holds only elements of s. */
  lemma PageWindowOfSorted<T>(s: seq<T>, page: int32, pageSize: int32, key: T -> int)
    requires pageSize >= 1
    ensures var w := PageWindow(s, page, pageSize);
      && |w| <= pageSize as int
      && (forall x <- w :: x in s)
      && (SortedBy(s, key) ==> SortedBy(w, key))
  {
    var w := PageWindow(s, page, pageSize);
    PageWindowIsSlice(s, page, pageSize);
    var a := WindowStart(s, page, pageSize);
    SliceOfSorted(s, a, a + |w|, key);
  }
}
