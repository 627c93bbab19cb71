/** The generic pagination engine: coerce `page` and `limit`, count the
    matching rows, clamp the page, take one window of rows and build the
    `first`/`prev`/`next`/`last` links.

    The store is abstracted as `matching`: the rows that satisfy the query's
    `where`, already in the query's order. Counting and fetching both read this
    one sequence, so the model assumes no write lands between the two queries. */
module Paginate {
  import opened Wrappers
  import opened Text
  import Collections

  const DefaultPage: int := 1
  const DefaultLimit: int := 10

  /** `page`/`limit` are numbers that may be missing (`None` also stands for
      NaN, which is falsy like a missing value); `route` is a base URL or null. */
  datatype PaginationOptions = PaginationOptions(page: Option<int>, limit: Option<int>, route: Option<string>)

  datatype Meta = Meta(itemCount: nat, totalItems: nat, itemsPerPage: int, totalPages: int, currentPage: int)

  datatype Links = Links(first: Option<string>, prev: Option<string>, next: Option<string>, last: Option<string>)

  datatype PaginationResult<T> = PaginationResult(data: seq<T>, meta: Meta, links: Links)

  function Min(a: int, b: int): int { if a <= b then a else b }

  function Max(a: int, b: int): int { if a >= b then a else b }

  /** `Number(x) || fallback`: a missing, NaN or zero number falls back. */
  function OrDefault(x: Option<int>, fallback: int): int {
    if x.None? || x.value == 0 then fallback else x.value
  }

  /** The page number actually requested once coerced. */
  function RequestedPage(options: PaginationOptions): int {
    OrDefault(options.page, DefaultPage)
  }

  /** The page size once coerced; never zero. */
  function EffectiveLimit(options: PaginationOptions): (limit: int)
    ensures limit != 0
    ensures options.limit.None? || options.limit == Some(0) ==> limit == DefaultLimit
    ensures options.limit.Some? && options.limit.value != 0 ==> limit == options.limit.value
  {
    OrDefault(options.limit, DefaultLimit)
  }

  /** `options.route ?? <current request URL>`. */
  function Route(options: PaginationOptions, requestUrl: Option<string>): Option<string> {
    if options.route.Some? then options.route else requestUrl
  }

  /** A route is used for links only when it is truthy: present and non-empty. */
  predicate HasRoute(route: Option<string>) {
    route.Some? && |route.value| > 0
  }

  /** `Math.ceil(a / b)` for a count `a` and a non-zero integer `b`. */
  function CeilDiv(a: nat, b: int): (r: int)
    requires b != 0
    ensures b > 0 ==> (r - 1) * b < a <= r * b
    ensures b < 0 ==> r * b <= a < (r - 1) * b
    ensures b > 0 ==> r >= 0 && (r == 0 <==> a == 0)
    ensures b < 0 ==> r <= 0
  {
    if b > 0 then
      CeilUp(a, b);
      (a + b - 1) / b
    else
      FloorDown(a, -b);
      -(a / -b)
  }

  /** Euclidean division by a positive divisor brackets the dividend. */
  lemma DivBounds(a: int, d: int)
    requires a >= 0 && d > 0
    ensures a / d >= 0
    ensures (a / d) * d <= a < (a / d) * d + d
  {
    assert a == (a / d) * d + a % d;
  }

  /** Multiplying by a positive number keeps a strict order. */
  lemma MulCancel(x: int, y: int, c: int)
    requires c > 0 && x * c < y * c
    ensures x < y
  {
  }

  lemma CeilUp(a: nat, b: int)
    requires b > 0
    ensures var q := (a + b - 1) / b;
      (q - 1) * b < a <= q * b && q >= 0 && (q == 0 <==> a == 0)
  {
    var q := (a + b - 1) / b;
    DivBounds(a + b - 1, b);
    assert (q - 1) * b == q * b - b;
    assert q * b < 1 * b ==> q < 1 by {
      if q * b < 1 * b {
        MulCancel(q, 1, b);
      }
    }
  }

  lemma FloorDown(a: nat, d: int)
    requires d > 0
    ensures var q := a / d;
      q >= 0 && -q * -d <= a < (-q - 1) * -d
  {
    var q := a / d;
    DivBounds(a, d);
    assert -q * -d == q * d;
    assert (-q - 1) * -d == q * d + d;
  }

  /** The store's `findMany({ skip, take })` over the matching rows. A
      non-negative `take` reads forward from `skip`; a negative `take` reads
      `-take` rows backward from the end, after skipping `skip` rows there. */
  function Window<T>(rows: seq<T>, skip: nat, take: int): (r: seq<T>)
    ensures take >= 0 ==> |r| <= take
    ensures take < 0 ==> |r| <= -take
    ensures take >= 0 && skip <= |rows| ==> r == rows[skip..Min(skip + take, |rows|)]
    ensures take < 0 && skip == 0 ==> r == rows[Max(0, |rows| + take)..]
  {
    if take >= 0 then
      rows[Min(skip, |rows|)..Min(skip + take, |rows|)]
    else
      var end := Max(0, |rows| - skip);
      rows[Max(0, end + take)..end]
  }

  lemma WindowIsSlice<T>(rows: seq<T>, skip: nat, take: int)
    ensures Collections.IsSlice(Window(rows, skip, take), rows)
  {
    var w := Window(rows, skip, take);
    if take >= 0 {
      var lo := Min(skip, |rows|);
      assert Collections.SliceAt(w, rows, lo);
    } else {
      var end := Max(0, |rows| - skip);
      var lo := Max(0, end + take);
      assert Collections.SliceAt(w, rows, lo);
    }
  }

  /** `&` when the route already has a query string, `?` otherwise. */
  function Separator(route: string): (c: char)
    ensures c == '&' <==> '?' in route
    ensures c == '&' || c == '?'
  {
    ContainsChar(route, '?');
    if Contains(route, "?") then '&' else '?'
  }

  /** `${route}${sep}page=${page}&limit=${limit}`. */
  function PageLink(route: string, page: int, limit: int): string {
    route + [Separator(route)] + "page=" + IntToString(page) + "&limit=" + IntToString(limit)
  }

  /** The `qs` helper: a link to `page`, or null when there is no route. */
  function Qs(route: Option<string>, page: int, limit: int): Option<string> {
    if HasRoute(route) then Some(PageLink(route.value, page, limit)) else None
  }

  /** The page actually served: the requested one clamped into
      `[1, max(totalPages, 1)]`. */
  function ClampPage(requested: int, totalPages: int): (page: int)
    ensures 1 <= page <= Max(totalPages, 1)
    ensures 1 <= requested <= totalPages ==> page == requested
    ensures requested < 1 ==> page == 1
    ensures requested > Max(totalPages, 1) ==> page == Max(totalPages, 1)
  {
    Min(Max(requested, 1), Max(totalPages, 1))
  }

  /** `prismaPaginate`. */
  function Paginate<T>(matching: seq<T>, options: PaginationOptions, requestUrl: Option<string>): (r: PaginationResult<T>)
    ensures r.meta.totalItems == |matching|
    ensures r.meta.itemsPerPage == EffectiveLimit(options)
    ensures r.meta.itemCount == |r.data|
    ensures Collections.IsSlice(r.data, matching)
    // totalPages is the unclamped ceiling of totalItems / limit; the page is clamped
    ensures r.meta.totalPages == CeilDiv(|matching|, EffectiveLimit(options))
    ensures r.meta.currentPage == ClampPage(RequestedPage(options), r.meta.totalPages)
    // the data is the window [skip, skip + limit) of the matching rows
    ensures EffectiveLimit(options) > 0 ==>
      var skip := (r.meta.currentPage - 1) * EffectiveLimit(options);
      0 <= skip <= |matching| &&
      r.data == matching[skip..Min(skip + EffectiveLimit(options), |matching|)]
    ensures EffectiveLimit(options) < 0 ==>
      r.meta.currentPage == 1 && r.data == matching[Max(0, |matching| + EffectiveLimit(options))..]
    // the links are built on the route, for this page and limit
    ensures r.links == LinksFor(Route(options, requestUrl), |matching|, r.meta.totalPages, r.meta.currentPage, EffectiveLimit(options))
  {
    var limit := EffectiveLimit(options);
    var route := Route(options, requestUrl);
    var totalItems := |matching|;
    var totalPages := CeilDiv(totalItems, limit);
    var page := ClampPage(RequestedPage(options), totalPages);
    var items := PageItems(matching, limit, page);
    PaginationResult(items, Meta(|items|, totalItems, limit, totalPages, page), LinksFor(route, totalItems, totalPages, page, limit))
  }

  /** What serving `options` over `matching` means: the count, the coerced
      limit, the ceiling of pages, the clamped page, the window of rows at
      that page's offset, and the four links for it on the route. */
  ghost predicate Serves<T>(r: PaginationResult<T>, matching: seq<T>, options: PaginationOptions, requestUrl: Option<string>) {
    var limit := EffectiveLimit(options);
    && r.meta.totalItems == |matching|
    && r.meta.itemsPerPage == limit
    && r.meta.itemCount == |r.data|
    && r.meta.totalPages == CeilDiv(|matching|, limit)
    && r.meta.currentPage == ClampPage(RequestedPage(options), r.meta.totalPages)
    && (limit > 0 ==>
          var skip := (r.meta.currentPage - 1) * limit;
          0 <= skip <= |matching| && r.data == matching[skip..Min(skip + limit, |matching|)])
    && (limit < 0 ==> r.data == matching[Max(0, |matching| + limit)..])
    && r.links == LinksFor(Route(options, requestUrl), |matching|, r.meta.totalPages, r.meta.currentPage, limit)
  }

  /** The engine serves what it is asked. */
  lemma PaginateServes<T>(matching: seq<T>, options: PaginationOptions, requestUrl: Option<string>)
    ensures Serves(Paginate(matching, options, requestUrl), matching, options, requestUrl)
  {
  }

  /** Without a page, the first page is served: the first `limit` rows. */
  lemma FirstPageByDefault<T>(r: PaginationResult<T>, matching: seq<T>, options: PaginationOptions, requestUrl: Option<string>)
    requires Serves(r, matching, options, requestUrl)
    requires options.page.None? || options.page == Some(1)
    ensures r.meta.currentPage == 1
    ensures EffectiveLimit(options) > 0 ==> r.data == matching[..Min(EffectiveLimit(options), |matching|)]
  {
  }

  /** The rows of page `page`: those at offsets `[(page - 1) * limit, page * limit)`
      for a positive limit, and the last `-limit` rows for a negative one. */
  function PageItems<T>(matching: seq<T>, limit: int, page: int): (items: seq<T>)
    requires limit != 0 && 1 <= page <= Max(CeilDiv(|matching|, limit), 1)
    ensures Collections.IsSlice(items, matching)
    ensures limit > 0 ==>
      var skip := (page - 1) * limit;
      0 <= skip <= |matching| && items == matching[skip..Min(skip + limit, |matching|)]
    ensures limit < 0 ==> page == 1 && items == matching[Max(0, |matching| + limit)..]
  {
    SkipInRange(|matching|, limit, CeilDiv(|matching|, limit), page);
    var skip: nat := (page - 1) * limit;
    WindowIsSlice(matching, skip, limit);
    Window(matching, skip, limit)
  }

  /** A page never holds more rows than the limit asks for. */
  lemma PageSize<T>(matching: seq<T>, options: PaginationOptions, requestUrl: Option<string>)
    ensures var r := Paginate(matching, options, requestUrl);
      && (EffectiveLimit(options) > 0 ==> |r.data| <= EffectiveLimit(options))
      && (EffectiveLimit(options) < 0 ==> |r.data| <= -EffectiveLimit(options))
  {
  }

  /** The four navigation links of page `page` out of `totalPages`. */
  function LinksFor(route: Option<string>, totalItems: nat, totalPages: int, page: int, limit: int): Links {
    Links(
      if totalItems > 0 then Qs(route, 1, limit) else None,
      if page > 1 then Qs(route, page - 1, limit) else None,
      if page < totalPages then Qs(route, page + 1, limit) else None,
      if totalItems > 0 then Qs(route, totalPages, limit) else None)
  }

  /** The clamped page's offset is never negative and never past the rows. */
  lemma SkipInRange(totalItems: nat, limit: int, totalPages: int, page: int)
    requires limit != 0 && totalPages == CeilDiv(totalItems, limit)
    requires 1 <= page <= Max(totalPages, 1)
    ensures 0 <= (page - 1) * limit
    ensures limit > 0 ==> (page - 1) * limit <= totalItems
    ensures limit < 0 ==> page == 1
  {
    if limit > 0 {
      MulMonotone(0, page - 1, limit);
      if totalPages >= 1 {
        MulMonotone(page - 1, totalPages - 1, limit);
      } else {
        assert page == 1;
      }
    } else {
      assert page == 1;
    }
  }

  lemma MulMonotone(a: int, b: int, c: int)
    requires a <= b && c > 0
    ensures a * c <= b * c
  {
    assert b * c - a * c == (b - a) * c;
  }

  /** The rest of `s` after `prefix`, if `s` starts with it. */
  function AfterPrefix(s: string, prefix: string): Option<string> {
    if |s| >= |prefix| && s[..|prefix|] == prefix then Some(s[|prefix|..]) else None
  }

  lemma AfterPrefixOf(prefix: string, rest: string)
    ensures AfterPrefix(prefix + rest, prefix) == Some(rest)
  {
    assert (prefix + rest)[..|prefix|] == prefix;
    assert (prefix + rest)[|prefix|..] == rest;
  }

  /** Reads a page link back: the page and limit it carries, provided it is
      built on `route`. */
  function ParseLink(route: string, link: string): Option<(int, int)> {
    match AfterPrefix(link, route + [Separator(route)] + "page=")
    case None => None
    case Some(rest) =>
      var page := BeforeFirst(rest, '&');
      match AfterPrefix(rest[|page|..], "&limit=")
      case None => None
      case Some(limit) =>
        match (ParseInt(page), ParseInt(limit))
        case (Some(p), Some(l)) => Some((p, l))
        case _ => None
  }

  /** Every link names its page and limit unambiguously. */
  lemma LinkRoundTrip(route: string, page: int, limit: int)
    ensures ParseLink(route, PageLink(route, page, limit)) == Some((page, limit))
  {
    var head := route + [Separator(route)] + "page=";
    var ps := IntToString(page);
    var ls := IntToString(limit);
    var rest := ps + ("&limit=" + ls);
    assert PageLink(route, page, limit) == head + rest;
    AfterPrefixOf(head, rest);
    IntToStringChars(page);
    BeforeFirstUnique(rest, '&', ps);
    assert rest[|ps|..] == "&limit=" + ls;
    AfterPrefixOf("&limit=", ls);
    IntRoundTrip(page);
    IntRoundTrip(limit);
  }

  /** Which links exist, and the page each one points to. */
  lemma LinksForTargets(route: Option<string>, totalItems: nat, totalPages: int, page: int, limit: int)
    ensures
      var l := LinksFor(route, totalItems, totalPages, page, limit);
      && (l.first.Some? <==> totalItems > 0 && HasRoute(route))
      && (l.last.Some? <==> totalItems > 0 && HasRoute(route))
      && (l.prev.Some? <==> page > 1 && HasRoute(route))
      && (l.next.Some? <==> page < totalPages && HasRoute(route))
      && (l.first.Some? ==> ParseLink(route.value, l.first.value) == Some((1, limit)))
      && (l.last.Some? ==> ParseLink(route.value, l.last.value) == Some((totalPages, limit)))
      && (l.prev.Some? ==> ParseLink(route.value, l.prev.value) == Some((page - 1, limit)))
      && (l.next.Some? ==> ParseLink(route.value, l.next.value) == Some((page + 1, limit)))
  {
    if HasRoute(route) {
      LinkRoundTrip(route.value, 1, limit);
      LinkRoundTrip(route.value, totalPages, limit);
      LinkRoundTrip(route.value, page - 1, limit);
      LinkRoundTrip(route.value, page + 1, limit);
    }
  }

  /** Which links of a paginated result exist. */
  lemma LinkTargets<T>(matching: seq<T>, options: PaginationOptions, requestUrl: Option<string>)
    ensures
      var r := Paginate(matching, options, requestUrl);
      var route := Route(options, requestUrl);
      && (r.links.first.Some? <==> |matching| > 0 && HasRoute(route))
      && (r.links.last.Some? <==> |matching| > 0 && HasRoute(route))
      && (r.links.prev.Some? <==> r.meta.currentPage > 1 && HasRoute(route))
      && (r.links.next.Some? <==> r.meta.currentPage < r.meta.totalPages && HasRoute(route))
  {
    var r := Paginate(matching, options, requestUrl);
    LinksForTargets(Route(options, requestUrl), |matching|, r.meta.totalPages, r.meta.currentPage, EffectiveLimit(options));
  }

  /** With no matching rows: no data, zero pages, page 1 and no links at all. */
  lemma EmptyResult<T>(matching: seq<T>, options: PaginationOptions, requestUrl: Option<string>)
    requires |matching| == 0
    ensures
      var r := Paginate(matching, options, requestUrl);
      && r.data == [] && r.meta.itemCount == 0
      && r.meta.totalPages == 0 && r.meta.currentPage == 1
      && r.links == Links(None, None, None, None)
  {
  }

  /** The data of page `page` when the engine is asked for it directly. */
  function PageData<T>(matching: seq<T>, page: int, limit: int): seq<T> {
    Paginate(matching, PaginationOptions(Some(page), Some(limit), None), None).data
  }

  /** The data of pages `1..n`, in page order. */
  function Pages<T>(matching: seq<T>, limit: int, n: nat): seq<seq<T>> {
    seq(n, k requires 0 <= k < n => PageData(matching, k + 1, limit))
  }

  /** Pages laid end to end. */
  function Concat<T>(pages: seq<seq<T>>): seq<T> {
    if |pages| == 0 then [] else Concat(pages[..|pages| - 1]) + pages[|pages| - 1]
  }

  /** Page `k + 1`, when in range, is served as asked: the rows from offset
      `k * limit`, at most `limit` of them. */
  lemma PageDataInRange<T>(matching: seq<T>, k: nat, limit: int)
    requires limit > 0 && k < CeilDiv(|matching|, limit)
    ensures 0 <= k * limit <= |matching|
    ensures PageData(matching, k + 1, limit) == matching[k * limit..Min(k * limit + limit, |matching|)]
  {
    var options := PaginationOptions(Some(k + 1), Some(limit), None);
    assert RequestedPage(options) == k + 1 && EffectiveLimit(options) == limit;
    assert Paginate(matching, options, None).meta.currentPage == k + 1;
  }

  /** Page `k` is the window `[bounds[k], bounds[k + 1])` of the rows. */
  ghost predicate WindowAt<T>(matching: seq<T>, bounds: seq<int>, pages: seq<seq<T>>, k: int) {
    && 0 <= k < |pages| && k + 1 < |bounds|
    && 0 <= bounds[k] <= bounds[k + 1] <= |matching|
    && pages[k] == matching[bounds[k]..bounds[k + 1]]
  }

  /** Adjacent windows laid end to end form a prefix of the rows. */
  lemma {:induction false} WindowsPrefix<T>(matching: seq<T>, bounds: seq<int>, pages: seq<seq<T>>)
    requires |bounds| == |pages| + 1 && bounds[0] == 0 && 0 <= bounds[|pages|] <= |matching|
    requires forall k :: 0 <= k < |pages| ==> WindowAt(matching, bounds, pages, k)
    ensures Concat(pages) == matching[..bounds[|pages|]]
  {
    var n := |pages|;
    if n > 0 {
      var init := pages[..n - 1];
      forall k | 0 <= k < |init| ensures WindowAt(matching, bounds[..n], init, k) {
        assert WindowAt(matching, bounds, pages, k);
      }
      assert WindowAt(matching, bounds, pages, n - 1);
      WindowsPrefix(matching, bounds[..n], init);
      AppendPage(matching, Concat(init), pages[n - 1], bounds[n - 1], bounds[n]);
    }
  }

  lemma AppendPage<T>(matching: seq<T>, before: seq<T>, page: seq<T>, lo: int, hi: int)
    requires 0 <= lo <= hi <= |matching|
    requires before == matching[..lo] && page == matching[lo..hi]
    ensures before + page == matching[..hi]
  {
  }

  /** The offsets where pages `1..n` start, and where the last one ends. */
  function Bounds(total: nat, limit: int, n: nat): seq<int> {
    seq(n + 1, k requires 0 <= k <= n => Min(k * limit, total))
  }

  /** The `k`-th and `k + 1`-th bounds, for a page in range. */
  lemma BoundsAt(total: nat, limit: int, k: nat)
    requires limit > 0 && k < CeilDiv(total, limit)
    ensures var b := Bounds(total, limit, CeilDiv(total, limit));
      && b[k] == k * limit <= b[k + 1] <= total
      && b[k + 1] == Min(k * limit + limit, total)
  {
    SkipInRange(total, limit, CeilDiv(total, limit), k + 1);
    assert (k + 1) * limit == k * limit + limit;
  }

  /** Page `k + 1`, as the engine serves it. */
  lemma PagesAt<T>(matching: seq<T>, limit: int, k: nat)
    requires limit > 0 && k < CeilDiv(|matching|, limit)
    ensures 0 <= k * limit <= |matching|
    ensures Pages(matching, limit, CeilDiv(|matching|, limit))[k] == matching[k * limit..Min(k * limit + limit, |matching|)]
  {
    PageDataInRange(matching, k, limit);
  }

  /** Page `k + 1` is the window between the `k`-th and `k + 1`-th bound. */
  lemma PageWindow<T>(matching: seq<T>, limit: int, k: nat)
    requires limit > 0 && k < CeilDiv(|matching|, limit)
    ensures var n := CeilDiv(|matching|, limit);
      WindowAt(matching, Bounds(|matching|, limit, n), Pages(matching, limit, n), k)
  {
    BoundsAt(|matching|, limit, k);
    PagesAt(matching, limit, k);
  }

  /** The pages `1..totalPages` partition the matching rows: concatenated in
      order they give back exactly the rows, each once. */
  lemma PagesPartition<T>(matching: seq<T>, limit: int)
    requires limit > 0
    ensures Concat(Pages(matching, limit, CeilDiv(|matching|, limit))) == matching
  {
    var n := CeilDiv(|matching|, limit);
    var bounds := Bounds(|matching|, limit, n);
    forall k | 0 <= k < n ensures WindowAt(matching, bounds, Pages(matching, limit, n), k) {
      PageWindow(matching, limit, k);
    }
    assert bounds[n] == |matching|;
    WindowsPrefix(matching, bounds, Pages(matching, limit, n));
  }

  /** Twenty-five rows, ten per page, page two: a full middle page. */
  lemma MiddlePageExample(matching: seq<int>, route: string)
    requires |matching| == 25 && |route| > 0
    ensures
      var r := Paginate(matching, PaginationOptions(Some(2), Some(10), Some(route)), None);
      && r.data == matching[10..20]
      && r.meta == Meta(10, 25, 10, 3, 2)
      && r.links.prev == Some(PageLink(route, 1, 10))
      && r.links.next == Some(PageLink(route, 3, 10))
  {
    var r := Paginate(matching, PaginationOptions(Some(2), Some(10), Some(route)), None);
    assert r.meta.totalPages == 3;
  }
}
