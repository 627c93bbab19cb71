/** The per-request context, with the ambient request passed explicitly:
    `None` means no request is in flight. */
module RequestContext {
  import opened Wrappers
  import opened Text
  import Paginate

  /** The parts of an HTTP request the context reads. `host` is the `Host`
      header, which may be absent. */
  datatype Request = Request(protocol: string, host: Option<string>, originalUrl: string, path: string)

  /** `getPath`: the request's path, or null outside a request. */
  function GetPath(req: Option<Request>): (r: Option<string>)
    ensures r.Some? <==> req.Some?
    ensures r.Some? ==> r.value == req.value.path
  {
    match req
    case None => None
    case Some(q) => Some(q.path)
  }

  /** `getUrl`: scheme, host and path of the current request with the query
      string dropped; null outside a request or without a (non-empty) host. */
  function GetUrl(req: Option<Request>): (r: Option<string>)
    ensures r.Some? <==> req.Some? && req.value.host.Some? && |req.value.host.value| > 0
    ensures r.Some? ==>
      var q := req.value;
      exists p ::
        && r.value == q.protocol + "://" + q.host.value + p
        && |p| <= |q.originalUrl| && p == q.originalUrl[..|p|]
        && '?' !in p
        && (|p| < |q.originalUrl| ==> q.originalUrl[|p|] == '?')
    ensures r.Some? && '?' !in req.value.originalUrl ==>
      r.value == req.value.protocol + "://" + req.value.host.value + req.value.originalUrl
  {
    match req
    case None => None
    case Some(q) =>
      var originalPath := BeforeFirst(q.originalUrl, '?');
      if q.host.Some? && |q.host.value| > 0 then
        Some(q.protocol + "://" + q.host.value + originalPath)
      else None
  }

  /** A URL taken from the request never carries a query string, so when the
      scheme and host have no `?`, pagination links built on it start their
      query with `?`. */
  lemma RequestUrlLinksUseQuestionMark(req: Option<Request>, page: int, limit: int)
    requires GetUrl(req).Some?
    requires '?' !in req.value.protocol && '?' !in req.value.host.value
    ensures Paginate.Separator(GetUrl(req).value) == '?'
    ensures Paginate.PageLink(GetUrl(req).value, page, limit) ==
      GetUrl(req).value + "?page=" + IntToString(page) + "&limit=" + IntToString(limit)
  {
    var q := req.value;
    var p := BeforeFirst(q.originalUrl, '?');
    var u := q.protocol + "://" + q.host.value + p;
    assert GetUrl(req).value == u;
    assert "://" == [':', '/', '/'];
    assert '?' !in q.protocol + "://" + q.host.value;
    assert '?' !in u;
  }
}
