/**
  What happens to one inbound request once the mux has chosen the pattern
  it was registered under: `ProxyMap.handle` decides whether a prefix is
  stripped first (`http.StripPrefix`), `PathMap.ServeHTTP` trims the
  request-URI, and the proxy's `Rewrite` closure builds the outbound
  request toward the mapping's target.
 */
module Routing {
  import opened Wrappers
  import opened Strings
  import Paths
  import opened Urls
  import opened Mapping

  /**
    What `ProxyMap.handle` registers under a pattern: the mapping, by its
    position in the list of mappings, and the prefix `http.StripPrefix`
    removes before it, or None when the mapping is registered bare.
   */
  datatype Handler = Handler(strip: Option<string>, mapping: nat)

  /** The handler for `path`: bare for "/", behind a strip of `path` without its trailing slash otherwise. */
  function HandlerFor(path: string, mapping: nat): (h: Handler)
    ensures h.mapping == mapping
    ensures h.strip.None? <==> path == "/"
    ensures h.strip.Some? ==> h.strip.value == path || h.strip.value + "/" == path
  {
    if path == "/" then Handler(None, mapping)
    else Handler(Some(TrimSuffix(path, "/")), mapping)
  }

  /** The parts of an inbound request the proxy reads: the URL path, the raw query and the request-URI. */
  datatype Request = Request(path: string, rawQuery: string, requestURI: string)

  /**
    `http.StripPrefix(prefix, h)` on the decoded path (a request here has
    no `RawPath`): an empty prefix gives `h` itself;
    otherwise a request whose path loses something to the prefix reaches
    `h` with the shorter path, and any other request is answered 404
    (None) without reaching `h`.
   */
  function StripPrefix(prefix: string, r: Request): (out: Option<Request>)
    ensures prefix == "" ==> out == Some(r)
    ensures prefix != "" ==> (out.Some? <==> HasPrefix(r.path, prefix))
    ensures out.Some? ==> r.path == prefix + out.value.path
    ensures out.Some? ==> out.value.rawQuery == r.rawQuery && out.value.requestURI == r.requestURI
  {
    if prefix == "" then Some(r)
    else
      var p := TrimPrefix(r.path, prefix);
      if |p| < |r.path| then Some(r.(path := p)) else None
  }

  /** `PathMap.ServeHTTP`: the mapping's path is taken off the front of the request-URI, and nothing else changes. */
  function TrimRequestURI(m: PathMap, r: Request): (out: Request)
    ensures out.path == r.path && out.rawQuery == r.rawQuery
    ensures HasPrefix(r.requestURI, m.path) ==> r.requestURI == m.path + out.requestURI
    ensures !HasPrefix(r.requestURI, m.path) ==> out.requestURI == r.requestURI
  {
    r.(requestURI := TrimPrefix(r.requestURI, m.path))
  }

  /** The outbound request: its Host header, its URL and its request-URI. */
  datatype OutRequest = OutRequest(host: string, url: Url, requestURI: string)

  /** `url.JoinPath(base, elem)`: parse `base`, join `elem` onto its path, and print the URL, with no escape decoded or added. */
  function JoinPath(base: string, elem: string): Result<string, UrlError>
  {
    match Parse(base)
    case Err(e) => Err(e)
    case Ok(u) => Ok(UrlString(u.(path := Paths.JoinUrlPath(u.path, elem))))
  }

  /** A base that parses as nothing but a rooted path joins by `URL.JoinPath`'s path rule alone. */
  lemma JoinPathPlain(base: string, elem: string)
    requires IsPlainPath(base)
    ensures JoinPath(base, elem) == Ok(Paths.JoinUrlPath(base, elem))
  {
    ParsePlainPath(base);
    Paths.JoinUrlPathShape(base, elem);
    PathOnlyString(Paths.JoinUrlPath(base, elem));
  }

  /**
    The `Rewrite` closure of the proxy built for a mapping with target
    `target`: Host and URL take the target's scheme, userinfo and host;
    the path is the target path joined with the inbound path (empty when
    the join fails); the query is passed through; the request-URI is the
    new URL's. No path is escaped, so the code's second escaping of the
    joined path in `RequestURI` does not appear here.
   */
  function Rewrite(target: Url, r: Request): OutRequest
  {
    var path := match JoinPath(target.path, r.path) case Ok(p) => p case Err(_) => "";
    var url := Url(target.scheme, "", target.user, target.host, path, r.rawQuery, "");
    OutRequest(target.host, url, RequestURI(url))
  }

  /**
    The rewritten request goes to the target's origin, so it is served by
    the transport pooled under the target's origin key, and it carries the
    inbound query unchanged.
   */
  lemma RewriteOrigin(target: Url, r: Request)
    ensures var out := Rewrite(target, r);
      && out.host == target.host
      && Origin(out.url) == Origin(target)
      && OriginKey(out.url) == OriginKey(target)
      && out.url.rawQuery == r.rawQuery
      && out.url.fragment == "" && out.url.rootless == ""
  {
  }

  /**
    For a target path that parses as a plain path, the outbound path is
    `URL.JoinPath`'s join of the target path and the inbound path: rooted,
    with no empty name, cleaning to the clean form of the two joined by a
    slash, and ending in a slash exactly when the inbound path does (or
    when it is "/"); the request-URI is that path followed by the query.
   */
  lemma RewritePath(target: Url, r: Request)
    requires IsPlainPath(target.path)
    ensures var out := Rewrite(target, r);
      && out.url.path == Paths.JoinUrlPath(target.path, r.path)
      && Paths.IsRooted(out.url.path)
      && Paths.NoDoubleSlash(out.url.path)
      && Paths.Clean(out.url.path) == Paths.Clean(target.path + "/" + r.path)
      && (HasSuffix(out.url.path, "/") <==> HasSuffix(r.path, "/") || out.url.path == "/")
      && out.requestURI == out.url.path + (if r.rawQuery == "" then "" else "?" + r.rawQuery)
  {
    JoinPathPlain(target.path, r.path);
    Paths.JoinUrlPathShape(target.path, r.path);
  }

  /**
    A request dispatched to a registered handler `h` of mapping `m`: the
    strip (404 when it fails), then `PathMap.ServeHTTP`, then the rewrite.
   */
  function Dispatch(h: Handler, m: PathMap, r: Request): Option<OutRequest>
  {
    var stripped := match h.strip case None => Some(r) case Some(prefix) => StripPrefix(prefix, r);
    match stripped
    case None => None
    case Some(r2) => Some(Rewrite(m.target, TrimRequestURI(m, r2)))
  }

  /**
    End to end, for the handler registered under `path`: under "/" every
    request is forwarded with its whole path; under any other path a
    request is forwarded exactly when its path starts with `path` less its
    trailing slash, and then with that prefix removed before the join.
    Every forwarded request goes to the target's origin with the inbound
    query.
   */
  lemma DispatchRoute(path: string, i: nat, m: PathMap, r: Request)
    requires IsPlainPath(m.target.path)
    ensures var out := Dispatch(HandlerFor(path, i), m, r);
      var prefix := if path == "/" then "" else TrimSuffix(path, "/");
      && (out.Some? <==> HasPrefix(r.path, prefix))
      && (out.Some? ==>
            && out.value.url.path == Paths.JoinUrlPath(m.target.path, r.path[|prefix|..])
            && Origin(out.value.url) == Origin(m.target)
            && out.value.host == m.target.host
            && out.value.url.rawQuery == r.rawQuery)
  {
    var h := HandlerFor(path, i);
    var prefix := if path == "/" then "" else TrimSuffix(path, "/");
    var stripped := match h.strip case None => Some(r) case Some(p) => StripPrefix(p, r);
    if stripped.Some? {
      var r2 := TrimRequestURI(m, stripped.value);
      assert r2.path == r.path[|prefix|..];
      RewritePath(m.target, r2);
      RewriteOrigin(m.target, r2);
    }
  }

  /**
    The request-URI trim in `PathMap.ServeHTTP` never shows in the
    outbound request: the rewrite sets the outbound request-URI from the
    new URL, so two requests that differ only in their request-URI are
    forwarded identically.
   */
  lemma DispatchIgnoresRequestURI(h: Handler, m: PathMap, r: Request, uri: string)
    ensures Dispatch(h, m, r) == Dispatch(h, m, r.(requestURI := uri))
  {
  }
}
