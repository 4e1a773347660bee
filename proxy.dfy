/**
 * The two callbacks `serve-with-cookies.js` hands to the proxy:
 * `proxyReqPathResolver`, which picks the upstream path of a request, and
 * `userResHeaderDecorator`, which pins a freshly assigned variant with a cookie.
 * `Math.random() <= 0.5` is the parameter `coin`.
 */
module Proxy {
  import opened Wrappers
  import opened Rewrites
  import opened Cookies

  const SET_COOKIE: string := "Set-Cookie"

  /** The parts of an inbound request the resolver reads: `req.url`, `req.originalUrl`, `req.cookies`. */
  datatype Request = Request(url: Path, originalUrl: Path, cookies: map<string, string>)

  /** `req.cookies["ab-test-variant"]`. */
  function VariantCookie(req: Request): (v: Option<string>)
    ensures v.Some? <==> COOKIE_NAME in req.cookies
    ensures v.Some? ==> v.value == req.cookies[COOKIE_NAME]
  {
    if COOKIE_NAME in req.cookies then Some(req.cookies[COOKIE_NAME]) else None
  }

  /** JavaScript truthiness of a string that may be `undefined`: only `undefined` and `""` are falsy. */
  predicate Truthy(v: Option<string>): (b: bool)
    ensures b <==> v != None && v != Some("")
  {
    v.Some? && v.value != ""
  }

  /** The variant key in force for a request: read from the cookie, or freshly drawn. */
  datatype Selection = Sticky(key: VariantKey) | Fresh(key: VariantKey)

  /** A truthy cookie value is taken as is; otherwise the coin draws "a" (true) or "b". */
  function SelectVariant(cookie: Option<string>, coin: bool): (s: Selection)
    ensures s.Fresh? <==> !Truthy(cookie)
    ensures s.Sticky? ==> s.key == cookie.value
    ensures s.Fresh? ==> (s.key == "a" || s.key == "b") && (s.key == "a" <==> coin)
  {
    if Truthy(cookie) then Sticky(cookie.value)
    else Fresh(if coin then "a" else "b")
  }

  /**
   * What the resolver returns (`None` is `undefined`) and what it leaves in
   * `req.variant` (`None` when it does not set it).
   */
  datatype Resolution = Resolution(path: Option<Path>, variant: Option<VariantKey>)

  /** `proxyReqPathResolver`, with `req.variant` returned alongside the path. */
  function ResolvePath(table: map<Path, Config>, req: Request, coin: bool): (r: Resolution)
    ensures req.url !in table ==> r == Resolution(Some(req.originalUrl), None)
    ensures req.url in table && Truthy(VariantCookie(req)) ==>
      r.variant == None && r.path == Lookup(table[req.url], VariantCookie(req).value)
    ensures req.url in table && !Truthy(VariantCookie(req)) ==>
      && r.variant.Some? && (r.variant.value == "a" || r.variant.value == "b")
      && (r.variant.value == "a" <==> coin)
      && r.path == Lookup(table[req.url], r.variant.value)
    ensures r.path == None <==>
      req.url in table && forall i :: 0 <= i < |table[req.url]| ==> table[req.url][i].0 != SelectVariant(VariantCookie(req), coin).key
  {
    if req.url !in table then Resolution(Some(req.originalUrl), None)
    else
      var selection := SelectVariant(VariantCookie(req), coin);
      var variant := if selection.Fresh? then Some(selection.key) else None;
      Resolution(Lookup(table[req.url], selection.key), variant)
  }

  /** `userResHeaderDecorator`: the response headers after decoration. */
  function DecorateHeaders(headers: map<string, string>, variant: Option<VariantKey>): (r: map<string, string>)
    ensures Truthy(variant) ==> SET_COOKIE in r && r[SET_COOKIE] == SetCookieHeader(variant.value)
    ensures !Truthy(variant) ==> r == headers
    ensures forall k :: k != SET_COOKIE ==> (k in r <==> k in headers)
    ensures forall k :: k != SET_COOKIE && k in r ==> r[k] == headers[k]
  {
    if Truthy(variant) then headers[SET_COOKIE := SetCookieHeader(variant.value)] else headers
  }

  /**
   * A fresh assignment sticks: the first request, sent without a truthy cookie, is
   * answered with a cookie holding the drawn key, and a later request carrying
   * that cookie, for the same path or any path mapped to the same config, goes
   * to the same upstream path and gets no new cookie, whatever its coin.
   */
  lemma StickyAssignment(table: map<Path, Config>, first: Request, next: Request, coin: bool, nextCoin: bool,
                         headers: map<string, string>, nextHeaders: map<string, string>)
    requires first.url in table && !Truthy(VariantCookie(first))
    requires next.url in table && table[next.url] == table[first.url]
    ensures
      var r := ResolvePath(table, first, coin);
      && r.variant.Some?
      && SET_COOKIE in DecorateHeaders(headers, r.variant)
      && var stored := CookiePair(DecorateHeaders(headers, r.variant)[SET_COOKIE]);
      && stored == Some((COOKIE_NAME, r.variant.value))
      && var r' := ResolvePath(table, next.(cookies := next.cookies[COOKIE_NAME := stored.value.1]), nextCoin);
      && r'.path == r.path
      && r'.variant == None
      && DecorateHeaders(nextHeaders, r'.variant) == nextHeaders
  {
    var r := ResolvePath(table, first, coin);
    SetCookieRoundTrip(r.variant.value);
  }

  /**
   * Under the builder's input constraint, after expansion a request for a
   * canonical path and a request for any of its variant paths resolve alike:
   * same upstream path, same assignment.
   */
  lemma SiblingPathsResolveAlike(s: Entries, m: map<Path, Config>, i: int, to: Path, req: Request, coin: bool)
    requires SnapshotOf(s, m) && Disjoint(s)
    requires 0 <= i < |s| && to in Values(s[i].1)
    ensures
      var table := Expand(s, m);
      ResolvePath(table, req.(url := to), coin) == ResolvePath(table, req.(url := s[i].0), coin)
  {
    ExpandSymmetric(s, m);
  }
}
