/** The router: it normalises the request URI once, keeps the routes in the
    order they were added, and on every lookup appends a catch-all route
    built from the configured default routing pattern before asking each
    route in turn whether it matches. The first matching route resolves the
    controller, the method and the arguments. */
module Router {

  import opened Results
  import opened PhpStrings
  import RouterConfig
  import Route

  datatype Router = Router(
    config: RouterConfig.Config,
    /** The request URI with the mount path removed. */
    uri: string,
    routes: seq<Route.Route>
  )

  // ---------------------------------------------------------------------------
  // getURI()

  /** The URI before the mount path is removed: the given one, or the
      server's when none is given, trimmed of `/` on both ends and
      lower-cased. */
  function Normalised(requestUri: string, serverUri: string): (t: string)
    ensures IsLower(t)
    ensures Unframed(t, Sep)
  {
    var src := if |requestUri| == 0 then serverUri else requestUri;
    var trimmed := Trim(src, Sep);
    LowerKeepsEnds(trimmed);
    Lower(trimmed)
  }

  /** The form every URI the router keeps has: lower-case, and not
      starting with `/`. */
  predicate CleanUri(u: string) {
    IsLower(u) && (u == [] || u[0] != Sep)
  }

  /** `getURI($requestURI)`, with the server's request URI as the
      parameter `serverUri` (it is used only when `requestUri` is empty):
      the normalised URI loses the first occurrence of the lower-cased
      mount path and then any leading `/`. The result is lower-case and
      does not start with `/`. */
  function GetUri(cfg: RouterConfig.Config, requestUri: string, serverUri: string): (u: string)
    ensures CleanUri(u)
  {
    var t := Normalised(requestUri, serverUri);
    var m := Lower(cfg.path);
    var cut := RemoveFirst(t, m);
    RemoveFirstLower(t, m);
    var u := LTrim(cut, Sep);
    LowerSuffix(cut, |cut| - |u|);
    u
  }

  /** A URI that starts with the mount path keeps what follows it, without
      leading `/`: under the mount path `Portfolio`, the URI
      `/Portfolio/A/B/C/` becomes `a/b/c`. */
  lemma GetUriAfterMount(cfg: RouterConfig.Config, requestUri: string, serverUri: string)
    requires OccursAt(Normalised(requestUri, serverUri), Lower(cfg.path), 0)
    ensures GetUri(cfg, requestUri, serverUri) == LTrim(Normalised(requestUri, serverUri)[|cfg.path|..], Sep)
  {
    var t, m := Normalised(requestUri, serverUri), Lower(cfg.path);
    assert FirstAt(t, m, 0);
    assert t[..0] == [];
    assert RemoveFirst(t, m) == t[|m|..];
  }

  /** Wherever the mount path first occurs in the normalised URI, at the
      front or not, that one occurrence is cut out before the leading `/`
      are dropped; later occurrences stay. */
  lemma GetUriCutsFirst(cfg: RouterConfig.Config, requestUri: string, serverUri: string, k: nat)
    requires FirstAt(Normalised(requestUri, serverUri), Lower(cfg.path), k)
    ensures var t := Normalised(requestUri, serverUri);
            GetUri(cfg, requestUri, serverUri) == LTrim(t[..k] + t[k + |cfg.path|..], Sep)
  {
  }

  /** A URI in which the mount path does not occur is only normalised. */
  lemma GetUriWithoutMount(cfg: RouterConfig.Config, requestUri: string, serverUri: string)
    requires forall k: nat :: !OccursAt(Normalised(requestUri, serverUri), Lower(cfg.path), k)
    ensures GetUri(cfg, requestUri, serverUri) == Normalised(requestUri, serverUri)
  {
    var t, m := Normalised(requestUri, serverUri), Lower(cfg.path);
    assert RemoveFirst(t, m) == t;
  }

  /** The constructor: no routes yet, and the URI normalised once. */
  function NewRouter(cfg: RouterConfig.Config, requestUri: string, serverUri: string): (rt: Router)
    ensures rt.routes == []
    ensures rt.config == cfg
    ensures CleanUri(rt.uri)
  {
    Router(cfg, GetUri(cfg, requestUri, serverUri), [])
  }

  /** `add($route)`: the route goes to the end, after every route added
      before it, which keep their order. */
  function Add(rt: Router, route: Route.Route): (r: Router)
    ensures |r.routes| == |rt.routes| + 1 && r.routes[|rt.routes|] == route
    ensures r.routes[..|rt.routes|] == rt.routes
    ensures r.config == rt.config && r.uri == rt.uri
  {
    rt.(routes := rt.routes + [route])
  }

  // ---------------------------------------------------------------------------
  // getRoute()

  /** The catch-all route `getRoute` appends: the path `{*}` with the
      configured default routing pattern. It matches every URI, so a
      lookup always ends on a route. */
  function Fallback(cfg: RouterConfig.Config): (r: Route.Route)
    ensures forall uri :: Route.Matches(r, uri) && Route.MatchesIntended(r, uri)
  {
    var r := Route.NewRoute(Route.Wildcard, cfg.defaultRoutingPattern);
    forall uri ensures Route.Matches(r, uri) && Route.MatchesIntended(r, uri) {
      Route.WildcardPathMatchesAll(cfg.defaultRoutingPattern, uri);
    }
    r
  }

  /** The index of the first route `accepts` accepts, if any. */
  function FirstMatch(routes: seq<Route.Route>, accepts: Route.Route -> bool): (i: Option<nat>)
    ensures i.Some? ==> i.value < |routes| && accepts(routes[i.value])
                        && forall j :: 0 <= j < i.value ==> !accepts(routes[j])
    ensures i.None? ==> forall j :: 0 <= j < |routes| ==> !accepts(routes[j])
  {
    if |routes| == 0 then None
    else if accepts(routes[0]) then Some(0)
    else
      match FirstMatch(routes[1..], accepts)
      case None => None
      case Some(k) => Some(k + 1)
  }

  /** The route `getRoute` resolves with: the first of the routes, the
      fallback appended, whose path `accepts` the URI. */
  function Chosen(rt: Router, accepts: Route.Route -> bool): (r: Route.Route)
    requires accepts(Fallback(rt.config))
    ensures r in rt.routes || r == Fallback(rt.config)
    ensures accepts(r)
  {
    var routes := rt.routes + [Fallback(rt.config)];
    assert routes[|rt.routes|] == Fallback(rt.config);
    match FirstMatch(routes, accepts)
    case Some(i) => routes[i]
    case None => assert false; Fallback(rt.config)
  }

  /** The first added route that `accepts` the URI is the one chosen, and
      when none does the fallback is. */
  lemma ChosenIsFirst(rt: Router, accepts: Route.Route -> bool, i: nat)
    requires accepts(Fallback(rt.config))
    requires i <= |rt.routes|
    requires i < |rt.routes| ==> accepts(rt.routes[i])
    requires forall j :: 0 <= j < i ==> !accepts(rt.routes[j])
    ensures Chosen(rt, accepts) == (rt.routes + [Fallback(rt.config)])[i]
  {
    var routes := rt.routes + [Fallback(rt.config)];
    assert routes[|rt.routes|] == Fallback(rt.config);
    assert forall j :: 0 <= j < |rt.routes| ==> routes[j] == rt.routes[j];
    assert accepts(routes[i]);
  }

  /** The index of the first route, the fallback appended, that `accepts`
      the URI: an added route, or the fallback's index. */
  lemma FirstAccepted(rt: Router, accepts: Route.Route -> bool) returns (i: nat)
    requires accepts(Fallback(rt.config))
    ensures i <= |rt.routes|
    ensures i < |rt.routes| ==> accepts(rt.routes[i])
    ensures forall j :: 0 <= j < i ==> !accepts(rt.routes[j])
  {
    var routes := rt.routes + [Fallback(rt.config)];
    assert routes[|rt.routes|] == Fallback(rt.config);
    assert forall j :: 0 <= j < |rt.routes| ==> routes[j] == rt.routes[j];
    var k := FirstMatch(routes, accepts);
    i := k.value;
  }

  /** `getRoute()`: appends the catch-all route (on every call, so the
      router that comes back has one more route), then resolves the URI
      with the first route whose path matches it. The fallback's path
      `{*}` matches every URI, so the outcome is never PHP's `null`. */
  function GetRoute(rt: Router): (res: (Router, Option<Result<Route.DispatchRequest, Route.RouteError>>))
    ensures res.0 == Add(rt, Fallback(rt.config))
    ensures res.1.Some?
  {
    Route.WildcardPathMatchesAll(rt.config.defaultRoutingPattern, rt.uri);
    var route := Chosen(rt, r => Route.Matches(r, rt.uri));
    (Add(rt, Fallback(rt.config)), Some(Route.Resolve(route, rt.uri, rt.config)))
  }

  /** `GetRoute` resolves with the first matching added route, or with the
      fallback when no added route matches. */
  lemma GetRouteFirstMatch(rt: Router, i: nat)
    requires i <= |rt.routes|
    requires i < |rt.routes| ==> Route.Matches(rt.routes[i], rt.uri)
    requires forall j :: 0 <= j < i ==> !Route.Matches(rt.routes[j], rt.uri)
    ensures GetRoute(rt).1 == Some(Route.Resolve((rt.routes + [Fallback(rt.config)])[i], rt.uri, rt.config))
  {
    var accepts := r => Route.Matches(r, rt.uri);
    Route.WildcardPathMatchesAll(rt.config.defaultRoutingPattern, rt.uri);
    ChosenIsFirst(rt, accepts, i);
  }

  /** `getRoute()` with the intended `matches` and `getMethod`. */
  function GetRouteIntended(rt: Router): (res: (Router, Option<Result<Route.DispatchRequest, Route.RouteError>>))
    ensures res.0 == Add(rt, Fallback(rt.config))
    ensures res.1.Some?
  {
    Route.WildcardPathMatchesAll(rt.config.defaultRoutingPattern, rt.uri);
    var route := Chosen(rt, r => Route.MatchesIntended(r, rt.uri));
    (Add(rt, Fallback(rt.config)), Some(Route.ResolveIntended(route, rt.uri, rt.config)))
  }

  /** `GetRouteIntended` resolves with the first added route that matches
      under the intended `matches`, or with the fallback when none does. */
  lemma GetRouteIntendedFirstMatch(rt: Router, i: nat)
    requires i <= |rt.routes|
    requires i < |rt.routes| ==> Route.MatchesIntended(rt.routes[i], rt.uri)
    requires forall j :: 0 <= j < i ==> !Route.MatchesIntended(rt.routes[j], rt.uri)
    ensures GetRouteIntended(rt).1
            == Some(Route.ResolveIntended((rt.routes + [Fallback(rt.config)])[i], rt.uri, rt.config))
  {
    var accepts := r => Route.MatchesIntended(r, rt.uri);
    Route.WildcardPathMatchesAll(rt.config.defaultRoutingPattern, rt.uri);
    ChosenIsFirst(rt, accepts, i);
  }

  /** Asking again gives the same answer: the second lookup sees one more
      fallback route, after the first one, which every URI already
      matched. */
  lemma GetRouteRepeat(rt: Router)
    ensures GetRoute(GetRoute(rt).0).1 == GetRoute(rt).1
  {
    var accepts := r => Route.Matches(r, rt.uri);
    Route.WildcardPathMatchesAll(rt.config.defaultRoutingPattern, rt.uri);
    var i := FirstAccepted(rt, accepts);
    var next := GetRoute(rt).0;
    GetRouteFirstMatch(rt, i);
    assert (next.routes + [Fallback(rt.config)])[i] == (rt.routes + [Fallback(rt.config)])[i];
    GetRouteFirstMatch(next, i);
  }

  /** Routes added after one that matches the URI do not change the
      outcome: the earlier route still wins. */
  lemma AddAfterMatch(rt: Router, route: Route.Route, k: nat)
    requires k < |rt.routes| && Route.Matches(rt.routes[k], rt.uri)
    ensures GetRoute(Add(rt, route)).1 == GetRoute(rt).1
  {
    var accepts := r => Route.Matches(r, rt.uri);
    Route.WildcardPathMatchesAll(rt.config.defaultRoutingPattern, rt.uri);
    var i := FirstAccepted(rt, accepts);
    assert i <= k;
    var next := Add(rt, route);
    GetRouteFirstMatch(rt, i);
    assert (next.routes + [Fallback(rt.config)])[i] == (rt.routes + [Fallback(rt.config)])[i];
    GetRouteFirstMatch(next, i);
  }

  /** A router with no routes of its own resolves every URI with the
      fallback route, that is, with the configured default routing
      pattern. */
  lemma FreshRouterUsesFallback(cfg: RouterConfig.Config, requestUri: string, serverUri: string)
    ensures var rt := NewRouter(cfg, requestUri, serverUri);
            GetRoute(rt).1 == Some(Route.Resolve(Fallback(cfg), rt.uri, cfg))
  {
    var rt := NewRouter(cfg, requestUri, serverUri);
    GetRouteFirstMatch(rt, 0);
    assert (rt.routes + [Fallback(cfg)])[0] == Fallback(cfg);
  }
}
