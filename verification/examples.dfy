/** The routing patterns the framework documents, resolved in general: each
    lemma fixes the segments of a pattern and states what every URI with
    enough segments resolves to. */
module Scenarios {

  import opened Results
  import opened PhpStrings
  import RouterConfig
  import Route
  import Router

  /** `{0}/{controller}/{method}/{args}`: the first URI segment is ignored,
      the next two name the controller and the method, and the rest are
      the arguments (so `blog/a/b/c` gives `a`, `b` and `[c]`). */
  lemma IgnoredFirstSegment(r: Route.Route, uri: string, cfg: RouterConfig.Config)
    requires Split(r.pattern) == [Route.Ignore, Route.ControllerToken, Route.MethodToken, Route.ArgsToken]
    requires |Split(uri)| >= 3 && Split(uri)[0] != ""
    ensures var S := Split(uri);
            Route.Resolve(r, uri, cfg) == Ok(Route.DispatchRequest(S[1], S[2], Route.Drop(S, 3)))
  {
    Route.TokenLiterals();
    var P, S := Split(r.pattern), Split(uri);
    assert Route.UriSegments(uri) == S;
    assert Route.Skip(P, 0) == 1 by {
      assert Route.Skip(P, 1) == 1;
    }
    assert Route.GetController(r, uri, cfg) == Ok(Route.Resolved(S[1], 1));
    assert Route.GetMethod(r, uri, cfg, 1) == Ok(Route.Resolved(S[2], 2)) by {
      assert Route.MethodFrom(P, S, cfg.defaultMethod, 1, 1) == Ok(Route.Resolved(S[2], 2));
    }
    assert Route.GetArgs(r, uri, 2) == Route.Drop(S, 3) by {
      var rest := Route.Drop(P, 3);
      assert rest == [Route.ArgsToken];
      Route.GetArgsSingle(r, uri, 2, 0);
      assert rest[..0] == [] && rest[1..] == [];
      assert [] + (Route.Drop(S, 3) + []) == Route.Drop(S, 3);
    }
  }

  /** The arguments under a three-segment pattern ending in `{args}`
      (such as `c/{method}/{args}`), after a method found at index 1: the
      URI from index 2 on. */
  lemma ThirdSegmentArgs(r: Route.Route, uri: string)
    requires |Split(r.pattern)| == 3 && Split(r.pattern)[2] == Route.ArgsToken
    ensures Route.GetArgs(r, uri, 1) == Route.Drop(Split(uri), 2)
  {
    var P, S := Split(r.pattern), Split(uri);
    var rest := Route.Drop(P, 2);
    assert rest == [Route.ArgsToken];
    Route.GetArgsSingle(r, uri, 1, 0);
    assert Route.Literals(rest[..0]) == [] by {
      assert rest[..0] == [];
    }
    assert Route.Literals(rest[1..]) == [] by {
      assert rest[1..] == [];
    }
    assert [] + (Route.Drop(S, 2) + []) == Route.Drop(S, 2);
  }

  /** The arguments under the same pattern when the method was defaulted:
      nothing is shifted off, so the literal controller comes first. */
  lemma LiteralControllerArgsDefaulted(r: Route.Route, uri: string, c: string)
    requires Split(r.pattern) == [c, Route.MethodToken, Route.ArgsToken] && !Route.IsToken(c)
    ensures Route.GetArgs(r, uri, -1) == [c] + Route.Drop(Split(uri), 2)
  {
    var P, S := Split(r.pattern), Split(uri);
    assert Route.IsToken(Route.MethodToken) && c != Route.ArgsToken by {
      Route.TokenLiterals();
    }
    assert Route.GetArgs(r, uri, -1) == Route.ArgsFrom(P, S, 0) by {
      assert Route.Drop(P, 0) == P && Route.Drop(S, 0) == S;
    }
    Route.ArgsFromStep(P, S, 0);
    Route.ArgsFromStep(P, S, 1);
    assert P[3..] == [];
    Route.ArgsAtToken(P, S, 2);
    assert Route.Drop(S, 2) + [] == Route.Drop(S, 2);
  }

  /** `blog_controller/{method}/{args}`: a literal controller at index 0,
      the method from the second URI segment and the arguments from the
      third segment on. When the URI has no second segment the method is
      the default, nothing is shifted off the pattern, and the literal
      controller name itself becomes the first argument. */
  lemma LiteralController(r: Route.Route, uri: string, cfg: RouterConfig.Config, c: string)
    requires Split(r.pattern) == [c, Route.MethodToken, Route.ArgsToken] && !Route.IsToken(c)
    ensures var S := Split(uri);
            Route.Resolve(r, uri, cfg) == Ok(
              if S[0] != "" && |S| > 1 then Route.DispatchRequest(c, S[1], Route.Drop(S, 2))
              else Route.DispatchRequest(c, cfg.defaultMethod, [c] + Route.Drop(S, 2)))
  {
    var P, S := Split(r.pattern), Split(uri);
    var found := S[0] != "" && |S| > 1;
    assert Route.GetController(r, uri, cfg) == Ok(Route.Resolved(c, 0)) by {
      Route.TokenLiterals();
      assert Route.ControllerToken !in P;
      assert Route.Skip(P, 0) == 0;
    }
    if found {
      assert Route.GetMethod(r, uri, cfg, 0) == Ok(Route.Resolved(S[1], 1)) by {
        Route.TokenLiterals();
        assert Route.UriSegments(uri) == S;
        assert Route.Skip(P, 1) == 1;
      }
      ThirdSegmentArgs(r, uri);
    } else {
      assert Route.GetMethod(r, uri, cfg, 0) == Ok(Route.Resolved(cfg.defaultMethod, -1)) by {
        Route.TokenLiterals();
        assert |Route.UriSegments(uri)| <= 1;
        assert Route.Skip(P, 1) == 1;
      }
      LiteralControllerArgsDefaulted(r, uri, c);
    }
  }

  /** `c/m/{args}` with a literal controller and a literal method (such as
      `blog/view/{args}`): whatever the URI, the controller is `c`, the
      method `m`, and the arguments are the URI segments from the third on
      (so `blog/view/5/comments` gives `[5, comments]`). */
  lemma LiteralControllerAndMethod(r: Route.Route, uri: string, cfg: RouterConfig.Config, c: string, m: string)
    requires Split(r.pattern) == [c, m, Route.ArgsToken] && !Route.IsToken(c) && !Route.IsToken(m)
    ensures Route.Resolve(r, uri, cfg) == Ok(Route.DispatchRequest(c, m, Route.Drop(Split(uri), 2)))
  {
    var P := Split(r.pattern);
    assert Route.ControllerToken !in P && Route.MethodToken !in P by {
      Route.TokenLiterals();
    }
    assert Route.GetController(r, uri, cfg) == Ok(Route.Resolved(c, 0)) by {
      assert Route.Skip(P, 0) == 0;
    }
    assert Route.GetMethod(r, uri, cfg, 0) == Ok(Route.Resolved(m, 1)) by {
      assert Route.Skip(P, 1) == 1;
    }
    ThirdSegmentArgs(r, uri);
  }

  /** A literal controller together with a `{controller}` token (as in
      `foo/{controller}`) is a configuration error, whatever the URI. */
  lemma ControllerConflictRejected(r: Route.Route, uri: string, cfg: RouterConfig.Config)
    requires var P := Split(r.pattern);
             !Route.IsToken(P[0]) && Route.ControllerToken in P
    ensures Route.Resolve(r, uri, cfg) == Err(Route.ControllerConflict)
  {
    Route.TokenLiterals();
    var P := Split(r.pattern);
    assert Route.Skip(P, 0) == 0;
  }

  /** The shipped default routing pattern is already lower-case. */
  lemma ShippedPatternLower()
    ensures Lower(RouterConfig.Shipped.defaultRoutingPattern) == RouterConfig.Shipped.defaultRoutingPattern
  {
    LowerOfLower(RouterConfig.Shipped.defaultRoutingPattern);
  }

  /** The shipped default routing pattern splits into `{controller}`,
      `{method}` and `{args}`. */
  lemma ShippedPatternSplit()
    ensures Split(RouterConfig.Shipped.defaultRoutingPattern)
            == [Route.ControllerToken, Route.MethodToken, Route.ArgsToken]
  {
    var parts := [Route.ControllerToken, Route.MethodToken, Route.ArgsToken];
    assert Join(parts[1..]) == Route.MethodToken + [Sep] + Join(parts[2..]);
    assert Join(parts[2..]) == Route.ArgsToken;
    assert RouterConfig.Shipped.defaultRoutingPattern == Join(parts);
    SplitJoin(parts);
  }

  /** The shipped fallback route uses the default pattern. */
  lemma ShippedPatternSegments()
    ensures Route.IsDefaultPattern(Router.Fallback(RouterConfig.Shipped))
  {
    ShippedPatternLower();
    ShippedPatternSplit();
  }

  /** With the shipped configuration and no routes of its own, the router
      reads the controller from the first URI segment, the method from the
      second and the arguments from the rest, with `controller` and `index`
      standing in for what is missing. */
  lemma ShippedRouterDefaults(requestUri: string, serverUri: string)
    ensures var rt := Router.NewRouter(RouterConfig.Shipped, requestUri, serverUri);
            var S := Split(rt.uri);
            Router.GetRoute(rt).1 == Some(Ok(Route.DispatchRequest(
              if S[0] == "" then "controller" else S[0],
              if S[0] != "" && |S| > 1 then S[1] else "index",
              Route.Drop(S, 2))))
  {
    var cfg := RouterConfig.Shipped;
    var rt := Router.NewRouter(cfg, requestUri, serverUri);
    Router.FreshRouterUsesFallback(cfg, requestUri, serverUri);
    ShippedPatternSegments();
    Route.DefaultPatternResolution(Router.Fallback(cfg), rt.uri, cfg);
  }

  /** The mount path is stripped: under a mount path `p` (such as
      `Portfolio`), the URI `/p/rest/` (such as `/Portfolio/A/B/C/`)
      becomes `rest`, lower-cased (`a/b/c`). */
  lemma MountPathStripped(cfg: RouterConfig.Config, rest: string, serverUri: string)
    requires cfg.path != "" && cfg.path[0] != Sep && Sep !in cfg.path
    requires rest != "" && rest[0] != Sep && rest[|rest| - 1] != Sep
    ensures Router.GetUri(cfg, [Sep] + cfg.path + [Sep] + rest + [Sep], serverUri) == Lower(rest)
  {
    var given := [Sep] + cfg.path + [Sep] + rest + [Sep];
    var m, lowRest := Lower(cfg.path), Lower(rest);
    MountedNormalised(cfg.path, rest, serverUri);
    var t := Router.Normalised(given, serverUri);
    assert OccursAt(t, m, 0) by {
      assert t[..|m|] == m;
    }
    Router.GetUriAfterMount(cfg, given, serverUri);
    assert t[|cfg.path|..] == [Sep] + lowRest;
    LTrimStep(lowRest, Sep);
    assert lowRest[0] == LowerChar(rest[0]);
  }

  /** `/p/rest/` trimmed of `/` on both ends is `p/rest`. */
  lemma MountedTrim(p: string, rest: string)
    requires p != "" && p[0] != Sep
    requires rest != "" && rest[|rest| - 1] != Sep
    ensures Trim([Sep] + p + [Sep] + rest + [Sep], Sep) == p + ([Sep] + rest)
  {
    var inner := p + ([Sep] + rest);
    assert [Sep] + p + [Sep] + rest + [Sep] == [Sep] + inner + [Sep];
    assert inner[0] == p[0] && inner[|inner| - 1] == rest[|rest| - 1];
    TrimFramed(inner, Sep);
  }

  /** Lower-casing `p/rest` lower-cases each side of the `/`. */
  lemma LowerAroundSep(p: string, rest: string)
    ensures Lower(p + ([Sep] + rest)) == Lower(p) + ([Sep] + Lower(rest))
  {
    LowerConcat(p, [Sep] + rest);
    LowerConcat([Sep], rest);
    assert Lower([Sep]) == [Sep];
  }

  /** The normalised form of `/p/rest/`: `p` and `rest` lower-cased,
      joined by `/`. */
  lemma MountedNormalised(p: string, rest: string, serverUri: string)
    requires p != "" && p[0] != Sep
    requires rest != "" && rest[|rest| - 1] != Sep
    ensures Router.Normalised([Sep] + p + [Sep] + rest + [Sep], serverUri) == Lower(p) + ([Sep] + Lower(rest))
  {
    var given := [Sep] + p + [Sep] + rest + [Sep];
    assert given != "";
    MountedTrim(p, rest);
    LowerAroundSep(p, rest);
  }
}
