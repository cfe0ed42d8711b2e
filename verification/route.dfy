/** One route: a path template that decides whether the route applies to a
    URI, and a pattern template that extracts the controller, the method and
    the argument list from the URI's `/`-separated segments.

    Special segments: `{*}` (wildcard, in the path, last), `{0}` (ignore this
    segment), `{controller}`, `{method}` and `{args}` (the extracted parts).
    The source keeps the controller and method positions in mutable fields
    that each lookup step reads from the previous one; here they are threaded
    explicitly through `Resolved` values. */
module Route {

  import opened Results
  import opened PhpStrings
  import RouterConfig

  const Wildcard: string := "{*}"
  const Ignore: string := "{0}"
  const ControllerToken: string := "{controller}"
  const MethodToken: string := "{method}"
  const ArgsToken: string := "{args}"

  datatype Route = Route(path: string, pattern: string)

  /** The configuration errors a pattern can raise while being read. */
  datatype RouteError =
    | ControllerConflict  // a literal controller and a `{controller}` token
    | MethodConflict      // a literal method and a `{method}` token

  /** A resolved name with the pattern index it came from; -1 stands for
      "the configured default was used". */
  datatype Resolved = Resolved(name: string, pos: int)

  /** What the router hands to the dispatcher. */
  datatype DispatchRequest = DispatchRequest(controllerName: string, methodName: string, args: seq<string>)

  /** The two parts resolved by the same scan over the pattern. */
  datatype Target = ControllerTarget | MethodTarget {
    function Token(): string {
      if ControllerTarget? then ControllerToken else MethodToken
    }
    function Conflict(): RouteError {
      if ControllerTarget? then ControllerConflict else MethodConflict
    }
  }

  /** The constructor: path and pattern are stored lower-cased. */
  function NewRoute(path: string, pattern: string): (r: Route)
    ensures IsLower(r.path) && IsLower(r.pattern)
    ensures |r.path| == |path| && |r.pattern| == |pattern|
    ensures forall i :: 0 <= i < |path| ==> r.path[i] == LowerChar(path[i])
    ensures forall i :: 0 <= i < |pattern| ==> r.pattern[i] == LowerChar(pattern[i])
  {
    Route(Lower(path), Lower(pattern))
  }

  // ---------------------------------------------------------------------------
  // The token test: the unanchored regular expression  \{[a-x0-9]+?\}

  /** The character class `[a-x0-9]` (note: `y` and `z` are not in it). */
  predicate TokenChar(c: char) {
    'a' <= c <= 'x' || '0' <= c <= '9'
  }

  /** `s[i..j+1]` is `{`, one or more class characters, `}`. */
  ghost predicate TokenSpan(s: string, i: int, j: int) {
    0 <= i && i + 1 < j < |s| && s[i] == '{' && s[j] == '}'
    && forall k :: i < k < j ==> TokenChar(s[k])
  }

  /** The end of the run of class characters starting at `k`. */
  function RunEnd(s: string, k: nat): (e: nat)
    requires k <= |s|
    ensures k <= e <= |s|
    ensures forall m :: k <= m < e ==> TokenChar(s[m])
    ensures e < |s| ==> !TokenChar(s[e])
    decreases |s| - k
  {
    if k == |s| || !TokenChar(s[k]) then k else RunEnd(s, k + 1)
  }

  /** Scans for a match starting at index `i` or later, trying each `{`
      in turn as the regular-expression engine does. */
  function TokenFrom(s: string, i: nat): bool
    requires i <= |s|
    decreases |s| - i
  {
    if i == |s| then false
    else
      (s[i] == '{' && var e := RunEnd(s, i + 1); e > i + 1 && e < |s| && s[e] == '}')
      || TokenFrom(s, i + 1)
  }

  /** The scan from `i` succeeds exactly when a match starts at `i` or
      later. */
  lemma {:induction false} TokenFromSpan(s: string, i: nat)
    requires i <= |s|
    ensures TokenFrom(s, i) <==> exists a, j :: i <= a && TokenSpan(s, a, j)
    decreases |s| - i
  {
    if i < |s| {
      TokenFromSpan(s, i + 1);
      var e := RunEnd(s, i + 1);
      if s[i] == '{' && e > i + 1 && e < |s| && s[e] == '}' {
        assert TokenSpan(s, i, e);
      }
      assert forall j :: TokenSpan(s, i, j) ==> j == e;
    }
  }

  /** `preg_match('~\{[a-x0-9]+?\}~', s) == 1`. */
  function IsToken(s: string): bool
  {
    TokenFrom(s, 0)
  }

  /** The token test holds exactly when some `{`, one or more class
      characters and `}` occur in `s`, anywhere. */
  lemma IsTokenSpan(s: string)
    ensures IsToken(s) <==> exists i, j :: TokenSpan(s, i, j)
  {
    TokenFromSpan(s, 0);
  }

  /** The special segments that count as tokens, and the wildcard, which
      does not (in a pattern it is read as a literal). */
  lemma TokenLiterals()
    ensures IsToken(Ignore) && IsToken(ControllerToken) && IsToken(MethodToken) && IsToken(ArgsToken)
    ensures !IsToken(Wildcard)
  {
    IsTokenSpan(Ignore);
    IsTokenSpan(ControllerToken);
    IsTokenSpan(MethodToken);
    IsTokenSpan(ArgsToken);
    IsTokenSpan(Wildcard);
    assert TokenSpan(Ignore, 0, 2);
    assert TokenSpan(ControllerToken, 0, 11);
    assert TokenSpan(MethodToken, 0, 7);
    assert TokenSpan(ArgsToken, 0, 5);
  }

  // ---------------------------------------------------------------------------
  // matches()

  /** `$uriParts[$i]`: an index past the end reads `null`, and a string is
      loosely equal to `null` exactly when it is empty. */
  function At(U: seq<string>, i: nat): string {
    if i < |U| then U[i] else ""
  }

  /** Some `{*}` at index `k >= i` is preceded, from `i` on, only by
      segments equal to the URI's segments at the same index. */
  ghost predicate ReachesWildcard(P: seq<string>, U: seq<string>, i: nat) {
    exists k :: i <= k < |P| && P[k] == Wildcard && forall j :: i <= j < k ==> P[j] == At(U, j)
  }

  /** The `foreach` over the path segments: true at the first `{*}`, false
      at the first segment that differs from the URI, and nothing (a falsy
      `null`) after the last segment. */
  function WalkFrom(P: seq<string>, U: seq<string>, i: nat): (b: bool)
    ensures b <==> ReachesWildcard(P, U, i)
    decreases |P| - i
  {
    if i >= |P| then false
    else if P[i] == Wildcard then true
    else if P[i] != At(U, i) then false
    else
      var b := WalkFrom(P, U, i + 1);
      assert ReachesWildcard(P, U, i) ==> ReachesWildcard(P, U, i + 1);
      b
  }

  /** The comparison of path segments `P` with URI segments `U`: a path with
      more than one segment more than the URI never matches; otherwise the
      path matches exactly when it reaches a `{*}` through equal segments. */
  function MatchParts(P: seq<string>, U: seq<string>): (b: bool)
    ensures b <==> |P| - 1 <= |U| && ReachesWildcard(P, U, 0)
  {
    if |P| - 1 > |U| then false else WalkFrom(P, U, 0)
  }

  /** PHP's `empty()` on a string: true for "" and for "0". */
  predicate PhpEmpty(s: string) {
    s == "" || s == "0"
  }

  /** `matches($URI)` as written: the URI is lower-cased, but its segments
      are only computed when it is `empty()`, so the URI seen by the
      comparison is always the single segment "" (or "0" for the URI "0").
      Only paths of at most two segments can match, and only through `{*}`. */
  function Matches(r: Route, uri: string): (b: bool)
    ensures var P := Split(r.path);
            b <==> |P| <= 2 && ReachesWildcard(P, [if uri == "0" then "0" else ""], 0)
  {
    var L := Lower(uri);
    var P := Split(r.path);
    var U := if PhpEmpty(L) then SplitLimit(L, |P|) else [""];
    assert U == [if uri == "0" then "0" else ""] by {
      assert L == "0" <==> uri == "0";
      if PhpEmpty(L) {
        SplitNoSep(L);
      }
    }
    MatchParts(P, U)
  }

  /** `matches` as its comments describe it: the lower-cased URI is split
      into at most as many segments as the path has, and a path without
      `{*}` matches a URI with exactly the same segments. */
  function MatchesIntended(r: Route, uri: string): (b: bool)
    ensures Wildcard !in Split(r.path) ==> (b <==> r.path == Lower(uri))
  {
    var L := Lower(uri);
    var P := Split(r.path);
    var U := SplitLimit(L, |P|);
    if Wildcard !in P then
      assert !ReachesWildcard(P, U, 0);
      JoinSplit(r.path);
      assert P == U ==> Join(P) == Join(U);
      assert r.path == L ==> P == U;
      P == U
    else
      P == U || MatchParts(P, U)
  }

  /** With the first `{*}` of `P` at index `k`, reaching a wildcard means
      exactly that the segments before `k` agree with the URI. */
  lemma ReachesFirstWildcard(P: seq<string>, U: seq<string>, k: nat)
    requires k < |P| && P[k] == Wildcard && Wildcard !in P[..k]
    ensures ReachesWildcard(P, U, 0) <==> forall j :: 0 <= j < k ==> P[j] == At(U, j)
  {
    if ReachesWildcard(P, U, 0) {
      var k' :| 0 <= k' < |P| && P[k'] == Wildcard && forall j :: 0 <= j < k' ==> P[j] == At(U, j);
    }
  }

  /** The wildcard case of the intended matching: when the first `{*}` of
      the path is at index `k`, the route matches exactly when the URI has
      at least `|P| - 1` segments and its first `k` segments equal the
      path's. */
  lemma MatchesIntendedWildcard(r: Route, uri: string, k: nat)
    requires var P := Split(r.path); k < |P| && P[k] == Wildcard && Wildcard !in P[..k]
    ensures var P, S := Split(r.path), Split(Lower(uri));
            MatchesIntended(r, uri) <==> |S| + 1 >= |P| && forall j :: 0 <= j < k ==> P[j] == S[j]
  {
    var P, S := Split(r.path), Split(Lower(uri));
    var U := SplitLimit(Lower(uri), |P|);
    assert Wildcard in P by {
      assert P[k] == Wildcard;
    }
    assert MatchesIntended(r, uri) <==> P == U || MatchParts(P, U);
    ReachesFirstWildcard(P, U, k);
    assert |S| + 1 >= |P| <==> |P| - 1 <= |U|;
    if |P| - 1 <= |U| {
      forall j | 0 <= j < k
        ensures At(U, j) == S[j]
      {
        assert j < |U|;
        if |S| > |P| {
          assert j < |U| - 1;
        }
      }
    }
  }

  /** The path `{*}` matches every URI, as written and as intended. */
  lemma WildcardPathMatchesAll(pattern: string, uri: string)
    ensures Matches(NewRoute(Wildcard, pattern), uri)
    ensures MatchesIntended(NewRoute(Wildcard, pattern), uri)
  {
    LowerOfLower(Wildcard);
    SplitNoSep(Wildcard);
    var P := Split(Wildcard);
    assert P[0] == Wildcard;
    assert ReachesWildcard(P, [if uri == "0" then "0" else ""], 0);
    assert ReachesWildcard(P, SplitLimit(Lower(uri), 1), 0);
  }

  /** Lower-casing the URI first changes nothing: matching is
      case-insensitive in the URI. */
  lemma MatchingIgnoresCase(r: Route, u1: string, u2: string)
    requires Lower(u1) == Lower(u2)
    ensures Matches(r, u1) == Matches(r, u2)
    ensures MatchesIntended(r, u1) == MatchesIntended(r, u2)
  {
    if u1 == "0" {
      assert Lower(u2) == "0";
      assert u2[0] == '0';
    }
    if u2 == "0" {
      assert Lower(u1) == "0";
      assert u1[0] == '0';
    }
  }

  // ---------------------------------------------------------------------------
  // getController() / getMethod()

  /** `array_search($x, $parts)`: the index of the first occurrence, if any. */
  function FirstIndex(parts: seq<string>, x: string): (r: Option<nat>)
    ensures r.Some? ==> r.value < |parts| && parts[r.value] == x && x !in parts[..r.value]
    ensures r.None? <==> x !in parts
  {
    if |parts| == 0 then None
    else if parts[0] == x then Some(0)
    else match FirstIndex(parts[1..], x)
      case None => None
      case Some(k) =>
        assert parts[..k + 1] == [parts[0]] + parts[1..][..k];
        Some(k + 1)
  }

  /** `array_search($token, $patternParts) != false`: the token occurs and
      its first occurrence is not at index 0, which PHP reads as false. */
  function Conflicts(P: seq<string>, token: string): (b: bool)
    ensures b <==> token in P && P[0] != token
  {
    match FirstIndex(P, token)
    case None => false
    case Some(k) => k != 0
  }

  /** The first index at or after `from` whose segment is not `{0}`. */
  function Skip(P: seq<string>, from: nat): (q: nat)
    ensures from <= q && (q == from || q <= |P|)
    ensures q < |P| ==> P[q] != Ignore
    ensures forall j :: from <= j < q ==> P[j] == Ignore
    decreases |P| - from
  {
    if from >= |P| || P[from] != Ignore then from else Skip(P, from + 1)
  }

  /** The recursive scan shared by `getController` (and, from a start that
      is past the controller, `getMethod`), in closed form: skip every `{0}`
      from `position` on; at the first other segment a literal is the name
      (unless the target's token first occurs at a nonzero index, which is a
      configuration error), the target's token names the URI segment at the
      same index when the URI has one, and anything else falls back to the
      default with position -1. */
  function ResolveFrom(P: seq<string>, U: seq<string>, t: Target, dflt: string, position: nat)
    : (r: Result<Resolved, RouteError>)
    ensures var q := Skip(P, position);
      if q >= |P| then r == Ok(Resolved(dflt, -1))
      else if !IsToken(P[q]) then
        r == (if Conflicts(P, t.Token()) then Err(t.Conflict()) else Ok(Resolved(P[q], q)))
      else if P[q] == t.Token() && q < |U| then r == Ok(Resolved(U[q], q))
      else r == Ok(Resolved(dflt, -1))
    decreases |P| - position
  {
    if position >= |P| then Ok(Resolved(dflt, -1))
    else
      var part := P[position];
      if !IsToken(part) then
        if Conflicts(P, t.Token()) then Err(t.Conflict()) else Ok(Resolved(part, position))
      else if part == t.Token() && position < |U| then Ok(Resolved(U[position], position))
      else if part == Ignore then ResolveFrom(P, U, t, dflt, position + 1)
      else Ok(Resolved(dflt, -1))
  }

  /** The URI segments `getController` and `getMethod` read: a URI whose
      first segment is empty (the empty URI, or one starting with `/`)
      counts as having no segments at all. */
  function UriSegments(uri: string): (U: seq<string>)
    ensures U == [] <==> uri == "" || uri[0] == Sep
    ensures U != [] ==> U == Split(uri)
  {
    var parts := Split(uri);
    if parts[0] == "" then [] else parts
  }

  /** `getController($URI)`. With `q` the first index of the pattern that
      is not `{0}`: a literal there is the controller, at position `q`,
      unless `{controller}` first occurs at a nonzero index (an error); a
      `{controller}` there takes the URI segment `q` when the URI has more
      than `q` segments; otherwise the default controller, at position -1. */
  function GetController(r: Route, uri: string, cfg: RouterConfig.Config): (res: Result<Resolved, RouteError>)
    ensures var P, U := Split(r.pattern), UriSegments(uri);
      var q := Skip(P, 0);
      && (forall j :: 0 <= j < q ==> P[j] == Ignore)
      && (q < |P| && !IsToken(P[q]) ==>
            res == if ControllerToken in P && P[0] != ControllerToken then Err(ControllerConflict)
                   else Ok(Resolved(P[q], q)))
      && (q < |P| && P[q] == ControllerToken && q < |U| ==> res == Ok(Resolved(U[q], q)))
      && (q >= |P| || (IsToken(P[q]) && !(P[q] == ControllerToken && q < |U|)) ==>
            res == Ok(Resolved(cfg.defaultController, -1)))
  {
    var P, U := Split(r.pattern), UriSegments(uri);
    TokenLiterals();
    var res := ResolveFrom(P, U, ControllerTarget, cfg.defaultController, 0);
    assert ControllerTarget.Token() == ControllerToken && ControllerTarget.Conflict() == ControllerConflict;
    res
  }

  /** The controller sits at index `c >= 1` of `P`, preceded from index 1
      on only by `{0}` segments and not itself `{0}`: where `getController`
      leaves a controller it found past index 0. */
  predicate AfterIgnored(P: seq<string>, c: int) {
    1 <= c < |P| && P[c] != Ignore && forall j :: 1 <= j < c ==> P[j] == Ignore
  }

  /** The recursion of `getMethod` as written: on every call the start index
      moves up by one when it is not past the controller's position, then
      the same literal / `{method}` / `{0}` / default rules apply. A found
      method is a literal or a `{method}` filled from the URI; an error
      means a literal met a `{method}` at a nonzero index; and from a start
      past the controller it is the shared scan. */
  function MethodFrom(P: seq<string>, U: seq<string>, dflt: string, controllerPos: int, position: nat)
    : (r: Result<Resolved, RouteError>)
    ensures r.Ok? && r.value.pos == -1 ==> r.value.name == dflt
    ensures r.Ok? && r.value.pos != -1 ==>
              && position <= r.value.pos < |P| && P[r.value.pos] != Ignore
              && if IsToken(P[r.value.pos])
                 then P[r.value.pos] == MethodToken && r.value.pos < |U| && r.value.name == U[r.value.pos]
                 else r.value.name == P[r.value.pos] && !Conflicts(P, MethodToken)
    ensures r.Err? ==> r.error == MethodConflict && Conflicts(P, MethodToken)
    decreases |P| - position
  {
    var p := if position <= controllerPos then position + 1 else position;
    if p >= |P| then Ok(Resolved(dflt, -1))
    else
      var part := P[p];
      if !IsToken(part) then
        if Conflicts(P, MethodToken) then Err(MethodConflict) else Ok(Resolved(part, p))
      else if part == MethodToken && p < |U| then Ok(Resolved(U[p], p))
      else if part == Ignore then MethodFrom(P, U, dflt, controllerPos, p + 1)
      else Ok(Resolved(dflt, -1))
  }

  /** From a start past the controller's position the index is never
      bumped, and the recursion of `getMethod` is the shared scan. */
  lemma {:induction false} MethodFromPastController(P: seq<string>, U: seq<string>, dflt: string, controllerPos: int, position: nat)
    requires controllerPos < position
    ensures MethodFrom(P, U, dflt, controllerPos, position) == ResolveFrom(P, U, MethodTarget, dflt, position)
    decreases |P| - position
  {
    assert MethodTarget.Token() == MethodToken && MethodTarget.Conflict() == MethodConflict;
    var m, s := MethodFrom(P, U, dflt, controllerPos, position), ResolveFrom(P, U, MethodTarget, dflt, position);
    if position >= |P| {
      assert m == Ok(Resolved(dflt, -1)) == s;
    } else if !IsToken(P[position]) {
      assert m == (if Conflicts(P, MethodToken) then Err(MethodConflict) else Ok(Resolved(P[position], position))) == s;
    } else if P[position] == MethodToken && position < |U| {
      assert m == Ok(Resolved(U[position], position)) == s;
    } else if P[position] == Ignore {
      MethodFromPastController(P, U, dflt, controllerPos, position + 1);
      assert m == MethodFrom(P, U, dflt, controllerPos, position + 1);
      assert s == ResolveFrom(P, U, MethodTarget, dflt, position + 1);
    } else {
      assert m == Ok(Resolved(dflt, -1)) == s;
    }
  }

  /** From a start `2 * k` segments before the controller's position, with
      only `{0}` in between and a controller segment that is not `{0}`: each
      call moves the start up by one and the next `{0}` by one more, so the
      start passes the controller and the scan begins just after it. */
  lemma {:induction false} MethodFromEvenBump(P: seq<string>, U: seq<string>, dflt: string, c: nat, k: nat)
    requires 2 * k <= c < |P| && P[c] != Ignore
    requires forall j :: c - 2 * k <= j < c ==> P[j] == Ignore
    ensures MethodFrom(P, U, dflt, c, c - 2 * k) == ResolveFrom(P, U, MethodTarget, dflt, c + 1)
    decreases k
  {
    if k == 0 {
      MethodFromAtController(P, U, dflt, c);
    } else {
      MethodFromSkipsPair(P, U, dflt, c, c - 2 * k);
      MethodFromEvenBump(P, U, dflt, c, k - 1);
    }
  }

  /** From a start `2 * k + 1` segments before the controller's position,
      under the same conditions, the start lands on the controller's own
      segment, and the scan reads it as if it were the method's. */
  lemma {:induction false} MethodFromOddBump(P: seq<string>, U: seq<string>, dflt: string, c: nat, k: nat)
    requires 2 * k + 1 <= c < |P| && P[c] != Ignore
    requires forall j :: c - 2 * k - 1 <= j < c ==> P[j] == Ignore
    ensures MethodFrom(P, U, dflt, c, c - 2 * k - 1) == ResolveFrom(P, U, MethodTarget, dflt, c)
    decreases k
  {
    if k == 0 {
      MethodFromNextToController(P, U, dflt, c, c - 1);
    } else {
      MethodFromSkipsPair(P, U, dflt, c, c - 2 * k - 1);
      MethodFromOddBump(P, U, dflt, c, k - 1);
    }
  }

  /** A start equal to the controller's position is bumped past it. */
  lemma MethodFromAtController(P: seq<string>, U: seq<string>, dflt: string, c: nat)
    ensures MethodFrom(P, U, dflt, c, c) == ResolveFrom(P, U, MethodTarget, dflt, c + 1)
  {
    assert MethodFrom(P, U, dflt, c, c) == MethodFrom(P, U, dflt, c, c + 1);
    MethodFromPastController(P, U, dflt, c, c + 1);
  }

  /** A start just before the controller is bumped onto it. */
  lemma MethodFromNextToController(P: seq<string>, U: seq<string>, dflt: string, c: nat, position: nat)
    requires position + 1 == c < |P| && P[c] != Ignore
    ensures MethodFrom(P, U, dflt, c, position) == ResolveFrom(P, U, MethodTarget, dflt, c)
  {
    assert MethodFrom(P, U, dflt, c, position) == MethodFrom(P, U, dflt, position, c);
    MethodFromPastController(P, U, dflt, position, c);
  }

  /** A start two or more before the controller, with `{0}` after it, is
      bumped onto that `{0}`, which moves the next start two further. */
  lemma MethodFromSkipsPair(P: seq<string>, U: seq<string>, dflt: string, c: int, position: nat)
    requires position + 1 < c && position + 1 < |P| && P[position + 1] == Ignore
    ensures MethodFrom(P, U, dflt, c, position) == MethodFrom(P, U, dflt, c, position + 2)
  {
    assert IsToken(Ignore) by { TokenLiterals(); }
  }

  /** The call `getMethod` makes, from index 1, in closed form. */
  lemma MethodFromStart(P: seq<string>, U: seq<string>, dflt: string, controllerPos: int)
    ensures controllerPos <= 0 || AfterIgnored(P, controllerPos) ==>
              MethodFrom(P, U, dflt, controllerPos, 1) == ResolveFrom(P, U, MethodTarget, dflt, MethodStart(controllerPos))
  {
    if controllerPos <= 0 {
      MethodFromPastController(P, U, dflt, controllerPos, 1);
    } else if AfterIgnored(P, controllerPos) {
      var k := (controllerPos - 1) / 2;
      if controllerPos % 2 == 1 {
        assert controllerPos - 2 * k == 1;
        MethodFromEvenBump(P, U, dflt, controllerPos, k);
      } else {
        assert controllerPos - 2 * k - 1 == 1;
        MethodFromOddBump(P, U, dflt, controllerPos, k);
      }
    }
  }

  /** Where the scan of `getMethod` as written effectively begins: index 1
      when the controller is at index 0 or defaulted, otherwise (with only
      `{0}` before the controller) just after the controller for an odd
      index and at the controller itself for an even one. */
  function MethodStart(controllerPos: int): nat {
    if controllerPos <= 0 then 1
    else if controllerPos % 2 == 1 then controllerPos + 1
    else controllerPos
  }

  /** `getMethod($URI)` as written, given the controller's position. When
      the controller was found at index 0 or not at all, this is the scan
      of `getController` for `{method}` from index 1. When it was found at
      an index `c >= 1` after only `{0}` segments, the scan begins just
      after it for an odd `c`, but at the controller's own segment for an
      even `c`. */
  function GetMethod(r: Route, uri: string, cfg: RouterConfig.Config, controllerPos: int)
    : (res: Result<Resolved, RouteError>)
    ensures var P, U := Split(r.pattern), UriSegments(uri);
      && (res.Ok? && res.value.pos == -1 ==> res.value.name == cfg.defaultMethod)
      && (res.Ok? && res.value.pos != -1 ==>
            && 1 <= res.value.pos < |P|
            && (if IsToken(P[res.value.pos])
                then P[res.value.pos] == MethodToken && res.value.pos < |U| && res.value.name == U[res.value.pos]
                else res.value.name == P[res.value.pos]))
      && (res.Err? ==> MethodToken in P && P[0] != MethodToken)
      && (controllerPos <= 0 || AfterIgnored(P, controllerPos) ==>
            res == ResolveFrom(P, U, MethodTarget, cfg.defaultMethod, MethodStart(controllerPos)))
  {
    var P, U := Split(r.pattern), UriSegments(uri);
    MethodFromStart(P, U, cfg.defaultMethod, controllerPos);
    MethodFrom(P, U, cfg.defaultMethod, controllerPos, 1)
  }

  /** In the router's order, `getMethod` reads the position `getController`
      left: the method lookup as written is the shared scan from
      `MethodStart` of that position, for every pattern and URI. */
  lemma MethodAfterController(r: Route, uri: string, cfg: RouterConfig.Config)
    requires GetController(r, uri, cfg).Ok?
    ensures var c := GetController(r, uri, cfg).value;
            GetMethod(r, uri, cfg, c.pos)
              == ResolveFrom(Split(r.pattern), UriSegments(uri), MethodTarget, cfg.defaultMethod, MethodStart(c.pos))
  {
    var P := Split(r.pattern);
    var c := GetController(r, uri, cfg).value;
    if c.pos > 0 {
      assert c.pos == Skip(P, 0);
      assert AfterIgnored(P, c.pos);
    }
  }

  /** `getMethod` as its comment describes it: a start index not past the
      controller's position moves to just after it. The method found is
      then always after the controller, past only `{0}` segments, and this
      agrees with `GetMethod` where the controller sits at index 0 or was
      defaulted. */
  function GetMethodIntended(r: Route, uri: string, cfg: RouterConfig.Config, controllerPos: int)
    : (res: Result<Resolved, RouteError>)
    ensures res.Ok? && res.value.pos == -1 ==> res.value.name == cfg.defaultMethod
    ensures var P, start := Split(r.pattern), if 1 <= controllerPos then controllerPos + 1 else 1;
            res.Ok? && res.value.pos != -1 ==>
              && start <= res.value.pos < |P| && P[res.value.pos] != Ignore
              && forall j :: start <= j < res.value.pos ==> P[j] == Ignore
    ensures controllerPos <= 0 ==> res == GetMethod(r, uri, cfg, controllerPos)
  {
    var start := if 1 <= controllerPos then controllerPos + 1 else 1;
    ResolveFrom(Split(r.pattern), UriSegments(uri), MethodTarget, cfg.defaultMethod, start)
  }

  /** The intended lookup and the one as written agree where the bump
      happens to land just after the controller: for a controller at index
      0 or defaulted, and for one at an odd index after `{0}` segments. */
  lemma IntendedAgreesAtOddController(r: Route, uri: string, cfg: RouterConfig.Config, controllerPos: int)
    requires controllerPos <= 0 || (AfterIgnored(Split(r.pattern), controllerPos) && controllerPos % 2 == 1)
    ensures GetMethodIntended(r, uri, cfg, controllerPos) == GetMethod(r, uri, cfg, controllerPos)
  {
    assert MethodStart(controllerPos) == if 1 <= controllerPos then controllerPos + 1 else 1;
  }

  // ---------------------------------------------------------------------------
  // getArgs()

  /** `$s` after `array_shift` was applied `n` times. */
  function Drop(s: seq<string>, n: nat): (r: seq<string>)
    ensures |r| == if n <= |s| then |s| - n else 0
  {
    if n >= |s| then [] else s[n..]
  }

  lemma DropDrop(s: seq<string>, a: nat, b: nat)
    ensures Drop(Drop(s, a), b) == Drop(s, a + b)
  {
  }

  /** How many leading segments `getArgs` shifts off both arrays: all up to
      and including the method's position, none when that is -1. */
  function ShiftCount(methodPos: int): nat {
    if methodPos >= 0 then methodPos + 1 else 0
  }

  /** The literal (non-token) segments of `P`, in order. */
  function Literals(P: seq<string>): seq<string>
  {
    if |P| == 0 then []
    else (if IsToken(P[0]) then [] else [P[0]]) + Literals(P[1..])
  }

  /** Every segment `Literals` keeps is a segment of `P` and not a token. */
  lemma {:induction false} LiteralsIn(P: seq<string>)
    ensures forall x :: x in Literals(P) ==> x in P && !IsToken(x)
    decreases |P|
  {
    if |P| > 0 {
      LiteralsIn(P[1..]);
    }
  }

  /** The `foreach` of `getArgs` from relative pattern index `i` on, with
      `U` the URI segments as shifted so far: literals are appended, an
      `{args}` at index `i` shifts `i` more segments off the URI and appends
      the rest, other tokens add nothing. Without `{args}` only the
      literals remain. */
  function ArgsFrom(P: seq<string>, U: seq<string>, i: nat): seq<string>
    requires i <= |P|
    decreases |P| - i
  {
    if i == |P| then []
    else if !IsToken(P[i]) then [P[i]] + ArgsFrom(P, U, i + 1)
    else if P[i] == ArgsToken then
      var rest := Drop(U, i);
      rest + ArgsFrom(P, rest, i + 1)
    else ArgsFrom(P, U, i + 1)
  }

  /** Without `{args}` from index `i` on, `ArgsFrom` keeps only the
      literals. */
  lemma {:induction false} ArgsFromNoToken(P: seq<string>, U: seq<string>, i: nat)
    requires i <= |P| && ArgsToken !in P[i..]
    ensures ArgsFrom(P, U, i) == Literals(P[i..])
    decreases |P| - i
  {
    if i < |P| {
      assert P[i..][0] == P[i] && P[i..][1..] == P[i + 1..];
      ArgsFromNoToken(P, U, i + 1);
    }
  }

  /** Every argument `ArgsFrom` collects is a literal of the pattern from
      index `i` on or one of the URI segments. */
  lemma {:induction false} ArgsFromIn(P: seq<string>, U: seq<string>, i: nat)
    requires i <= |P|
    ensures forall x :: x in ArgsFrom(P, U, i) ==> (x in P[i..] && !IsToken(x)) || x in U
    decreases |P| - i
  {
    if i < |P| {
      assert P[i..][0] == P[i] && P[i..][1..] == P[i + 1..];
      if IsToken(P[i]) && P[i] == ArgsToken {
        var rest := Drop(U, i);
        ArgsFromIn(P, rest, i + 1);
        assert forall k :: 0 <= k < |rest| ==> rest[k] in U;
      } else {
        ArgsFromIn(P, U, i + 1);
      }
    }
  }

  /** `getArgs($URI)` given the method's position: both the pattern and the
      URI lose their first `methodPos + 1` segments (none for -1), and the
      remaining pattern is read by `ArgsFrom`. */
  function GetArgs(r: Route, uri: string, methodPos: int): seq<string>
  {
    var n := ShiftCount(methodPos);
    ArgsFrom(Drop(Split(r.pattern), n), Drop(Split(uri), n), 0)
  }

  /** A pattern without `{args}` after the method gives only its literals
      after the method. */
  lemma GetArgsNoToken(r: Route, uri: string, methodPos: int)
    requires ArgsToken !in Drop(Split(r.pattern), ShiftCount(methodPos))
    ensures GetArgs(r, uri, methodPos) == Literals(Drop(Split(r.pattern), ShiftCount(methodPos)))
  {
    var n := ShiftCount(methodPos);
    var P := Drop(Split(r.pattern), n);
    assert P[0..] == P;
    ArgsFromNoToken(P, Drop(Split(uri), n), 0);
  }

  /** Every argument is a literal segment of the pattern or a segment of
      the URI. */
  lemma GetArgsIn(r: Route, uri: string, methodPos: int)
    ensures forall x :: x in GetArgs(r, uri, methodPos) ==>
              (x in Split(r.pattern) && !IsToken(x)) || x in Split(uri)
  {
    var n := ShiftCount(methodPos);
    var P, U := Drop(Split(r.pattern), n), Drop(Split(uri), n);
    assert P[0..] == P;
    ArgsFromIn(P, U, 0);
    assert forall k :: 0 <= k < |P| ==> P[k] in Split(r.pattern);
    assert forall k :: 0 <= k < |U| ==> U[k] in Split(uri);
  }

  /** `Literals` of a slice, one segment peeled off the front. */
  lemma LiteralsStep(P: seq<string>, i: nat, p: nat)
    requires i < p <= |P|
    ensures Literals(P[i..p]) == (if IsToken(P[i]) then [] else [P[i]]) + Literals(P[i + 1..p])
  {
    assert P[i..p][0] == P[i] && P[i..p][1..] == P[i + 1..p];
  }

  /** One step of `ArgsFrom` at a segment other than `{args}`. */
  lemma ArgsFromStep(P: seq<string>, U: seq<string>, i: nat)
    requires i < |P| && P[i] != ArgsToken
    ensures ArgsFrom(P, U, i) == (if IsToken(P[i]) then [] else [P[i]]) + ArgsFrom(P, U, i + 1)
  {
    if IsToken(P[i]) {
      assert [] + ArgsFrom(P, U, i + 1) == ArgsFrom(P, U, i + 1);
    }
  }

  /** The step of `ArgsFrom` at an index before the single `{args}`: a
      literal is prepended, a token adds nothing. */
  lemma ArgsStepBefore(P: seq<string>, U: seq<string>, i: nat, p: nat, tailArgs: seq<string>)
    requires i < p < |P| && P[i] != ArgsToken
    requires ArgsFrom(P, U, i + 1) == Literals(P[i + 1..p]) + tailArgs
    ensures ArgsFrom(P, U, i) == Literals(P[i..p]) + tailArgs
  {
    var kept := if IsToken(P[i]) then [] else [P[i]];
    LiteralsStep(P, i, p);
    ArgsFromStep(P, U, i);
    assert kept + (Literals(P[i + 1..p]) + tailArgs) == (kept + Literals(P[i + 1..p])) + tailArgs;
  }

  /** The step of `ArgsFrom` at the single `{args}`: the URI from the
      token's index on, then the literals after it. */
  lemma ArgsAtToken(P: seq<string>, U: seq<string>, p: nat)
    requires p < |P| && P[p] == ArgsToken && ArgsToken !in P[p + 1..]
    ensures ArgsFrom(P, U, p) == Drop(U, p) + Literals(P[p + 1..])
  {
    assert IsToken(ArgsToken) by { TokenLiterals(); }
    var rest := Drop(U, p);
    assert ArgsFrom(P, U, p) == rest + ArgsFrom(P, rest, p + 1);
    ArgsFromNoToken(P, rest, p + 1);
  }

  /** With a single `{args}`, at index `p`: the literals before it, then the
      URI segments from index `p` of the shifted URI on, then the literals
      after it. */
  lemma {:induction false} ArgsSingle(P: seq<string>, U: seq<string>, i: nat, p: nat)
    requires i <= p < |P| && P[p] == ArgsToken
    requires ArgsToken !in P[i..p] && ArgsToken !in P[p + 1..]
    ensures ArgsFrom(P, U, i) == Literals(P[i..p]) + (Drop(U, p) + Literals(P[p + 1..]))
    decreases p - i
  {
    if i == p {
      ArgsAtToken(P, U, p);
      assert Literals(P[i..p]) == [] by {
        assert P[i..p] == [];
      }
    } else {
      assert P[i] != ArgsToken && ArgsToken !in P[i + 1..p] by {
        assert P[i..p][0] == P[i] && P[i..p][1..] == P[i + 1..p];
      }
      ArgsSingle(P, U, i + 1, p);
      ArgsStepBefore(P, U, i, p, Drop(U, p) + Literals(P[p + 1..]));
    }
  }

  /** `ArgsSingle` from the start of the pattern. */
  lemma ArgsSingleFromStart(P: seq<string>, U: seq<string>, p: nat)
    requires p < |P| && P[p] == ArgsToken && ArgsToken !in P[..p] && ArgsToken !in P[p + 1..]
    ensures ArgsFrom(P, U, 0) == Literals(P[..p]) + (Drop(U, p) + Literals(P[p + 1..]))
  {
    assert P[0..p] == P[..p];
    ArgsSingle(P, U, 0, p);
  }

  /** `getArgs` on a pattern with one `{args}` after the method: with `n`
      the shift count and `{args}` at index `n + p` of the pattern, the
      arguments are the literals between the method and `{args}`, then the
      URI segments from index `n + p` on, then the literals after `{args}`. */
  lemma GetArgsSingle(r: Route, uri: string, methodPos: int, p: nat)
    requires var P := Drop(Split(r.pattern), ShiftCount(methodPos));
             p < |P| && P[p] == ArgsToken && ArgsToken !in P[..p] && ArgsToken !in P[p + 1..]
    ensures var n, P := ShiftCount(methodPos), Drop(Split(r.pattern), ShiftCount(methodPos));
            GetArgs(r, uri, methodPos) == Literals(P[..p]) + (Drop(Split(uri), n + p) + Literals(P[p + 1..]))
  {
    var n := ShiftCount(methodPos);
    ArgsSingleFromStart(Drop(Split(r.pattern), n), Drop(Split(uri), n), p);
    DropDrop(Split(uri), n, p);
  }

  // ---------------------------------------------------------------------------
  // The three lookups in the router's order

  /** The triple the router builds from a matching route: the controller
      first, its position feeding the method lookup, whose position feeds
      the argument lookup; a configuration error in either lookup is the
      outcome. Every name comes from the configured defaults, the pattern's
      literals or the URI's segments. */
  function Resolve(r: Route, uri: string, cfg: RouterConfig.Config): (res: Result<DispatchRequest, RouteError>)
    ensures var c := GetController(r, uri, cfg);
            res.Ok? <==> c.Ok? && GetMethod(r, uri, cfg, c.value.pos).Ok?
    ensures res.Ok? ==>
              var c := GetController(r, uri, cfg).value;
              var m := GetMethod(r, uri, cfg, c.pos).value;
              res.value == DispatchRequest(c.name, m.name, GetArgs(r, uri, m.pos))
    ensures var c := GetController(r, uri, cfg);
            res.Err? ==> res.error == if c.Err? then c.error else GetMethod(r, uri, cfg, c.value.pos).error
  {
    var c :- GetController(r, uri, cfg);
    var m :- GetMethod(r, uri, cfg, c.pos);
    Ok(DispatchRequest(c.name, m.name, GetArgs(r, uri, m.pos)))
  }

  /** Every name `Resolve` dispatches to comes from the configured
      defaults, the pattern's segments or the URI's segments. */
  lemma ResolveNamesIn(r: Route, uri: string, cfg: RouterConfig.Config)
    ensures var res := Resolve(r, uri, cfg);
            res.Ok? ==> var d := res.value;
              && (d.controllerName == cfg.defaultController || d.controllerName in Split(r.pattern) || d.controllerName in Split(uri))
              && (d.methodName == cfg.defaultMethod || d.methodName in Split(r.pattern) || d.methodName in Split(uri))
              && forall x :: x in d.args ==> x in Split(r.pattern) || x in Split(uri)
  {
    var res := Resolve(r, uri, cfg);
    if res.Ok? {
      var c := GetController(r, uri, cfg).value;
      var m := GetMethod(r, uri, cfg, c.pos).value;
      GetArgsIn(r, uri, m.pos);
    }
  }

  /** `Resolve` with the intended method lookup: the method comes after the
      controller; it agrees with `Resolve` whenever the controller is at
      index 0 or defaulted. */
  function ResolveIntended(r: Route, uri: string, cfg: RouterConfig.Config): (res: Result<DispatchRequest, RouteError>)
    ensures GetController(r, uri, cfg).Ok? && GetController(r, uri, cfg).value.pos <= 0 ==>
              res == Resolve(r, uri, cfg)
    ensures var c := GetController(r, uri, cfg);
            res.Ok? <==> c.Ok? && GetMethodIntended(r, uri, cfg, c.value.pos).Ok?
  {
    var c :- GetController(r, uri, cfg);
    var m :- GetMethodIntended(r, uri, cfg, c.pos);
    Ok(DispatchRequest(c.name, m.name, GetArgs(r, uri, m.pos)))
  }

  /** The shipped default routing pattern, as segments. */
  predicate IsDefaultPattern(r: Route) {
    Split(r.pattern) == [ControllerToken, MethodToken, ArgsToken]
  }

  /** The arguments under the default pattern once the method was found
      at index 1: every URI segment from index 2 on. */
  lemma DefaultArgsAfterMethod(r: Route, uri: string)
    requires IsDefaultPattern(r)
    ensures GetArgs(r, uri, 1) == Drop(Split(uri), 2)
  {
    var P, S := Split(r.pattern), Split(uri);
    assert Drop(P, 2) == [ArgsToken];
    GetArgsSingle(r, uri, 1, 0);
    assert Literals(Drop(P, 2)[..0]) == [] by {
      assert Drop(P, 2)[..0] == [];
    }
    assert Literals(Drop(P, 2)[1..]) == [] by {
      assert Drop(P, 2)[1..] == [];
    }
    assert [] + (Drop(S, 2) + []) == Drop(S, 2);
  }

  /** The arguments under the default pattern when the method was
      defaulted: the whole pattern is read, and `{args}` at index 2 still
      takes every URI segment from index 2 on. */
  lemma DefaultArgsDefaultMethod(r: Route, uri: string)
    requires IsDefaultPattern(r)
    ensures GetArgs(r, uri, -1) == Drop(Split(uri), 2)
  {
    var P, S := Split(r.pattern), Split(uri);
    assert Drop(P, 0) == P;
    assert P[2] == ArgsToken && ArgsToken !in P[..2] && ArgsToken !in P[3..] by {
      assert P[..2] == [ControllerToken, MethodToken];
      assert P[3..] == [];
    }
    GetArgsSingle(r, uri, -1, 2);
    assert Literals(P[..2]) == [] by {
      TokenLiterals();
      var front := P[..2];
      assert front == [ControllerToken, MethodToken];
      assert front[0] == ControllerToken && front[1..] == [MethodToken];
      assert Literals(front[1..]) == [] by {
        assert front[1..][1..] == [];
      }
    }
    assert Literals(P[3..]) == [] by {
      assert P[3..] == [];
    }
    assert [] + (Drop(S, 2) + []) == Drop(S, 2);
  }

  /** The shipped default pattern `{controller}/{method}/{args}`: the
      controller is the first URI segment, the method the second, the
      arguments all segments from the third on, with the defaults standing
      in for what is missing (a URI whose first segment is empty counts as
      having none, but its arguments are still read from index 2). */
  lemma DefaultPatternResolution(r: Route, uri: string, cfg: RouterConfig.Config)
    requires IsDefaultPattern(r)
    ensures var S := Split(uri);
      Resolve(r, uri, cfg) == Ok(DispatchRequest(
        if S[0] == "" then cfg.defaultController else S[0],
        if S[0] != "" && |S| > 1 then S[1] else cfg.defaultMethod,
        Drop(S, 2)))
  {
    TokenLiterals();
    var P, S := Split(r.pattern), Split(uri);
    assert Skip(P, 0) == 0 && Skip(P, 1) == 1;
    var cName, cPos := if S[0] == "" then cfg.defaultController else S[0], if S[0] == "" then -1 else 0;
    assert GetController(r, uri, cfg) == Ok(Resolved(cName, cPos));
    var mName := if S[0] != "" && |S| > 1 then S[1] else cfg.defaultMethod;
    var mPos := if S[0] != "" && |S| > 1 then 1 else -1;
    assert GetMethod(r, uri, cfg, cPos) == Ok(Resolved(mName, mPos));
    if mPos == 1 {
      DefaultArgsAfterMethod(r, uri);
    } else {
      DefaultArgsDefaultMethod(r, uri);
    }
  }

  // ---------------------------------------------------------------------------
  // Where the source departs from its own comments (see the README)

  /** `matches` as written never splits a non-empty URI, so a route
      `a/{*}` (such as `blog/{*}`) does not match any URI `a/b` (such as
      `blog/view`) whose first segment it names; the intended matching
      does. */
  lemma PrefixedPathMissed(r: Route, uri: string)
    requires Split(r.path) == [Split(Lower(uri))[0], Wildcard]
    requires |Split(Lower(uri))| == 2 && Split(Lower(uri))[0] !in {"", Wildcard}
    ensures !Matches(r, uri)
    ensures MatchesIntended(r, uri)
  {
    var P := Split(r.path);
    assert uri != "0" by {
      if uri == "0" {
        SplitNoSep(Lower(uri));
      }
    }
    assert P[0] != At([""], 0) && P[0] != Wildcard;
    assert Wildcard !in P[..1];
    MatchesIntendedWildcard(r, uri, 1);
  }

  /** The walk of `matches` falls off the end of a path without `{*}`
      even when every segment agrees: such a path does not match its own
      segments, so it never matches any URI (the empty path against the
      empty URI included), while the intended matching accepts the URI
      equal to the path. */
  lemma ExactPathFallsThrough(r: Route, uri: string)
    requires Wildcard !in Split(r.path)
    ensures !MatchParts(Split(r.path), Split(r.path))
    ensures !Matches(r, uri)
    ensures r.path == Lower(uri) ==> MatchesIntended(r, uri)
  {
  }

  /** `getMethod` as written moves its start index up by one only, so under
      the pattern `{0}/{0}/{controller}/{method}` it lands on the controller
      token itself and falls back to the default method for every four
      segment URI (such as `x/y/c/m`); the intended lookup finds the method
      in the fourth segment. */
  lemma MethodLostAfterIgnoredSegments(r: Route, uri: string, cfg: RouterConfig.Config)
    requires Split(r.pattern) == [Ignore, Ignore, ControllerToken, MethodToken]
    requires |Split(uri)| == 4 && Split(uri)[0] != ""
    ensures GetController(r, uri, cfg) == Ok(Resolved(Split(uri)[2], 2))
    ensures GetMethod(r, uri, cfg, 2) == Ok(Resolved(cfg.defaultMethod, -1))
    ensures GetMethodIntended(r, uri, cfg, 2) == Ok(Resolved(Split(uri)[3], 3))
  {
    var P, U := Split(r.pattern), UriSegments(uri);
    assert IsToken(ControllerToken) by { TokenLiterals(); }
    assert U == Split(uri);
    assert P[0] == Ignore && P[1] == Ignore && P[2] == ControllerToken;
    assert Skip(P, 0) == 2;
    assert AfterIgnored(P, 2) && MethodStart(2) == 2;
    assert Skip(P, 2) == 2;
    IntendedMethodFollowsController(r, uri, cfg, 2);
  }

  /** The same bump with a literal controller at an even index `c >= 2`
      after `{0}` segments (such as `{0}/{0}/blog/{method}/{args}`): the
      method lookup starts on the controller's own literal, so a pattern
      that also has `{method}` raises the method conflict for every URI, and
      one without it dispatches to the controller's name as the method too.
      `IntendedMethodFollowsController` gives the intended outcome. */
  lemma LiteralControllerTakenAsMethod(r: Route, uri: string, cfg: RouterConfig.Config, c: nat)
    requires EvenLiteralController(Split(r.pattern), c)
    ensures var P := Split(r.pattern);
            Resolve(r, uri, cfg)
              == if MethodToken in P then Err(MethodConflict)
                 else Ok(DispatchRequest(P[c], P[c], GetArgs(r, uri, c)))
  {
    EvenLiteralControllerLookups(r, uri, cfg, c);
  }

  /** Under the intended lookup, a `{method}` right after a controller
      found at any index `c >= 1` (such as the literal one above) reads the
      URI segment at its index. */
  lemma IntendedMethodFollowsController(r: Route, uri: string, cfg: RouterConfig.Config, c: nat)
    requires var P, S := Split(r.pattern), Split(uri);
             1 <= c && c + 1 < |P| && P[c + 1] == MethodToken && c + 1 < |S| && S[0] != ""
    ensures GetMethodIntended(r, uri, cfg, c) == Ok(Resolved(Split(uri)[c + 1], c + 1))
  {
    var P, U := Split(r.pattern), UriSegments(uri);
    assert U == Split(uri);
    assert IsToken(MethodToken) by { TokenLiterals(); }
    assert Skip(P, c + 1) == c + 1;
    assert MethodTarget.Token() == MethodToken;
  }

  /** A literal controller at an even index `c >= 2` after only `{0}`
      segments, and no `{controller}` token. */
  predicate EvenLiteralController(P: seq<string>, c: nat) {
    2 <= c < |P| && c % 2 == 0 && !IsToken(P[c]) && ControllerToken !in P
    && forall j :: 0 <= j < c ==> P[j] == Ignore
  }

  /** Both lookups of `LiteralControllerTakenAsMethod`: the controller is
      the literal, and the method lookup reads that same literal. */
  lemma EvenLiteralControllerLookups(r: Route, uri: string, cfg: RouterConfig.Config, c: nat)
    requires EvenLiteralController(Split(r.pattern), c)
    ensures var P := Split(r.pattern);
            && GetController(r, uri, cfg) == Ok(Resolved(P[c], c))
            && GetMethod(r, uri, cfg, c) == if MethodToken in P then Err(MethodConflict) else Ok(Resolved(P[c], c))
  {
    var P := Split(r.pattern);
    assert IsToken(Ignore) by { TokenLiterals(); }
    assert Skip(P, 0) == c;
    assert GetController(r, uri, cfg) == Ok(Resolved(P[c], c));
    MethodAfterController(r, uri, cfg);
    assert MethodStart(c) == c;
    assert Skip(P, c) == c;
  }
}
