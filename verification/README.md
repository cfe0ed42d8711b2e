# Serene URL routing, modelled in Dafny

Serene is a small PHP MVC framework. Its router turns a request URI into a
dispatch triple: a controller name, a method name and a list of string
arguments. This project models that routing core (`Serene/Core/Route.php`
and `Serene/Core/Router.php`) as pure Dafny functions and proves what they
compute.

- **`Route`** (module `Route`, `route.dfy`) holds a *path* and a *pattern*. Both are
  lower-cased when the route is built.
  - `Matches` decides whether the path applies to a URI.
  - `GetController`, `GetMethod` and `GetArgs` read the pattern's
    `/`-separated segments against the URI's segments. The special segments
    are `{0}` (skip), `{controller}`, `{method}` and `{args}`; in the path,
    `{*}` matches the rest.
  - PHP keeps the controller and method positions in mutable fields, which
    the next lookup reads. Here they travel explicitly in `Resolved(name,
    pos)` values, where `pos == -1` means the configured default was used.
  - The two "both a string and a parameter" exceptions are `Err` values of a
    `Result`.
  - The regular expression `~\{[a-x0-9]+?\}~` that decides whether a segment
    is a token is modelled exactly:
    - it is unanchored, so `x{ab}y` is a token;
    - its class stops at `x`, so `{y}` is not a token.
- **`Router`** (module `Router`, `router.dfy`):
  - normalises the URI once: trim `/`, lower-case, cut the first occurrence
    of the mount path, drop leading `/`;
  - keeps the routes in order;
  - on `GetRoute`, appends a `{*}` fallback route built from the default
    routing pattern, and resolves with the first route whose path matches.
  - `GetRoute` returns the router with the fallback appended, together with
    the outcome. PHP's `null` is `None`; it never happens, because the
    fallback always matches.
- **`PhpStrings`** (`php_strings.dfy`) gives the PHP string built-ins the
  core relies on:
  - `strtolower` (ASCII);
  - `explode` with and without a limit, and `implode`;
  - `trim` and `ltrim` of one character;
  - removal of the first occurrence of a substring.
- **`RouterConfig`** (`router_config.dfy`) is the `router` section of the
  configuration, as a record, with the shipped values.
- **`Scenarios`** (`examples.dfy`) states what the patterns documented at
  the top of `Route.php` resolve to. Most lemmas cover every URI;
  `Scenarios.IgnoredFirstSegment` covers URIs with at least three segments
  and a non-empty first one. It also covers the shipped configuration and
  the mount-path example in `Router.php`.

Some behaviour of the code as written is worth knowing, and the lemmas
state it:

- `array_search(...) != false` reads a first occurrence at index 0 as
  "absent". So under `{method}/x` the method is the literal `x` instead of
  the conflict error, but `x/{controller}` is a conflict.
- `getMethod` moves a start index that is not past the controller up by one
  per call. With the controller at index `c >= 1` after `{0}` segments, the
  scan begins just after the controller when `c` is odd, but at the
  controller's own segment when `c` is even (`Route.GetMethod`).
- A URI whose first segment is empty (`""`, or one starting with `/`)
  counts as having no segments for the controller and method lookups.
  `getArgs` still reads its segments.
- Under a pattern `c/{method}/{args}` with a literal `c`, a URI with no
  second segment leaves the method at its default. In that case `getArgs`
  shifts nothing off the pattern, so the literal `c` becomes the first
  argument (`Scenarios.LiteralController`).
- `{*}` in a *pattern* is not a token (its `*` is outside the class). It is
  read as a literal.

Three points the model takes from the code agree with the source's own
comments:

- The wildcard is `{*}`, as documented at `Route.php:6`.
- The segment-count check `count($pathParts) - 1 > count($uriParts)`
  allows one URI segment fewer than the path has, to make room for `{*}`,
  as commented at `Route.php:92-94`. So under the intended matching,
  `blog/{*}` matches `blog`.
- `getArgs` shifts off `methodPosition + 1` segments, both the controller
  and the method, as commented at `Route.php:308`.

The exact match of a path without `{*}`, the splitting of non-empty URIs
and the start of the method lookup are treated as source defects under
"## Findings".

## Model

| member | source | states |
|---|---|---|
| PhpStrings.Lower | Serene/Core/Route.php:61-62 | `strtolower` keeps the length, maps each character to its lower-case form (A-Z only) and yields a string without capitals |
| PhpStrings.LowerOfLower | Serene/Core/Route.php:80 | lower-casing a string that is already lower-case changes nothing |
| PhpStrings.LowerConcat | Serene/Core/Router.php:72 | `strtolower` distributes over concatenation |
| PhpStrings.Split | Serene/Core/Route.php:84 | `explode('/', s)` gives at least one segment, no segment contains `/`, and the first segment is empty exactly when `s` is empty or starts with `/` |
| PhpStrings.JoinSplit | Serene/Core/Route.php:84 | `implode('/', explode('/', s)) == s` for every `s` |
| PhpStrings.SplitJoin | Serene/Core/Route.php:84 | exploding the implode of any non-empty list of `/`-free segments gives the list back |
| PhpStrings.SplitInjective | Serene/Core/Route.php:84 | two strings with the same segments are equal |
| PhpStrings.SplitLimit | Serene/Core/Route.php:88 | `explode` with a limit gives at most `max(1, limit)` segments that implode back to `s`; below the limit it is plain `explode`; above it, the segments before the last agree with `explode` and the last holds the unsplit rest, `/` included |
| PhpStrings.LTrim | Serene/Core/Router.php:74 | `ltrim` removes only leading copies of the character and leaves a result that does not start with it |
| PhpStrings.RTrim | Serene/Core/Router.php:71 | the right half of `trim`: removes only trailing copies and leaves a result that does not end with it |
| PhpStrings.Trim | Serene/Core/Router.php:71 | `trim` leaves a string that neither starts nor ends with the character |
| PhpStrings.TrimSlice | Serene/Core/Router.php:71 | `trim` gives the slice of the input between its leading and trailing runs of the character, and only that character was removed |
| PhpStrings.TrimFramed | Serene/Core/Router.php:71 | trimming `/s/` gives `s` back when `s` neither starts nor ends with `/` |
| PhpStrings.LowerKeepsEnds | Serene/Core/Router.php:71-72 | lower-casing keeps a string free of leading and trailing `/` |
| PhpStrings.FindFrom | Serene/Core/Router.php:73 | the search finds an occurrence at or after the start index and none before it, or reports that there is none from there on |
| PhpStrings.RemoveFirst | Serene/Core/Router.php:73 | removing with limit 1 cuts exactly the first occurrence out of the string, and leaves the string unchanged when there is none |
| PhpStrings.RemoveFirstLower | Serene/Core/Router.php:72-73 | removing a substring from a lower-case string keeps it lower-case |
| Route.NewRoute | Serene/Core/Route.php:59-64 | the stored path and pattern are the given ones lower-cased, character by character, with no capitals left |
| Route.IsToken | Serene/Core/Route.php:158 | the `preg_match` test on a segment; `Route.IsTokenSpan` states its meaning |
| Route.IsTokenSpan | Serene/Core/Route.php:158 | a segment is a token exactly when `{`, one or more of `a`-`x` or `0`-`9`, and `}` occur in it consecutively, anywhere |
| Route.TokenLiterals | Serene/Core/Route.php:5-10 | `{0}`, `{controller}`, `{method}` and `{args}` pass the token test, and `{*}` does not |
| Route.At | Serene/Core/Route.php:117 | reading `$uriParts[$element]` past the end gives `null`, which equals a segment exactly when that segment is empty |
| Route.PhpEmpty | Serene/Core/Route.php:86 | `empty()` on a string holds for `""` and `"0"` |
| Route.WalkFrom | Serene/Core/Route.php:101-123 | the loop over path segments yields true exactly when it reaches a `{*}` through segments equal to the URI's; falling off the end yields a falsy `null` |
| Route.MatchParts | Serene/Core/Route.php:96-123 | a path matches exactly when it has at most one segment more than the URI and reaches `{*}` through equal segments |
| Route.Matches | Serene/Core/Route.php:78-123 | as written, the URI seen by the comparison is always the one segment `""` (or `"0"`), so a route matches only when a `{*}` within its first two path segments is reached that way |
| Route.MatchesIntended | Serene/Core/Route.php:71-123 | with the URI split as the comments describe, a path without `{*}` matches exactly the URI equal to it after lower-casing |
| Route.MatchesIntendedWildcard | Serene/Core/Route.php:91-111 | with the first `{*}` at index `k`, the intended match holds exactly when the URI has at most one segment fewer than the path and its first `k` segments equal the path's |
| Route.WildcardPathMatchesAll | Serene/Core/Route.php:106-111 | the path `{*}` matches every URI, as written and as intended |
| Route.MatchingIgnoresCase | Serene/Core/Route.php:80 | two URIs equal after lower-casing match the same routes |
| Route.FirstIndex | Serene/Core/Route.php:160 | `array_search` gives the index of the first occurrence, or nothing exactly when the value is absent |
| Route.Conflicts | Serene/Core/Route.php:160 | `array_search(...) != false` holds exactly when the token occurs and its first occurrence is not at index 0 |
| Route.Skip | Serene/Core/Route.php:179-184 | the `{0}` recursion stops at the first index at or after the start that is not `{0}`, every segment skipped being `{0}` |
| Route.ResolveFrom | Serene/Core/Route.php:133-191 | after skipping `{0}`: a literal is the name at its index unless the target token first occurs at a nonzero index (then the conflict error); the target token takes the URI segment at that index if there is one; anything else gives the default at -1 |
| Route.UriSegments | Serene/Core/Route.php:136-141 | the lookup's URI segments are empty exactly when the URI is empty or starts with `/`, and otherwise are all of `explode`'s segments |
| Route.GetController | Serene/Core/Route.php:133-191 | `getController` in closed form over the pattern, the URI segments and the default: literal, conflict, URI segment and default cases, with every skipped segment `{0}` |
| Route.MethodFrom | Serene/Core/Route.php:212-281 | every outcome of the `getMethod` recursion as written: a default at -1, a literal at or after the start and not `{0}`, a `{method}` filled from the URI at its index, or the conflict error when `{method}` first occurs at a nonzero index; which one occurs is fixed by the four lemmas below |
| Route.MethodFromPastController | Serene/Core/Route.php:218-224 | from a start past the controller's position the index is never bumped, and `getMethod` is the same scan as `getController` |
| Route.MethodFromEvenBump | Serene/Core/Route.php:218-224 | from a start an even number of `{0}` segments before the controller, the bumps carry the start past the controller and the scan begins just after it |
| Route.MethodFromOddBump | Serene/Core/Route.php:218-224 | from a start an odd number of `{0}` segments before the controller, the bumps land the start on the controller's own segment and the scan begins there |
| Route.MethodFromStart | Serene/Core/Route.php:212-281 | the call from index 1 is the shared scan from index 1 (controller at 0 or defaulted), from just after an odd-index controller, or from an even-index controller's own segment |
| Route.GetMethod | Serene/Core/Route.php:212-281 | the method is the default at -1, a literal, or a URI segment under `{method}`, always at index 1 or later; it is the conflict error only when `{method}` occurs past index 0; and for a controller at index 0, defaulted, or after only `{0}` segments, it is exactly the shared scan from the effective start |
| Route.MethodAfterController | Serene/Core/Router.php:109-110 | with the position `getController` leaves, `getMethod` is the shared scan from the effective start, for every pattern and URI |
| Route.GetMethodIntended | Serene/Core/Route.php:218-224 | the corrected lookup starts just after the controller: any method it finds lies after the controller's index with only `{0}` skipped before it, and it agrees with `GetMethod` when the controller is at index 0 or defaulted |
| Route.IntendedAgreesAtOddController | Serene/Core/Route.php:218-224 | the corrected and the as-written lookups also agree for a controller at an odd index after `{0}` segments |
| Route.Drop | Serene/Core/Route.php:310-316 | `n` calls of `array_shift` leave `n` segments fewer, or none when there are at most `n` |
| Route.ShiftCount | Serene/Core/Route.php:310-316 | the shifting loop runs `methodPosition + 1` times, and not at all for -1 |
| Route.ArgsFrom | Serene/Core/Route.php:323-349 | the `foreach` of `getArgs`: literals appended, `{args}` appending the URI from its relative index on, other tokens adding nothing; characterised by the lemmas below |
| Route.GetArgs | Serene/Core/Route.php:301-352 | `getArgs` given the method's position; characterised by `Route.GetArgsNoToken`, `Route.GetArgsSingle` and `Route.GetArgsIn` |
| Route.LiteralsIn | Serene/Core/Route.php:326-331 | every literal `getArgs` appends is a segment of the pattern and not a token |
| Route.ArgsFromNoToken | Serene/Core/Route.php:323-349 | a pattern rest without `{args}` contributes exactly its literals, in order |
| Route.ArgsFromIn | Serene/Core/Route.php:323-349 | every argument collected is a literal of the pattern rest or a URI segment |
| Route.ArgsStepBefore | Serene/Core/Route.php:323-349 | before the single `{args}`, each step prepends the segment's literal to the same tail |
| Route.ArgsAtToken | Serene/Core/Route.php:335-347 | `{args}` at relative index `p` appends the URI segments from index `p` on, then the literals after it |
| Route.ArgsSingle | Serene/Core/Route.php:323-349 | with a single `{args}`, the arguments are the literals before it, the URI segments from its index on, then the literals after it |
| Route.GetArgsNoToken | Serene/Core/Route.php:301-352 | a pattern without `{args}` after the method gives only its literals after the method |
| Route.GetArgsIn | Serene/Core/Route.php:301-352 | every argument is a non-token segment of the pattern or a segment of the URI |
| Route.GetArgsSingle | Serene/Core/Route.php:301-352 | both arrays lose `methodPosition + 1` segments (none for -1); with one `{args}` at index `p` of what is left, the arguments are the literals before it, the URI from index `methodPosition + 1 + p` on, then the literals after it |
| Route.Resolve | Serene/Core/Router.php:109-111 | the triple succeeds exactly when both lookups do, and it is built in the order controller, method (from the controller's position), arguments (from the method's position); a failure is the controller's error when that lookup failed, and the method's otherwise |
| Route.ResolveNamesIn | Serene/Core/Router.php:109-111 | every dispatched name is a configured default, a pattern segment or a URI segment, and every argument a pattern or URI segment |
| Route.ResolveIntended | Serene/Core/Router.php:109-111 | with the corrected method lookup the triple succeeds exactly when both lookups do, and it equals `Resolve` whenever the controller is at index 0 or defaulted |
| Route.DefaultArgsAfterMethod | Serene/Core/Route.php:310-346 | under `{controller}/{method}/{args}` with the method at index 1, the arguments are the URI segments from index 2 on |
| Route.DefaultArgsDefaultMethod | Serene/Core/Route.php:310-346 | under the same pattern with the method defaulted, nothing is shifted and `{args}` still takes the URI from index 2 on |
| Route.DefaultPatternResolution | Serene/Config/router.php:14 | the default pattern dispatches to the first URI segment, the second and the rest, with the defaults for a missing controller or method |
| Route.PrefixedPathMissed | Serene/Core/Route.php:85-89 | as written, `a/{*}` never matches a two-segment URI `a/b`; the intended matching does |
| Route.ExactPathFallsThrough | Serene/Core/Route.php:101-123 | as written, a path without `{*}` does not match even its own segments, so it matches no URI; the intended matching accepts the URI equal to it |
| Route.LiteralControllerTakenAsMethod | Serene/Core/Route.php:218-256 | with a literal controller at an even index `c >= 2` after `{0}` segments and no `{controller}`, a pattern with `{method}` is the method conflict for every URI, and one without it dispatches to the controller's name as the method |
| Route.EvenLiteralControllerLookups | Serene/Core/Route.php:143-256 | in that case the controller is the literal at `c`, and the method lookup reads the same literal |
| Route.IntendedMethodFollowsController | Serene/Core/Route.php:218-256 | under the corrected lookup, a `{method}` right after a controller at index `c >= 1` takes the URI segment at its index |
| Route.MethodLostAfterIgnoredSegments | Serene/Core/Route.php:218-224 | under `{0}/{0}/{controller}/{method}` and a four-segment URI, `getMethod` as written gives the default method, while the corrected lookup gives the fourth segment |
| Router.Normalised | Serene/Core/Router.php:59-72 | the URI taken (the given one, or the server's when it is empty) becomes lower-case, without leading or trailing `/` |
| Router.GetUri | Serene/Core/Router.php:57-80 | the stored URI is lower-case and does not start with `/` |
| Router.GetUriAfterMount | Serene/Core/Router.php:73-74 | a normalised URI that starts with the mount path keeps what follows it, without leading `/` |
| Router.GetUriCutsFirst | Serene/Core/Router.php:73-74 | wherever the mount path first occurs, only that occurrence is cut before the leading `/` are dropped |
| Router.GetUriWithoutMount | Serene/Core/Router.php:73-74 | a URI in which the mount path does not occur is only normalised |
| Router.NewRouter | Serene/Core/Router.php:39-48 | a new router has no routes, keeps the configuration, and stores a lower-case URI that does not start with `/` |
| Router.Add | Serene/Core/Router.php:89-92 | the route goes to the end, and the earlier routes, their order, the configuration and the URI are unchanged |
| Router.Fallback | Serene/Core/Router.php:103 | the appended route `{*}` with the default routing pattern matches every URI, as written and as intended |
| Router.FirstMatch | Serene/Core/Router.php:104-114 | the index found is that of an accepted route with no accepted route before it; nothing is found only when no route is accepted |
| Router.Chosen | Serene/Core/Router.php:103-114 | when the fallback is accepted, the chosen route is an added route or the fallback, and it is accepted |
| Router.ChosenIsFirst | Serene/Core/Router.php:104-114 | the chosen route is the first accepted one in the list with the fallback appended |
| Router.FirstAccepted | Serene/Core/Router.php:104-114 | some index up to the number of added routes is the first one accepted, the fallback's index when no added route is accepted |
| Router.GetRoute | Serene/Core/Router.php:100-115 | every lookup appends exactly one fallback route and never returns `null` |
| Router.GetRouteFirstMatch | Serene/Core/Router.php:104-114 | the outcome is the triple of the first added route that matches the URI, or of the fallback when none does |
| Router.GetRouteIntended | Serene/Core/Router.php:100-115 | with the corrected matching and method lookup, every lookup still appends one fallback and never returns `null` |
| Router.GetRouteIntendedFirstMatch | Serene/Core/Router.php:104-114 | with the corrected matching, the first matching route still wins and the fallback catches the rest |
| Router.GetRouteRepeat | Serene/Core/Router.php:102-103 | a second lookup sees one more fallback but gives the same outcome |
| Router.AddAfterMatch | Serene/Core/Router.php:89-114 | routes added after a matching route do not change the outcome |
| Router.FreshRouterUsesFallback | Serene/Core/Router.php:102-103 | a router without routes resolves every URI with the default routing pattern |
| Scenarios.IgnoredFirstSegment | Serene/Core/Route.php:7 | `{0}/{controller}/{method}/{args}` gives the second and third URI segments and the rest as arguments (`blog/a/b/c` gives `a`, `b`, `[c]`) |
| Scenarios.ThirdSegmentArgs | Serene/Core/Route.php:301-352 | a three-segment pattern ending in `{args}` with the method at index 1 takes the URI from index 2 on as arguments |
| Scenarios.LiteralControllerArgsDefaulted | Serene/Core/Route.php:310-346 | under `c/{method}/{args}` with the method defaulted, the arguments are `c` followed by the URI from index 2 on |
| Scenarios.LiteralController | Serene/Core/Route.php:14 | `c/{method}/{args}` always dispatches to `c`, with the method from the second segment when there is one, and the default with `c` prepended to the arguments otherwise |
| Scenarios.LiteralControllerAndMethod | Serene/Core/Route.php:158-169 | `c/m/{args}` with literals `c` and `m` dispatches to `c` and `m` for every URI, with the URI from the third segment on as arguments |
| Scenarios.ControllerConflictRejected | Serene/Core/Route.php:158-163 | a literal controller with a `{controller}` elsewhere in the pattern is a configuration error for every URI |
| Scenarios.ShippedPatternSplit | Serene/Config/router.php:14 | the shipped default routing pattern splits into `{controller}`, `{method}` and `{args}` |
| Scenarios.ShippedPatternSegments | Serene/Config/router.php:14 | the shipped fallback route uses the default pattern |
| Scenarios.ShippedRouterDefaults | Serene/Config/router.php:6-14 | with the shipped configuration and no routes, the controller is the first URI segment or `controller`, the method the second or `index`, and the arguments the rest |
| Scenarios.MountPathStripped | Serene/Core/Router.php:75-78 | under mount path `p`, the URI `/p/rest/` becomes `rest` lower-cased (`/Portfolio/A/B/C/` becomes `a/b/c`) |
| Scenarios.MountedNormalised | Serene/Core/Router.php:71-72 | the URI `/p/rest/` normalises to `p` and `rest` lower-cased, joined by `/` |

## Left out

- The server's request URI. When `getURI` gets an empty string it reads
  `REQUEST_URI` through `filter_input` with `FILTER_SANITIZE_URL`. That is
  I/O: the model takes that value as the parameter `serverUri` and does not
  model the sanitising filter.
- The mount path as a regular expression. `preg_replace` interprets
  metacharacters in the configured path. The model removes it as a literal
  substring, which is what it is for any plain directory name.
- PHP's loose comparison of numeric strings (`"01" == "1"`). The model
  compares segments as plain strings. The tokens and the empty string
  compare the same way under either rule.
- Multi-byte `strtolower`: only ASCII letters are mapped.
- Exception messages: only which configuration error occurred is kept.
- The configuration singleton and its file parsers (`Config.php`,
  `ConfigParsers/*`): the configuration is a record passed as a parameter.
- The dispatcher, loader, autoloader, controllers, input and database
  classes. They consume the triple or are unrelated I/O.
- `Route::validate()` (`Route.php:66-69`): it has an empty body.
- `getControllerPosition()` and `getMethodPosition()`: their values travel in
  `Resolved` instead of being read from fields.
- The mismatch between the `Base\Route` interface the class implements and
  the `BaseRoute` type `Router::add` expects. It is a class-loading concern,
  not routing behaviour.
- Route.GetArgsSingle: characterises patterns with one `{args}` after the
  method only. With several `{args}` the arguments are given only by
  `ArgsFrom`'s definition and by `Route.GetArgsIn`.

## Findings

| source | as written | input that shows it | evidently intended | confidence | as-written member | corrected member |
|---|---|---|---|---|---|---|
| Serene/Core/Route.php:85-89 | `if (empty($URI))` splits the URI only when it is empty, so every non-empty URI is compared as the single segment `""` | path `blog/{*}` against URI `blog/view`: no match | split the URI whenever it is not empty, so `blog/{*}` matches `blog/view` | high (not executed) | Route.PrefixedPathMissed | Route.MatchesIntendedWildcard |
| Serene/Core/Route.php:101-123 | the `foreach` over the path ends without a `return`, so a path without `{*}` yields `null` even when every segment agrees | the empty path against the empty URI: no match, although both are the single segment `""`; with the URI split as row 1 intends, also path `blog/index` against URI `blog/index` | return true once every segment agreed; the corrected member asks for the same segments, which differs only for a path ending in `/` (path `a/` against URI `a`, where the missing segment reads as `null == ""`) | high (not executed) | Route.ExactPathFallsThrough | Route.MatchesIntended |
| Serene/Core/Route.php:218-224 | `$position++` moves a start index not past the controller up by one only, which can land on the controller itself | pattern `{0}/{0}/{controller}/{method}` against URI `x/y/c/m`: the method is the default `index` | start just after the controller, as the comment says, giving method `m` | high (not executed) | Route.MethodLostAfterIgnoredSegments | Route.GetMethodIntended |
| Serene/Core/Route.php:218-256 | the same one-step bump, with a literal controller at an even index after `{0}` segments, lands the method lookup on the controller's literal | pattern `{0}/{0}/blog/{method}/{args}` against any URI: the method conflict error | start just after the controller, so `{method}` reads the URI's fourth segment | high (not executed) | Route.LiteralControllerTakenAsMethod | Route.IntendedMethodFollowsController |
