# Router core, modelled in Dafny

This project models the core of a small PHP request router (`Desa\Router`):

- **Route** (`route.dfy`, module `Routes`). A route is built from a path
  template such as `/posts/{id}/{_page}`. Construction validates the verbs,
  extracts the `{\w+}` placeholders as parameters, stores per-parameter
  requirements, and compiles an anchored regular expression.
  - A placeholder `{_x}` that ends the path makes `x` optional.
  - Its group becomes `(?:/|/(c)?)?`, after every trailing `/` already built
    has been trimmed.
- **Path templates** (`template.dfy`, module `Template`).
  - The placeholder scan shared by `preg_split` and `preg_match_all`
    (leftmost match, left to right, no overlap).
  - `preg_quote` as a per-character escape that leaves `/` alone.
- **PHP string functions** (`text.dfy`, module `Text`). `strtoupper`,
  `explode`/`implode`, `rtrim`/`ltrim`/`trim`, and array keys.
- **Route table** (`route_collection.dfy`, module `RouteTable`).
  - The PHP ordered array from name to route: a new name goes last, an
    existing name is replaced where it stands, and `unset` removes one key.
  - Method normalisation, `any`, `except` and the one-verb shorthands.
  - The class `RouteCollection` updates its `entries` in place.
- **Router** (`router.dfy`, module `Routing`). `getRoutesRegexPattern`
  builds one alternation of named groups from the routes that list the
  upper-cased verb. `match` takes the first named group that captured
  something.
  - Whether one route pattern accepts a URI is an abstract `Acceptor`.
  - The `$matches` array of the combined match is derived from the
    `Acceptor`.
  - `Resolve` is proved equal to the independent `Expected`: the first
    route, in table order, that lists the verb and accepts the URI.
- **Dispatcher** (`dispatcher.dfy`, module `Dispatching`).
  - `getRouteData` drops the whole match, decodes the captures, pads them with
    `null` and zips them with the parameter names.
  - `dispatch` chooses the response that is sent.
- **Worked templates** (`scenarios.dfy`, module `Scenarios`). One plain prefix
  followed by one required or one optional placeholder, compiled in full.

Operations that the PHP code performs step by step are methods with loop
invariants, each proved equal to a specification function:
`ValidateMethods`, `SetParameters`, `SetRequirements`, `BuildRegexPattern`,
`NewRoute`, `RoutesRegexPattern`, `Match`, `GetRouteData` and `Dispatch`.
The lemmas beside them state what those functions mean.

Where the code differs from its evident intent, the model follows the code:

- A route stores its methods exactly as given, not upper-cased. Eligibility
  is an exact comparison against the upper-cased request verb, so a route
  registered with the method string `get` in lower case is never eligible.
- With no route for the request verb, the combined pattern is empty and
  matches. `match` then returns `null` instead of throwing
  `RouteNotFoundException`. The `Router` and `Dispatcher` classes model this
  as written (`Routing.Resolve`, `Dispatching.DispatchOutcome`). The
  corrected behaviour is stated separately, as `Routing.CorrectedResolve` and
  `Dispatching.CorrectedOutcome` (see Findings).
- `dispatch` catches only `Exception`. A PHP `Error` is not caught, such as a
  method call on `null` or a failing `array_combine`; the model calls this
  outcome `Uncaught`.
- `isOptionalParameter` compares by name. In `/{x}/{_x}` both parameters are
  named `x`, so both get the optional group. The lemmas that describe the
  pattern as "groups, then the optional group" assume no earlier parameter
  shares the optional name.

## Model

| member | source | states |
|---|---|---|
| Text.UpperChar | src/Route.php:89 | `strtoupper` on one character maps `a`–`z` to `A`–`Z` and leaves every other character unchanged, so its result is never a lower-case letter |
| Text.Upper | src/Route.php:89 | the upper-cased string has the same length, and each character is the upper-cased character at that position |
| Text.UpperIdentity | src/RouteCollection.php:70 | a string without lower-case letters is its own upper-case form |
| Text.Explode | src/RouteCollection.php:52 | `explode` always yields at least one piece |
| Text.ImplodeExplode | src/RouteCollection.php:52 | joining the pieces of an exploded string with the separator gives back the string |
| Text.ExplodePiecesHaveNoSeparator | src/RouteCollection.php:52 | no piece of an exploded string contains the separator |
| Text.ExplodeImplode | src/RouteCollection.php:52 | pieces free of the separator survive implode and then explode unchanged |
| Text.ExplodeFree | src/RouteCollection.php:52 | a separator-free string followed by the end or a separator is one whole piece |
| Text.TrimRight | src/Route.php:184 | `rtrim` yields a prefix that does not end with the character, and every character it removed was that character |
| Text.TrimRightAppend | src/Route.php:184 | one more trailing character is trimmed with the rest |
| Text.TrimLeft | src/Router.php:79 | `ltrim` yields a suffix that does not start with the character, and every character it removed was that character |
| Text.Trim | src/Router.php:79 | `trim` keeps a slice of the input with only that character cut away before and after it; the slice neither starts nor ends with the character, and it is empty exactly when the input consists of that character only |
| Template.WordRun | src/Route.php:156 | the greedy `\w+` run: all of its characters are word characters, and the next one is not |
| Template.PlaceholderAt | src/Route.php:156 | a placeholder found at the front is `{name}` with `name` one or more word characters |
| Template.PlaceholderAtExact | src/Route.php:221 | text starting with `{name}` has exactly that placeholder at the front, whatever follows |
| Template.Scan | src/Route.php:156 | the scan cuts the path into one more static fragment than names, and every name is a word |
| Template.ScanJoin | src/Route.php:156-157 | interleaving the fragments with the braced names gives back the path: `preg_split` loses nothing |
| Template.ScanFindsAll | src/Route.php:221-226 | the scan finds no name exactly when the path contains no `{\w+}` |
| Template.StaticsHaveNoPlaceholder | src/Route.php:156 | no static fragment contains a placeholder the scan missed |
| Template.PlaceholderInsidePrefix | src/Route.php:156 | in `p{w}`, a placeholder at the front of a non-empty `p` lies within `p` |
| Template.ScanAtPlaceholder | src/Route.php:156 | proof step: at a placeholder the scan yields an empty fragment, then the name, then the rest |
| Template.ScanAtPlain | src/Route.php:156 | proof step: away from a placeholder the first character joins the first fragment |
| Template.EndsInNameAfterPlaceholder | src/Route.php:221 | a placeholder scanned in front keeps the last name and the empty last fragment |
| Template.EndsInNameAfterText | src/Route.php:221 | text scanned in front keeps the last name and the empty last fragment |
| Template.ScanTrailing | src/Route.php:245 | a path ending with `{w}` has `w` as its last name, followed by an empty fragment |
| Template.ScanPlainPrefix | src/Route.php:156 | a brace-free prefix is glued onto the first fragment, and the names are unchanged |
| Template.ScanPlaceholder | src/Route.php:156 | a path that is only `{w}` splits into two empty fragments around `w` |
| Template.QuoteChar | src/Route.php:157 | definition: `preg_quote` of one character puts a backslash before each metacharacter, writes NUL as `\000` and leaves `/` alone; its properties are stated by `QuoteCharSlash` |
| Template.Quote | src/Route.php:157 | definition: `preg_quote` without a delimiter escapes character by character; its properties are stated by `QuoteConcat`, `QuoteTrimSlashes` and `QuotePlain` |
| Template.QuoteConcat | src/Route.php:157 | `preg_quote` distributes over concatenation |
| Template.QuoteCharSlash | src/Route.php:157 | an escaped character ends in `/` only when it is `/`, and `/` itself is unchanged |
| Template.QuoteTrimSlashes | src/Route.php:184 | trimming trailing `/` commutes with escaping |
| Template.QuotePlain | src/Route.php:157 | text without metacharacters or NUL is its own escape |
| Routes.FirstBadMethod | src/Route.php:88-93 | it finds the first method whose upper-cased form is not a known verb, and all methods before it are allowed |
| Routes.ValidateMethods | src/Route.php:86-96 | no error exactly when every method is allowed once upper-cased; otherwise `BadMethod` names the first bad method, upper-cased |
| Routes.SetParameters | src/Route.php:237-252 | the loop appends the stripped names in order and records the optional parameter |
| Routes.OptionalAmongIsCandidate | src/Route.php:241-247 | the optional parameter comes from a `_`-prefixed name whose `{_x}` text ends the path |
| Routes.OptionalIffTrailing | src/Route.php:241-247 | a template's optional parameter is `x` exactly when the path ends with `{_x}` and `x` is a word |
| Routes.TrailingIsLastName | src/Route.php:245 | when the path ends with `{_x}`, `_x` is the last placeholder, with no fragment after it |
| Routes.SetRequirements | src/Route.php:289-318 | the loop stores each string pair for a declared parameter and throws `InvalidRequirement` at the first non-string pair |
| Routes.ConditionsErrSticks | src/Route.php:291-299 | once a prefix of the requirements throws, the whole list throws the same error |
| Routes.ConditionsSpec | src/Route.php:289-318 | requirements are accepted exactly when all are string pairs; then a name has a condition exactly when it is a declared parameter with a requirement, and the condition is that requirement's value |
| Routes.BuildRegexPattern | src/Route.php:171-198 | the accumulated `$pattern`, with the leftover fragment appended and `^`/`$` around it, equals the specification `Built`/`PatternBody` |
| Routes.CompileRoute | src/Route.php:154-162 | the stored pattern is the compiled escaped fragments, and it always starts with `^` and ends with `$` |
| Routes.NewRoute | src/Route.php:60-77 | the constructor's steps, in the constructor's order, yield exactly `MakeRoute(args)`: a route or the exception thrown |
| Routes.MakeRoute | src/Route.php:60-77 | definition: the route the constructor builds, or the exception it throws; its meaning is stated by `MakeRouteOutcome` and the route lemmas after it |
| Routes.MakeRouteOutcome | src/Route.php:64-74 | a bad verb throws `BadMethod`; with good verbs, construction succeeds exactly when all requirements are string pairs; methods are stored as given, `["GET"]` when absent |
| Routes.RouteParameters | src/Route.php:219-252 | the parameters are the placeholder names, left to right with `_` stripped; the fragments around them hold no placeholder and rejoin to the path |
| Routes.RouteOptional | src/Route.php:241-247 | a route's optional parameter is `x` exactly when its path ends with `{_x}` |
| Routes.Route.Requirement | src/Route.php:328-335 | definition: `getRequirment($p, $default)`, with the default as an argument; its meaning is stated by `RouteRequirement` |
| Routes.RouteRequirement | src/Route.php:328-335 | `getRequirment(p, d)` is the requirement given for a declared `p`, and the default `d` in every other case; with the default `[^/]+` it is the group content the pattern uses |
| Routes.Route.IsStatic | src/Route.php:343-346 | definition: `isStatic()`, the path has no placeholder; its meaning is stated by `StaticRoute` |
| Routes.StaticRoute | src/Route.php:343-346 | `isStatic()` holds exactly when the route has no parameter, and its pattern is then `^`, the escaped path, `$` |
| Routes.RouteFields | src/Route.php:60-77 | a constructed route holds the path, the stripped names, the optional name, the accepted conditions and the compiled pattern |
| Routes.CompiledStatic | src/Route.php:193-197 | a template without placeholders compiles to its escaped text, anchored |
| Routes.BodyStatic | src/Route.php:194 | proof step: with no parameter, the body is the one fragment |
| Routes.BuiltRequiredStep | src/Route.php:179-182 | proof step: a parameter other than the optional one appends its fragment and its group |
| Routes.BuiltRequired | src/Route.php:176-187 | as long as no parameter is the optional one, the builder fills each gap between fragments with the parameter's group |
| Routes.RequiredOnlyPattern | src/Route.php:175-192 | without an optional parameter, a route's pattern is the escaped fragments with each placeholder replaced, in order, by its group, anchored |
| Routes.OptionalIsLastName | src/Route.php:241-247 | the optional parameter is the last parameter, and no fragment follows it |
| Routes.TrailingOptionalPattern | src/Route.php:175-192 | with optional `x`, the pattern is everything built before `x` with trailing `/` trimmed, then the optional group, then `$`; when no earlier name is `x`, what was built is the fragments filled with groups |
| Routes.CompiledTrailing | src/Route.php:184-191 | the same statement, for given escaped fragments ending in an empty one |
| Routes.BodyTrailing | src/Route.php:184-191 | the body for a last optional parameter is the trimmed prefix followed by the optional group |
| Routes.BodyTrailingFill | src/Route.php:176-191 | the same, with the prefix written as the fragments filled with groups |
| Routes.BuiltOptionalLast | src/Route.php:184-185 | proof step: the step for the optional parameter: trim every trailing `/`, then append the optional group |
| RouteTable.IndexOf | src/RouteCollection.php:29 | it finds the position of the first entry with that name, or reports that no entry has it |
| RouteTable.Lookup | src/RouteCollection.php:27-32 | definition: `getRoute($name)`, the route stored under the name or `null`; its meaning is stated by `LookupUnique` |
| RouteTable.Store | src/RouteCollection.php:89 | definition: `$routes[$name] = $route` on the ordered array; its meaning is stated by `StoreSpec` |
| RouteTable.StoreSpec | src/RouteCollection.php:89 | storing keeps names distinct, and the name now looks up the new route while other names look up what they did. A new name is appended last. An existing name is replaced at its own position, with every other entry left where it was. The name set gains the name |
| RouteTable.StorePlaces | src/RouteCollection.php:89 | storing writes the entry at the name's old position or at the end, and every other entry stays put |
| RouteTable.LookupAfterStore | src/RouteCollection.php:89 | storing under one name leaves every other lookup unchanged |
| RouteTable.LookupUnique | src/RouteCollection.php:29-30 | with distinct names, a lookup finds an entry wherever it stands |
| RouteTable.Remove | src/RouteCollection.php:95-100 | definition: `unset` guarded by `array_key_exists`; its meaning is stated by `RemoveSpec` |
| RouteTable.RemoveSpec | src/RouteCollection.php:95-100 | removing cuts out exactly the entry with that name, so the others keep their order and their lookups; the name then looks up nothing, and an absent name leaves the table as it was |
| RouteTable.LookupAfterRemoveAt | src/RouteCollection.php:98 | cutting out one entry leaves the lookups of other names unchanged |
| RouteTable.RemoveAt | src/RouteCollection.php:98 | cutting out entry `i` shifts the later entries down by one and keeps names distinct |
| RouteTable.NameSetCons | src/RouteCollection.php:177-180 | proof step: the names of a table are its first name and the names of the rest |
| RouteTable.FirstNameFresh | src/RouteCollection.php:177-180 | in a table of distinct names the first name is not among the others |
| RouteTable.DistinctCount | src/RouteCollection.php:177-180 | the number of entries equals the number of distinct names |
| RouteTable.NormalizeMethods | src/RouteCollection.php:41-75 | the method argument is split, checked and validated exactly as `NormalizedMethods` specifies |
| RouteTable.NormalizedMethodsSpec | src/RouteCollection.php:41-75 | a non-string, non-array argument is refused; otherwise the methods are accepted exactly when every entry is a verb once upper-cased; a string gives the pieces between its separators, which rejoin to it |
| RouteTable.WithoutSpec | src/RouteCollection.php:115 | `array_diff` keeps exactly the verbs not literally given, in their original order |
| RouteTable.ExceptVerbsSpec | src/RouteCollection.php:113-118 | the verbs `except` registers are exactly the canonical verbs that do not appear with the same spelling among the given ones; they keep the canonical order and pass method validation |
| RouteTable.VerbLetters | src/RouteCollection.php:14 | the canonical verbs are written in capital letters only |
| RouteTable.VerbIsUpper | src/RouteCollection.php:14 | each canonical verb is its own upper-case form |
| RouteTable.Registered | src/RouteCollection.php:80-90 | definition: the table after `addRoute`, or the exception it throws; its meaning is stated by `RegisteredSpec` |
| RouteTable.RegisteredSpec | src/RouteCollection.php:80-90 | after `addRoute` the name looks up a route built from the given path, handler and normalised methods, and other names are unchanged; it fails only through method normalisation or route construction |
| RouteTable.ShorthandMethods | src/RouteCollection.php:123-158 | each one-verb shorthand registers exactly `[verb]` |
| RouteTable.AnyMethods | src/RouteCollection.php:105-108 | `any` registers all five verbs in canonical order |
| RouteTable.RouteCollection.constructor | src/RouteCollection.php:18 | a new collection is empty |
| RouteTable.RouteCollection.GetRoute | src/RouteCollection.php:27-32 | returns a route exactly when the name is stored, and then it is the route stored under that name |
| RouteTable.RouteCollection.Count | src/RouteCollection.php:177-180 | the count is the number of distinct names |
| RouteTable.RouteCollection.AddRoute | src/RouteCollection.php:80-90 | on success the table becomes the registered table; on an exception the table is unchanged; names stay distinct |
| RouteTable.RouteCollection.RemoveRoute | src/RouteCollection.php:95-100 | the table becomes `Remove(old, name)`, and names stay distinct |
| RouteTable.RouteCollection.Any | src/RouteCollection.php:105-108 | registers the route for all five verbs |
| RouteTable.RouteCollection.Except | src/RouteCollection.php:113-118 | validates the given methods, then registers the complementary verbs |
| RouteTable.RouteCollection.AddForVerb | src/RouteCollection.php:123-158 | registers with the verb as the method string |
| RouteTable.RouteCollection.Get | src/RouteCollection.php:123-126 | registers for `GET` |
| RouteTable.RouteCollection.Post | src/RouteCollection.php:131-134 | registers for `POST` |
| RouteTable.RouteCollection.Put | src/RouteCollection.php:139-142 | registers for `PUT` |
| RouteTable.RouteCollection.Patch | src/RouteCollection.php:147-150 | registers for `PATCH` |
| RouteTable.RouteCollection.Delete | src/RouteCollection.php:155-158 | registers for `DELETE` |
| Routing.GroupsOfSnoc | src/Router.php:72-77 | proof step: one more route adds its group at the end |
| Routing.BodyIsAlternation | src/Router.php:72-77 | the accumulated text is the groups joined by the separator, with one separator after the last group |
| Routing.AlternationEndsWithParen | src/Router.php:75 | the alternation starts with `(` and ends with `)` |
| Routing.TrimmedBody | src/Router.php:79 | trimming the separator from both ends leaves the groups joined by single separators, with nothing around them |
| Routing.EligibleSpec | src/Router.php:74 | a route takes part exactly when it is in the table and lists the verb; there are no alternatives exactly when no route lists it |
| Routing.FirstAccepting | src/Router.php:44 | it finds the first alternative whose pattern accepts the URI; none before it accepts |
| Routing.FirstWin | src/Router.php:49-53 | it finds the first entry with a string key and a non-empty value |
| Routing.FirstWinAt | src/Router.php:49-53 | the scan stops at the first winning entry |
| Routing.FirstServing | src/Router.php:44-53 | it finds the first route in the whole table that lists the verb and accepts the URI |
| Routing.FirstAcceptingEligible | src/Router.php:72-76 | the first accepting alternative is the first serving route of the whole table |
| Routing.CombinedMatch | src/Router.php:44 | definition: the `$matches` array of the combined match, derived from the per-route `Acceptor`; its meaning for `match` is stated by `CombinedWinner` |
| Routing.CombinedWinner | src/Router.php:44-53 | the winner scan of the combined match picks the accepting alternative's name, or nothing for an empty URI |
| Routing.Resolve | src/Router.php:38-58 | definition: `match` as written, including the fall-through that returns `null`; its meaning is stated by `ResolveSpec` |
| Routing.ResolveSpec | src/Router.php:38-58 | `match` as written equals `Expected`. No route lists the verb: `null`. Otherwise the first route in table order that lists the verb and accepts the URI. If there is none, `RouteNotFoundException` naming the URI |
| Routing.CorrectedResolve | src/Router.php:44-57 | corrected definition: `match` with the fall-through throwing `RouteNotFoundException`; its meaning is stated by `CorrectedResolveSpec` |
| Routing.CorrectedResolveSpec | src/Router.php:44-57 | corrected `match` returns the first route in table order that lists the verb and accepts the non-empty URI; in every other case it throws `RouteNotFoundException` naming the URI, and it never returns `null` |
| Routing.WinnerIsFirst | src/Router.php:49-53 | a returned route is in the table, lists the verb, accepts the URI, and no earlier route does both |
| Routing.Router.constructor | src/Router.php:30-33 | the router uses the given collection, or a new empty one |
| Routing.Router.RoutesRegexPattern | src/Router.php:67-80 | the loop result is the delimited alternation of the eligible routes' groups, with the `u` flag |
| Routing.Router.Match | src/Router.php:38-58 | the winner scan returns `Resolve(table, verb, uri)`: the route of the first string key with a non-empty value, not-found when the combined pattern does not match, and nothing (`null`) when the loop finds no such key |
| Dispatching.ZipKeys | src/Dispatcher.php:88 | the keys of `array_combine` are exactly the names |
| Dispatching.ZipAt | src/Dispatcher.php:88 | a name not repeated later is bound to the value at its position |
| Dispatching.RouteData | src/Dispatcher.php:67-89 | definition: the parameters `getRouteData` returns, or nothing when `array_combine` fails; its meaning is stated by `RouteDataSpec` |
| Dispatching.RouteDataSpec | src/Dispatcher.php:67-89 | `array_combine` fails exactly when there are more captures than parameters. Otherwise the keys are the parameters, and the i-th parameter gets the decoded i-th capture, or `null` when there is none |
| Dispatching.GetRouteData | src/Dispatcher.php:67-89 | the shift, decode and padding loop yields `RouteData` |
| Dispatching.DispatchOutcome | src/Dispatcher.php:35-57 | definition: `dispatch` as written; its meaning is stated by `UnmatchedIsNotFound`, `StaticWinnerKeepsAttributes`, `DynamicWinnerBindsParameters` and `NoEligibleRouteIsUncaught` |
| Dispatching.UnmatchedIsNotFound | src/Dispatcher.php:50-51 | when some route lists the verb but none accepts the URI, a 404 response with the not-found message is sent and the attributes are unchanged |
| Dispatching.StaticWinnerKeepsAttributes | src/Dispatcher.php:40-45 | a static winner is called with the request as it came, and its reply decides the response |
| Dispatching.DynamicWinnerBindsParameters | src/Dispatcher.php:40-45 | a winner with parameters is called with them added to the attributes, which they override; a failing binding is uncaught |
| Dispatching.Respond | src/Dispatcher.php:45-53 | definition: a `Response` is sent as it is, any other reply as 404 "Not Found", an exception as 404 with its message; used by the winner lemmas |
| Dispatching.OutcomeOf | src/Dispatcher.php:37-54 | definition: what `dispatch` does once `match` has returned; its meaning is stated by `UncaughtCauses` |
| Dispatching.UncaughtCauses | src/Dispatcher.php:37-54 | only a `null` route or a failing binding escapes both `catch` blocks |
| Dispatching.NoEligibleRouteIsUncaught | src/Dispatcher.php:38-40 | as written: with no route for the verb, dispatch ends in an uncaught error |
| Dispatching.DeleteOnGetOnlyTable | src/Dispatcher.php:38-40 | as written: a DELETE request against a table holding one GET route ends in an uncaught error |
| Dispatching.CorrectedOutcome | src/Dispatcher.php:35-57 | corrected definition: `dispatch` over the corrected `match`; its meaning is stated by `CorrectedNoEligibleRouteIs404` and `UncaughtOnlyOnBinding` |
| Dispatching.CorrectedNoEligibleRouteIs404 | src/Dispatcher.php:50-51 | corrected: with no route for the verb, a 404 not-found response is sent |
| Dispatching.UncaughtOnlyOnBinding | src/Dispatcher.php:37-54 | corrected: the only uncaught error left is a failing parameter binding of the winning route |
| Dispatching.Dispatcher.constructor | src/Dispatcher.php:23-26 | the dispatcher uses the given router, or a new one over an empty table |
| Dispatching.Dispatcher.Dispatch | src/Dispatcher.php:35-57 | the response sent and the resulting attributes are `DispatchOutcome`: match as written, an uncaught error when match returns `null`, bind for a dynamic route, call the handler, replace a non-response by 404 "Not Found", send a not-found exception as 404 with its message |
| Scenarios.OnePlaceholderScan | src/Route.php:156 | plain text followed by one placeholder scans to that text, an empty fragment and the one name |
| Scenarios.PlainParts | src/Route.php:157 | escaping leaves plain fragments unchanged |
| Scenarios.RequiredPlaceholderPattern | src/Route.php:171-198 | `p{w}`, with `w` not starting with `_`, compiles to `^p(c)$` with no optional parameter |
| Scenarios.RequiredBody | src/Route.php:176-192 | the body for one required parameter after plain text is the text followed by `(c)` |
| Scenarios.OptionalPlaceholderPattern | src/Route.php:241-247 | `p{_x}` has the one optional parameter `x` and compiles to `^`, then `p` without trailing slashes, then the optional group, then `$` |
| Scenarios.OptionalBody | src/Route.php:184-185 | the body for one optional parameter after plain text is the trimmed text followed by the optional group |

## Left out

- The PCRE engine is not modelled. `preg_match` acceptance of one route
  pattern is the abstract `Acceptor`. The first match set of
  `preg_match_all` is the abstract `Capturer`.
  - The combined `$matches` array is derived from the `Acceptor`, with only
    the named entries of the alternatives and no numbered duplicates or inner
    groups.
  - The per-route `^`/`$` anchors inside the alternation are kept textually;
    what they mean to the engine is part of the `Acceptor`.
- `preg_match` returning `false` on an invalid pattern is not modelled, for
  example when a route name is not a valid group label.
- The `u` flag and UTF-8 are not modelled. `\w` is ASCII, and `strtoupper` is
  ASCII.
- `urldecode` is the abstract `Decoder`.
- `call_user_func` is the abstract `Invoker`. A handler that throws a PHP
  `Error` instead of an `Exception` is not distinguished.
- The Symfony `Request`/`Response` objects are values. `send()` is not
  modelled; `Dispatch` returns the response it would send.
  `attributes->add` is map union, with the new values winning.
- Requirements are given as a sequence of key–value pairs, in array order.
  - The keys are distinct (the type `Routes.Requirements`), since a PHP
    array holds each key once.
  - A `null` requirement argument is the empty sequence.
  - The `callable` type checks on handlers are not modelled.
- PHP coerces numeric-string keys to integers. This is not modelled, for
  route names or for requirement keys. A requirement key is an integer only
  when given as one.
- The `BadMethodException` thrown by src/RouteCollection.php:72 is not
  imported there and would fail to resolve. The model reports it as the
  same `BadMethod` error that src/Route.php:91 throws.
- The interface files (src/RouteInterface.php, src/RouterInterface.php,
  src/RouteCollectionInterface.php) are declarations only and are not part of
  this model.
- The getters (`getMethods`, `getPath`, `getCallback`, `getParameters`,
  `getRegexPattern`) are the fields of the `Route` datatype.
- `getIterator` is not modelled as a member. Iteration order is the order of
  `entries`.
- The Router's delegating registration methods (src/Router.php:85-160) are
  not part of this model. Two of them cannot run: `removeRoute` calls a
  method the collection does not have, and `except` reads an undefined
  property.
- `BuildRegexPattern` pops each fragment by index instead of with
  `array_shift` on a local copy. The sequence of fragments appended is the
  same.

## Findings

| source | as written | input that shows it | evidently intended | confidence | as-written member | corrected member |
|---|---|---|---|---|---|---|
| src/Router.php:44-57 | With no route listing the request verb, the combined pattern is empty. It matches any URI and yields no named entry, so the loop falls through and `match` returns `null`. Then src/Dispatcher.php:40 calls `isStatic()` on `null`, an `Error` that neither `catch` block handles. | a table whose one route lists only `GET`, and a `DELETE` request for `/` | throw `RouteNotFoundException`, so that the dispatcher sends a 404 response with the not-found message | not executed | Dispatching.DeleteOnGetOnlyTable | Routing.CorrectedResolveSpec |
