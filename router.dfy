/**
 * Matching a request against the whole table at once. The router joins the
 * patterns of the routes that allow the request verb into one alternation of
 * named groups, matches it once, and takes the first named group that
 * captured something. Whether one route's pattern accepts a URI is left to an
 * abstract `Acceptor`; the combined match result follows from it.
 */
module Routing {
  import opened Wrappers
  import opened Text
  import opened Routes
  import opened RouteTable

  /** `accepts(pattern, uri)`: the route pattern matches the whole URI. */
  type Acceptor = (string, string) -> bool

  /** What `match` ends with: a route, `null`, or a thrown `RouteNotFoundException`. */
  datatype MatchResult = Found(name: string, route: Route) | NoRoute | NotFound(message: string)

  function NotFoundMessage(uri: string): string {
    "There is no matching route for \"" + uri + "\""
  }

  /** The route lists the (upper-cased) verb, compared exactly. */
  predicate Serves(e: Entry, verb: string) {
    verb in e.route.methods
  }

  /** The routes that take part in the alternation, in table order. */
  function Eligible(es: seq<Entry>, verb: string): seq<Entry> {
    if es == [] then []
    else Eligible(es[..|es| - 1], verb) + (if Serves(es[|es| - 1], verb) then [es[|es| - 1]] else [])
  }

  /** `(?P<name>pattern)`. */
  function Group(e: Entry): string {
    "(?P<" + e.name + ">" + e.route.pattern + ")"
  }

  /** What the loop of `getRoutesRegexPattern` accumulates: each group followed by `|`. */
  function Body(es: seq<Entry>): string {
    if es == [] then "" else Body(es[..|es| - 1]) + Group(es[|es| - 1]) + "|"
  }

  /** The named group of each route, in order. */
  function GroupsOf(es: seq<Entry>): seq<string> {
    seq(|es|, i requires 0 <= i < |es| => Group(es[i]))
  }

  /** The groups joined by single `|`, nothing around them. */
  function Alternation(es: seq<Entry>): string {
    if es == [] then "" else Implode(GroupsOf(es), '|')
  }

  /** One more route adds its group at the end. */
  lemma GroupsOfSnoc(es: seq<Entry>)
    requires es != []
    ensures GroupsOf(es) == GroupsOf(es[..|es| - 1]) + [Group(es[|es| - 1])]
  {
  }

  lemma {:induction false} BodyIsAlternation(es: seq<Entry>)
    requires es != []
    ensures Body(es) == Alternation(es) + "|"
  {
    var init := es[..|es| - 1];
    var g := Group(es[|es| - 1]);
    if init != [] {
      assert Body(init) == Alternation(init) + "|" by {
        BodyIsAlternation(init);
      }
      assert Alternation(es) == Alternation(init) + "|" + g by {
        GroupsOfSnoc(es);
        ImplodeSnoc(GroupsOf(init), '|', g);
      }
      assert Body(es) == Body(init) + g + "|";
    } else {
      assert GroupsOf(es) == [g];
      assert Body(es) == "" + g + "|";
    }
  }

  lemma {:induction false} AlternationEndsWithParen(es: seq<Entry>)
    requires es != []
    ensures var a := Alternation(es); |a| >= 1 && a[0] == '(' && a[|a| - 1] == ')'
  {
    var gs := GroupsOf(es);
    var n := |es| - 1;
    ImplodeStartsWithFirst(gs, '|');
    assert gs[0][0] == '(';
    if n > 0 {
      assert gs == gs[..n] + [gs[n]];
      ImplodeSnoc(gs[..n], '|', gs[n]);
    }
  }

  /**
   * Trimming `|` off both ends of the accumulated text leaves the groups
   * joined by single `|`: a group itself never begins or ends with `|`.
   */
  lemma TrimmedBody(es: seq<Entry>)
    ensures Trim(Body(es), '|') == Alternation(es)
  {
    if es != [] {
      BodyIsAlternation(es);
      AlternationEndsWithParen(es);
      var a := Alternation(es);
      TrimRightAppend(a, '|');
      TrimRightKeeps(a, '|');
      TrimLeftKeeps(a, '|');
    }
  }

  /** A route takes part exactly when it is in the table and lists the verb. */
  lemma {:induction false} EligibleSpec(es: seq<Entry>, verb: string)
    ensures forall e :: e in Eligible(es, verb) <==> e in es && Serves(e, verb)
    ensures Eligible(es, verb) == [] <==> forall i :: 0 <= i < |es| ==> !Serves(es[i], verb)
  {
    if es != [] {
      var init, last := es[..|es| - 1], es[|es| - 1];
      EligibleSpec(init, verb);
      assert es == init + [last];
    }
  }

  // -------------------------------------------------------------- matching

  /** Index of the first alternative whose pattern accepts the URI. */
  function FirstAccepting(alts: seq<Entry>, uri: string, accepts: Acceptor): (r: Option<nat>)
    ensures r.Some? ==> r.value < |alts| && accepts(alts[r.value].route.pattern, uri)
    ensures r.Some? ==> forall j :: 0 <= j < r.value ==> !accepts(alts[j].route.pattern, uri)
    ensures r.None? ==> forall j :: 0 <= j < |alts| ==> !accepts(alts[j].route.pattern, uri)
  {
    if alts == [] then None
    else match FirstAccepting(alts[..|alts| - 1], uri, accepts)
      case Some(k) => Some(k)
      case None => if accepts(alts[|alts| - 1].route.pattern, uri) then Some(|alts| - 1) else None
  }

  /**
   * The `$matches` array `preg_match` fills for the alternation: the whole
   * match under key 0, then the named group of every alternative up to the one
   * that matched, empty for those that did not take part, the URI for the
   * winner. Nothing is reported past the winner, and an empty alternation
   * matches the empty string at the start of any URI.
   */
  function CombinedMatch(alts: seq<Entry>, uri: string, accepts: Acceptor): Option<seq<(ArrayKey, string)>> {
    if alts == [] then Some([(IntKey(0), "")])
    else match FirstAccepting(alts, uri, accepts)
      case None => None
      case Some(k) =>
        Some([(IntKey(0), uri)] + seq(k + 1, j requires 0 <= j <= k => (StrKey(alts[j].name), if j == k then uri else "")))
  }

  predicate Wins(kv: (ArrayKey, string)) {
    kv.0.StrKey? && kv.1 != ""
  }

  /** Index of the first entry with a string key and a non-empty value. */
  function FirstWin(ms: seq<(ArrayKey, string)>): (r: Option<nat>)
    ensures r.Some? ==> r.value < |ms| && Wins(ms[r.value])
    ensures r.Some? ==> forall j :: 0 <= j < r.value ==> !Wins(ms[j])
    ensures r.None? ==> forall j :: 0 <= j < |ms| ==> !Wins(ms[j])
  {
    if ms == [] then None
    else if Wins(ms[0]) then Some(0)
    else match FirstWin(ms[1..])
      case None => None
      case Some(k) => Some(k + 1)
  }

  /** The scan stops at the first winning entry. */
  lemma FirstWinAt(ms: seq<(ArrayKey, string)>, i: nat)
    requires i < |ms| && Wins(ms[i])
    requires forall j :: 0 <= j < i ==> !Wins(ms[j])
    ensures FirstWin(ms) == Some(i)
  {
  }

  /**
   * What `match` returns or throws as written, from the table, the request
   * and the engine: when the scan finds no winning entry it falls through and
   * returns `null`.
   */
  function Resolve(es: seq<Entry>, verbName: string, uri: string, accepts: Acceptor): MatchResult {
    match CombinedMatch(Eligible(es, Upper(verbName)), uri, accepts)
    case None => NotFound(NotFoundMessage(uri))
    case Some(ms) => Winner(es, ms)
  }

  /** The `foreach` over `$matches`: the route of the first winning key, or `null` when none wins. */
  function Winner(es: seq<Entry>, ms: seq<(ArrayKey, string)>): MatchResult {
    match FirstWin(ms)
    case None => NoRoute
    case Some(i) =>
      match Lookup(es, ms[i].0.s)
      case None => NoRoute
      case Some(r) => Found(ms[i].0.s, r)
  }

  /**
   * `match` with the fall-through closed: when the scan finds no winning
   * entry, `RouteNotFoundException` is thrown, as when the pattern does not
   * match at all; otherwise the result is the one `Resolve` gives.
   */
  function CorrectedResolve(es: seq<Entry>, verbName: string, uri: string, accepts: Acceptor): MatchResult {
    match CombinedMatch(Eligible(es, Upper(verbName)), uri, accepts)
    case None => NotFound(NotFoundMessage(uri))
    case Some(ms) => if FirstWin(ms).None? then NotFound(NotFoundMessage(uri)) else Resolve(es, verbName, uri, accepts)
  }

  // ------------------------------------------------------------ reference

  /** Index in the whole table of the first route that lists the verb and accepts the URI. */
  function FirstServing(es: seq<Entry>, verb: string, uri: string, accepts: Acceptor): (r: Option<nat>)
    ensures r.Some? ==> r.value < |es| && Serves(es[r.value], verb) && accepts(es[r.value].route.pattern, uri)
    ensures r.Some? ==> forall j :: 0 <= j < r.value ==> !(Serves(es[j], verb) && accepts(es[j].route.pattern, uri))
    ensures r.None? ==> forall j :: 0 <= j < |es| ==> !(Serves(es[j], verb) && accepts(es[j].route.pattern, uri))
  {
    if es == [] then None
    else match FirstServing(es[..|es| - 1], verb, uri, accepts)
      case Some(k) => Some(k)
      case None =>
        var last := es[|es| - 1];
        if Serves(last, verb) && accepts(last.route.pattern, uri) then Some(|es| - 1) else None
  }

  /**
   * The outcome stated without the alternation: no route lists the verb, so
   * the empty pattern matches and nothing is returned; or the first route in
   * table order that lists the verb and accepts the URI wins (nothing is
   * returned when the URI is empty, as its group then captured nothing); or no
   * such route, and `RouteNotFoundException` names the URI.
   */
  function Expected(es: seq<Entry>, verb: string, uri: string, accepts: Acceptor): MatchResult {
    if forall i :: 0 <= i < |es| ==> !Serves(es[i], verb) then NoRoute
    else match FirstServing(es, verb, uri, accepts)
      case None => NotFound(NotFoundMessage(uri))
      case Some(i) => if uri == "" then NoRoute else Found(es[i].name, es[i].route)
  }

  /** Scanning the eligible routes finds the route the whole-table scan finds. */
  lemma {:induction false} FirstAcceptingEligible(es: seq<Entry>, verb: string, uri: string, accepts: Acceptor)
    ensures var k := FirstAccepting(Eligible(es, verb), uri, accepts);
      var i := FirstServing(es, verb, uri, accepts);
      (k.None? <==> i.None?) && (k.Some? ==> Eligible(es, verb)[k.value] == es[i.value])
  {
    if es != [] {
      var init, last := es[..|es| - 1], es[|es| - 1];
      FirstAcceptingEligible(init, verb, uri, accepts);
      var a := Eligible(init, verb);
      var k0 := FirstAccepting(a, uri, accepts);
      if Serves(last, verb) {
        var b := a + [last];
        assert Eligible(es, verb) == b;
        assert b[..|b| - 1] == a;
        if k0.Some? {
          assert b[k0.value] == a[k0.value];
        }
      } else {
        assert Eligible(es, verb) == a;
      }
    }
  }

  /** The winner scan on the combined match picks the winning alternative's name. */
  lemma CombinedWinner(alts: seq<Entry>, uri: string, accepts: Acceptor, k: nat)
    requires FirstAccepting(alts, uri, accepts) == Some(k)
    ensures var ms := CombinedMatch(alts, uri, accepts).value;
      if uri == "" then FirstWin(ms).None?
      else FirstWin(ms).Some? && ms[FirstWin(ms).value].0 == StrKey(alts[k].name)
  {
    var ms := CombinedMatch(alts, uri, accepts).value;
    assert |ms| == k + 2 && !Wins(ms[0]);
    forall j | 1 <= j <= k ensures !Wins(ms[j]) {
      assert ms[j] == (StrKey(alts[j - 1].name), "");
    }
    assert ms[k + 1] == (StrKey(alts[k].name), uri);
    if uri != "" {
      FirstWinAt(ms, k + 1);
    } else {
      assert forall j :: 0 <= j < |ms| ==> !Wins(ms[j]);
    }
  }

  /**
   * `match` returns, among the routes that list the upper-cased request verb,
   * the first in table order whose pattern accepts the URI, and throws
   * `RouteNotFoundException` when there is none; with no route for the verb at
   * all it returns nothing.
   */
  lemma ResolveSpec(es: seq<Entry>, verbName: string, uri: string, accepts: Acceptor)
    requires DistinctNames(es)
    ensures Resolve(es, verbName, uri, accepts) == Expected(es, Upper(verbName), uri, accepts)
  {
    var verb := Upper(verbName);
    var alts := Eligible(es, verb);
    EligibleSpec(es, verb);
    FirstAcceptingEligible(es, verb, uri, accepts);
    if alts != [] {
      var k := FirstAccepting(alts, uri, accepts);
      if k.Some? {
        CombinedWinner(alts, uri, accepts, k.value);
        var i := FirstServing(es, verb, uri, accepts).value;
        assert alts[k.value] == es[i];
        LookupUnique(es, es[i].name);
      }
    }
  }

  /**
   * Corrected `match` returns the first route in table order that lists the
   * upper-cased verb and accepts the (non-empty) URI, and in every other case
   * throws `RouteNotFoundException` naming the URI; it never returns `null`.
   */
  lemma CorrectedResolveSpec(es: seq<Entry>, verbName: string, uri: string, accepts: Acceptor)
    requires DistinctNames(es)
    ensures var i := FirstServing(es, Upper(verbName), uri, accepts);
      CorrectedResolve(es, verbName, uri, accepts)
        == if i.Some? && uri != "" then Found(es[i.value].name, es[i.value].route) else NotFound(NotFoundMessage(uri))
  {
    var verb := Upper(verbName);
    var alts := Eligible(es, verb);
    ResolveSpec(es, verbName, uri, accepts);
    EligibleSpec(es, verb);
    FirstAcceptingEligible(es, verb, uri, accepts);
    var k := FirstAccepting(alts, uri, accepts);
    if alts != [] && k.Some? {
      CombinedWinner(alts, uri, accepts, k.value);
    }
  }

  /** The winner is in the table, lists the verb, accepts the URI, and no earlier such route exists. */
  lemma WinnerIsFirst(es: seq<Entry>, verbName: string, uri: string, accepts: Acceptor)
    requires DistinctNames(es) && Resolve(es, verbName, uri, accepts).Found?
    ensures var r := Resolve(es, verbName, uri, accepts);
      exists i :: 0 <= i < |es| && es[i] == Entry(r.name, r.route) && Serves(es[i], Upper(verbName))
        && accepts(es[i].route.pattern, uri)
        && forall j :: 0 <= j < i ==> !(Serves(es[j], Upper(verbName)) && accepts(es[j].route.pattern, uri))
  {
    ResolveSpec(es, verbName, uri, accepts);
    var i := FirstServing(es, Upper(verbName), uri, accepts).value;
    assert es[i] == Entry(es[i].name, es[i].route);
  }

  // ------------------------------------------------------------- the class

  class Router {
    const routes: RouteCollection

    /** A router over the given collection, or over a new, empty one. */
    constructor (collection: RouteCollection?)
      requires collection != null ==> collection.Valid()
      ensures collection != null ==> routes == collection
      ensures collection == null ==> fresh(routes) && routes.entries == []
      ensures routes.Valid()
    {
      if collection != null {
        routes := collection;
      } else {
        routes := new RouteCollection();
      }
    }

    /** `getRoutesRegexPattern`: the delimited alternation of the eligible routes. */
    method RoutesRegexPattern(verbName: string) returns (pattern: string)
      ensures pattern == "`" + Alternation(Eligible(routes.entries, Upper(verbName))) + "`u"
    {
      var verb := Upper(verbName);
      var es := routes.entries;
      var body := "";
      var i := 0;
      while i < |es|
        invariant 0 <= i <= |es|
        invariant body == Body(Eligible(es[..i], verb))
      {
        assert es[..i + 1][..i] == es[..i];
        if verb in es[i].route.methods {
          var before := Eligible(es[..i], verb);
          assert Eligible(es[..i + 1], verb) == before + [es[i]];
          assert (before + [es[i]])[..|before|] == before;
          assert Body(before + [es[i]]) == Body(before) + Group(es[i]) + "|";
          body := body + Group(es[i]) + "|";
        } else {
          assert Eligible(es[..i + 1], verb) == Eligible(es[..i], verb);
        }
        i := i + 1;
      }
      assert es[..i] == es;
      TrimmedBody(Eligible(es, verb));
      pattern := "`" + Trim(body, '|') + "`u";
    }

    /**
     * `match`: build the combined pattern, match it, and return the route
     * named by the first string key whose value is not empty; when there is
     * no such key the loop falls through and nothing (`null`) is returned.
     */
    method Match(verbName: string, uri: string, accepts: Acceptor) returns (r: MatchResult)
      ensures r == Resolve(routes.entries, verbName, uri, accepts)
    {
      var pattern := RoutesRegexPattern(verbName);
      // `preg_match($pattern, $uri, $matches)`; what it reports is fixed by the alternatives.
      var matches := CombinedMatch(Eligible(routes.entries, Upper(verbName)), uri, accepts);
      if matches.None? {
        return NotFound(NotFoundMessage(uri));
      }
      var ms := matches.value;
      var i := 0;
      while i < |ms|
        invariant 0 <= i <= |ms|
        invariant forall j :: 0 <= j < i ==> !Wins(ms[j])
      {
        var key, value := ms[i].0, ms[i].1;
        if key.StrKey? && value != "" {
          FirstWinAt(ms, i);
          var found := routes.GetRoute(key.s);
          assert found == Lookup(routes.entries, key.s);
          if found.Some? {
            return Found(key.s, found.value);
          }
          return NoRoute;
        }
        i := i + 1;
      }
      return NoRoute;
    }
  }
}
