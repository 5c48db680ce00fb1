/**
 * Dispatching one request: match it, bind the captured parameters into the
 * request attributes, call the handler and choose the response that is sent.
 * The request is a value here; the attributes it ends with are returned.
 */
module Dispatching {
  import opened Wrappers
  import opened Text
  import opened Routes
  import opened RouteTable
  import opened Routing

  /** Request attributes; a parameter with no captured value is bound to `null` (`None`). */
  type Attributes = map<string, Option<string>>

  datatype Request = Request(verbName: string, uri: string, attributes: Attributes)

  /** What the handler gives back: a `Response`, any other value, or a thrown `Exception`. */
  datatype Reply = AResponse(status: int, body: string) | NotAResponse | Raises(message: string)

  /** The response that is sent, or a PHP `Error` that no `catch` block handles. */
  datatype Outcome = Sent(status: int, body: string) | Uncaught

  /**
   * `capture(pattern, uri)`: the first match set `preg_match_all` reports in
   * `PREG_SET_ORDER` mode, the whole match first, unmatched trailing groups absent.
   */
  type Capturer = (string, string) -> seq<string>

  /** `urldecode`. */
  type Decoder = string -> string

  /** `call_user_func($callback, $request, new Response)`. */
  type Invoker = (Handler, Request) -> Reply

  /** The captures without the whole match, each decoded. */
  function Captured(groups: seq<string>, decode: Decoder): seq<Option<string>> {
    if groups == [] then [] else seq(|groups| - 1, i requires 0 <= i < |groups| - 1 => Some(decode(groups[i + 1])))
  }

  /** `n` times `null`. */
  function Nones(n: nat): seq<Option<string>> {
    seq(n, _ => None)
  }

  /** The values, padded with `null` up to `n` entries when there are fewer. */
  function Padded(vs: seq<Option<string>>, n: nat): seq<Option<string>> {
    if |vs| < n then vs + Nones(n - |vs|) else vs
  }

  /** `array_combine` on lists of equal length: a later duplicate key wins. */
  function Zip(names: seq<string>, values: seq<Option<string>>): Attributes
    requires |names| == |values|
  {
    if names == [] then map[]
    else Zip(names[..|names| - 1], values[..|values| - 1])[names[|names| - 1] := values[|values| - 1]]
  }

  /** `array_combine`, which fails (an `Error`) when the lengths differ. */
  function Combined(names: seq<string>, values: seq<Option<string>>): Option<Attributes> {
    if |names| == |values| then Some(Zip(names, values)) else None
  }

  /** The parameters `getRouteData` returns for a route and a URI, or nothing when `array_combine` fails. */
  function RouteData(route: Route, uri: string, capture: Capturer, decode: Decoder): Option<Attributes> {
    Combined(route.parameters,
             Padded(Captured(capture("`" + route.pattern + "`", uri), decode), |route.parameters|))
  }

  /** The keys of the combined map are exactly the names. */
  lemma {:induction false} ZipKeys(names: seq<string>, values: seq<Option<string>>)
    requires |names| == |values|
    ensures forall k :: k in Zip(names, values) <==> k in names
  {
    if names != [] {
      var n := |names| - 1;
      ZipKeys(names[..n], values[..n]);
      assert names == names[..n] + [names[n]];
    }
  }

  /** A name that does not occur again later is bound to the value at its position. */
  lemma {:induction false} ZipAt(names: seq<string>, values: seq<Option<string>>, i: nat)
    requires |names| == |values| && i < |names|
    requires forall j :: i < j < |names| ==> names[j] != names[i]
    ensures names[i] in Zip(names, values) && Zip(names, values)[names[i]] == values[i]
  {
    var n := |names| - 1;
    if i < n {
      assert names[..n][i] == names[i];
      ZipAt(names[..n], values[..n], i);
      assert values[..n][i] == values[i];
      assert names[n] != names[i];
    }
  }

  /**
   * The whole match is dropped and the other captures are decoded in order;
   * with fewer captures than parameters the rest are bound to `null`; with
   * more, `array_combine` fails. Otherwise the i-th parameter gets the i-th value.
   */
  lemma RouteDataSpec(route: Route, uri: string, capture: Capturer, decode: Decoder)
    ensures var vs := Captured(capture("`" + route.pattern + "`", uri), decode);
      RouteData(route, uri, capture, decode).None? <==> |vs| > |route.parameters|
    ensures var groups := capture("`" + route.pattern + "`", uri);
      var ps := route.parameters;
      RouteData(route, uri, capture, decode).Some? ==>
        var m := RouteData(route, uri, capture, decode).value;
        (forall k :: k in m <==> k in ps) &&
        forall i :: 0 <= i < |ps| && (forall j :: i < j < |ps| ==> ps[j] != ps[i]) ==>
          m[ps[i]] == if i + 1 < |groups| then Some(decode(groups[i + 1])) else None
  {
    var groups := capture("`" + route.pattern + "`", uri);
    var vs := Captured(groups, decode);
    var padded := Padded(vs, |route.parameters|);
    var ps := route.parameters;
    if |padded| == |ps| {
      ZipKeys(ps, padded);
      forall i | 0 <= i < |ps| && (forall j :: i < j < |ps| ==> ps[j] != ps[i])
        ensures Zip(ps, padded)[ps[i]] == if i + 1 < |groups| then Some(decode(groups[i + 1])) else None
      {
        ZipAt(ps, padded, i);
      }
    }
  }

  /** `getRouteData`: shift off the whole match, decode, pad with `null`, combine. */
  method GetRouteData(route: Route, uri: string, capture: Capturer, decode: Decoder) returns (params: Option<Attributes>)
    ensures params == RouteData(route, uri, capture, decode)
  {
    var pattern := "`" + route.pattern + "`";
    var groups := capture(pattern, uri);
    ghost var all := groups;
    if |groups| > 0 {
      groups := groups[1..];
    }
    var values := seq(|groups|, i requires 0 <= i < |groups| => Some(decode(groups[i])));
    assert values == Captured(all, decode);
    var names := route.parameters;
    if |values| < |names| {
      var count := |names| - |values|;
      ghost var start := values;
      var i := 0;
      while i < count
        invariant 0 <= i <= count
        invariant values == start + Nones(i)
      {
        assert Nones(i + 1) == Nones(i) + [None];
        values := values + [None];
        i := i + 1;
      }
    }
    if |names| != |values| {
      return None;
    }
    return Some(Zip(names, values));
  }

  // ------------------------------------------------------------- outcome

  /** The `instanceof Response` check and the two `catch` blocks, all with status 404. */
  function Respond(reply: Reply): Outcome {
    match reply
    case AResponse(status, body) => Sent(status, body)
    case NotAResponse => Sent(404, "Not Found")
    case Raises(message) => Sent(404, message)
  }

  /** What `dispatch` does once `match` has produced `m`. */
  function OutcomeOf(m: MatchResult, req: Request, capture: Capturer, decode: Decoder, invoke: Invoker)
    : (Outcome, Attributes)
  {
    match m
    case NotFound(message) => (Sent(404, message), req.attributes)
    case NoRoute => (Uncaught, req.attributes)
    case Found(_, route) =>
      if route.IsStatic() then (Respond(invoke(route.handler, req)), req.attributes)
      else match RouteData(route, req.uri, capture, decode)
        case None => (Uncaught, req.attributes)
        case Some(params) =>
          var next := req.(attributes := req.attributes + params);
          (Respond(invoke(route.handler, next)), next.attributes)
  }

  /** `dispatch`: the response sent (or the uncaught error) and the request's attributes afterwards. */
  function DispatchOutcome(es: seq<Entry>, req: Request, accepts: Acceptor, capture: Capturer,
                           decode: Decoder, invoke: Invoker): (Outcome, Attributes)
  {
    OutcomeOf(Resolve(es, req.verbName, req.uri, accepts), req, capture, decode, invoke)
  }

  /**
   * When some route lists the verb but none of them accepts the URI,
   * `RouteNotFoundException` is caught and its message is sent with status
   * 404; the attributes are untouched.
   */
  lemma UnmatchedIsNotFound(es: seq<Entry>, req: Request, accepts: Acceptor, capture: Capturer,
                            decode: Decoder, invoke: Invoker)
    requires DistinctNames(es)
    requires exists i :: 0 <= i < |es| && Serves(es[i], Upper(req.verbName))
    requires FirstServing(es, Upper(req.verbName), req.uri, accepts).None?
    ensures DispatchOutcome(es, req, accepts, capture, decode, invoke) == (Sent(404, NotFoundMessage(req.uri)), req.attributes)
  {
    ResolveSpec(es, req.verbName, req.uri, accepts);
  }

  /**
   * A static winner is called with the request as it came, whose attributes
   * stay untouched; its reply decides the response.
   */
  lemma StaticWinnerKeepsAttributes(es: seq<Entry>, req: Request, accepts: Acceptor, capture: Capturer,
                                    decode: Decoder, invoke: Invoker)
    requires DistinctNames(es) && req.uri != ""
    requires FirstServing(es, Upper(req.verbName), req.uri, accepts).Some?
    requires es[FirstServing(es, Upper(req.verbName), req.uri, accepts).value].route.IsStatic()
    ensures var w := es[FirstServing(es, Upper(req.verbName), req.uri, accepts).value];
      DispatchOutcome(es, req, accepts, capture, decode, invoke) == (Respond(invoke(w.route.handler, req)), req.attributes)
  {
    ResolveSpec(es, req.verbName, req.uri, accepts);
  }

  /**
   * A winner with parameters is called with its parameters added to the
   * request attributes (replacing attributes of the same name), unless binding fails.
   */
  lemma DynamicWinnerBindsParameters(es: seq<Entry>, req: Request, accepts: Acceptor, capture: Capturer,
                                     decode: Decoder, invoke: Invoker)
    requires DistinctNames(es) && req.uri != ""
    requires FirstServing(es, Upper(req.verbName), req.uri, accepts).Some?
    requires !es[FirstServing(es, Upper(req.verbName), req.uri, accepts).value].route.IsStatic()
    ensures var w := es[FirstServing(es, Upper(req.verbName), req.uri, accepts).value];
      var d := RouteData(w.route, req.uri, capture, decode);
      DispatchOutcome(es, req, accepts, capture, decode, invoke) ==
        if d.None? then (Uncaught, req.attributes)
        else (Respond(invoke(w.route.handler, req.(attributes := req.attributes + d.value))), req.attributes + d.value)
  {
    ResolveSpec(es, req.verbName, req.uri, accepts);
  }

  // ----------------------------------------------------------- finding

  /**
   * As written: with no route for the request verb the combined pattern is
   * empty, matches, and `match` returns `null`, so `dispatch` calls
   * `isStatic()` on `null`, an `Error` neither `catch` block handles.
   */
  lemma NoEligibleRouteIsUncaught(es: seq<Entry>, req: Request, accepts: Acceptor, capture: Capturer,
                                  decode: Decoder, invoke: Invoker)
    requires forall i :: 0 <= i < |es| ==> !Serves(es[i], Upper(req.verbName))
    ensures DispatchOutcome(es, req, accepts, capture, decode, invoke).0 == Uncaught
  {
    EligibleSpec(es, Upper(req.verbName));
  }

  /** The concrete case: a table holding one GET route, and a DELETE request. */
  lemma DeleteOnGetOnlyTable(r: Route, accepts: Acceptor, capture: Capturer, decode: Decoder, invoke: Invoker)
    requires r.methods == ["GET"]
    ensures DispatchOutcome([Entry("home", r)], Request("DELETE", "/", map[]), accepts, capture, decode, invoke).0 == Uncaught
  {
    assert Upper("DELETE") == "DELETE";
    NoEligibleRouteIsUncaught([Entry("home", r)], Request("DELETE", "/", map[]), accepts, capture, decode, invoke);
  }

  /** `dispatch` over the corrected `match` (`CorrectedResolve`). */
  function CorrectedOutcome(es: seq<Entry>, req: Request, accepts: Acceptor, capture: Capturer,
                            decode: Decoder, invoke: Invoker): (Outcome, Attributes)
  {
    OutcomeOf(CorrectedResolve(es, req.verbName, req.uri, accepts), req, capture, decode, invoke)
  }

  /** Corrected: a request no route serves gets the not-found response with status 404. */
  lemma CorrectedNoEligibleRouteIs404(es: seq<Entry>, req: Request, accepts: Acceptor, capture: Capturer,
                                      decode: Decoder, invoke: Invoker)
    requires forall i :: 0 <= i < |es| ==> !Serves(es[i], Upper(req.verbName))
    ensures CorrectedOutcome(es, req, accepts, capture, decode, invoke) == (Sent(404, NotFoundMessage(req.uri)), req.attributes)
  {
    EligibleSpec(es, Upper(req.verbName));
  }

  /** Corrected: the only error left uncaught is a failing parameter binding of the winner. */
  lemma UncaughtOnlyOnBinding(es: seq<Entry>, req: Request, accepts: Acceptor, capture: Capturer,
                              decode: Decoder, invoke: Invoker)
    requires DistinctNames(es)
    requires CorrectedOutcome(es, req, accepts, capture, decode, invoke).0 == Uncaught
    ensures var w := FirstServing(es, Upper(req.verbName), req.uri, accepts);
      w.Some? && !es[w.value].route.IsStatic() && RouteData(es[w.value].route, req.uri, capture, decode).None?
  {
    var m := CorrectedResolve(es, req.verbName, req.uri, accepts);
    UncaughtCauses(m, req, capture, decode, invoke);
    CorrectedResolveSpec(es, req.verbName, req.uri, accepts);
  }

  /** `dispatch` leaves an error uncaught only on a `null` route or a failing binding. */
  lemma UncaughtCauses(m: MatchResult, req: Request, capture: Capturer, decode: Decoder, invoke: Invoker)
    requires OutcomeOf(m, req, capture, decode, invoke).0 == Uncaught
    ensures m.NoRoute? || (m.Found? && !m.route.IsStatic() && RouteData(m.route, req.uri, capture, decode).None?)
  {
  }

  // ------------------------------------------------------------ the class

  class Dispatcher {
    const router: Router

    /** A dispatcher over the given router, or over a new one with an empty table. */
    constructor (r: Router?)
      requires r != null ==> r.routes.Valid()
      ensures r != null ==> router == r
      ensures r == null ==> fresh(router) && router.routes.entries == []
      ensures router.routes.Valid()
    {
      if r != null {
        router := r;
      } else {
        router := new Router(null);
      }
    }

    /** `dispatch`: the response it sends, and the request attributes afterwards. */
    method Dispatch(req: Request, accepts: Acceptor, capture: Capturer, decode: Decoder, invoke: Invoker)
      returns (out: Outcome, attrs: Attributes)
      ensures (out, attrs) == DispatchOutcome(router.routes.entries, req, accepts, capture, decode, invoke)
    {
      attrs := req.attributes;
      var m := router.Match(req.verbName, req.uri, accepts);
      match m {
        case NotFound(message) =>
          out := Sent(404, message);
        case NoRoute =>
          out := Uncaught;
        case Found(_, route) =>
          var request := req;
          if !route.IsStatic() {
            var params := GetRouteData(route, req.uri, capture, decode);
            if params.None? {
              return Uncaught, attrs;
            }
            attrs := attrs + params.value;
            request := req.(attributes := attrs);
          }
          var reply := invoke(route.handler, request);
          match reply {
            case AResponse(status, body) => out := Sent(status, body);
            case NotAResponse => out := Sent(404, "Not Found");
            case Raises(message) => out := Sent(404, message);
          }
      }
    }
  }
}
