/**
 * One route: its allowed verbs, its parameters as extracted from the path
 * template, the per-parameter requirements, and the anchored pattern compiled
 * once at construction. The PHP constructor sets these fields step by step and
 * may throw; here it is `NewRoute`, whose result is `MakeRoute(args)`.
 */
module Routes {
  import opened Wrappers
  import opened Text
  import opened Template

  /** The fixed verb list, in the order RouteCollection keeps it. */
  const Verbs: seq<string> := ["GET", "POST", "PUT", "PATCH", "DELETE"]

  /** What a parameter matches when no requirement is given for it. */
  const DefaultRequirement: string := "[^/]+"

  datatype Error =
    | BadMethod(verb: string)     // "Method <verb> is not allowed.", verb upper-cased
    | InvalidMethodsArgument      // methods given neither as a string nor as an array
    | InvalidRequirement          // a requirement whose key or value is not a string

  /** A PHP value given as a requirement: a string or anything else. */
  datatype Value = StrValue(s: string) | OtherValue

  /** The handler callable; the model never looks inside it. */
  datatype Handler = Handler(id: nat)

  datatype Route = Route(
    path: string,
    methods: seq<string>,
    handler: Handler,
    parameters: seq<string>,
    optional: Option<string>,
    conditions: map<string, string>,
    pattern: string)
  {
    /** `getRequirment($p, $default)`: the condition of a declared parameter, else the default. */
    function Requirement(p: string, default: string): string {
      if p in parameters && p in conditions then conditions[p] else default
    }

    /** `isStatic()`: the path has no `{\w+}` placeholder. */
    predicate IsStatic() {
      !HasPlaceholder(path)
    }
  }

  /** `getRequirment($p)` with the default `[^/]+`, as `buildRegexPattern` calls it, on the route's fields. */
  function RequirementOf(parameters: seq<string>, conditions: map<string, string>, p: string): string {
    if p in parameters && p in conditions then conditions[p] else DefaultRequirement
  }

  // ---------------------------------------------------------------- methods

  predicate AllowedVerb(m: string) {
    Upper(m) in Verbs
  }

  /** Index of the first method whose upper-cased form is not a known verb. */
  function FirstBadMethod(ms: seq<string>): (r: Option<nat>)
    ensures r.Some? ==> r.value < |ms| && !AllowedVerb(ms[r.value])
    ensures r.Some? ==> forall j :: 0 <= j < r.value ==> AllowedVerb(ms[j])
    ensures r.None? ==> forall j :: 0 <= j < |ms| ==> AllowedVerb(ms[j])
  {
    if ms == [] then None
    else if !AllowedVerb(ms[0]) then Some(0)
    else match FirstBadMethod(ms[1..])
      case None => None
      case Some(k) => Some(k + 1)
  }

  /** The exception the method check throws, if any. */
  function MethodsError(ms: seq<string>): Option<Error> {
    match FirstBadMethod(ms)
    case None => None
    case Some(i) => Some(BadMethod(Upper(ms[i])))
  }

  /**
   * The loop of `Route::setMethods` and `RouteCollection::validateMethods`:
   * the first method whose upper-cased form is not in `Verbs` is reported.
   */
  method ValidateMethods(ms: seq<string>) returns (err: Option<Error>)
    ensures err.None? <==> forall j :: 0 <= j < |ms| ==> AllowedVerb(ms[j])
    ensures err.Some? ==> exists i :: 0 <= i < |ms| && !AllowedVerb(ms[i]) && err.value == BadMethod(Upper(ms[i]))
                                      && forall j :: 0 <= j < i ==> AllowedVerb(ms[j])
    ensures err == MethodsError(ms)
  {
    var i := 0;
    while i < |ms|
      invariant 0 <= i <= |ms|
      invariant forall j :: 0 <= j < i ==> AllowedVerb(ms[j])
    {
      if !AllowedVerb(ms[i]) {
        return Some(BadMethod(Upper(ms[i])));
      }
      i := i + 1;
    }
    return None;
  }

  // ------------------------------------------------------------- parameters

  /** A single leading `_` is removed from a placeholder name. */
  function Strip(raw: string): string {
    if |raw| > 0 && raw[0] == '_' then raw[1..] else raw
  }

  /** The parameter names: each raw placeholder name with its leading `_` removed. */
  function StripAll(raws: seq<string>): seq<string> {
    seq(|raws|, i requires 0 <= i < |raws| => Strip(raws[i]))
  }

  /** `{_name}` whose exact text ends the path. */
  predicate IsOptionalCandidate(path: string, raw: string) {
    |raw| > 0 && raw[0] == '_' && EndsWith(path, "{_" + raw[1..] + "}")
  }

  /** The optional parameter left by the loop of `setParameters`: the last candidate wins. */
  function OptionalAmong(path: string, raws: seq<string>): Option<string> {
    if raws == [] then None
    else if IsOptionalCandidate(path, raws[|raws| - 1]) then Some(raws[|raws| - 1][1..])
    else OptionalAmong(path, raws[..|raws| - 1])
  }

  /** `setParameters`: strip each name, record the optional one, append in order. */
  method SetParameters(path: string, raws: seq<string>) returns (params: seq<string>, optional: Option<string>)
    ensures params == StripAll(raws)
    ensures optional == OptionalAmong(path, raws)
  {
    params, optional := [], None;
    var i := 0;
    while i < |raws|
      invariant 0 <= i <= |raws|
      invariant params == StripAll(raws[..i])
      invariant optional == OptionalAmong(path, raws[..i])
    {
      var param := raws[i];
      if |param| > 0 && param[0] == '_' {
        param := param[1..];
        if EndsWith(path, "{_" + param + "}") {
          optional := Some(param);
        }
      }
      assert raws[..i + 1][..i] == raws[..i];
      params := params + [param];
      i := i + 1;
    }
    assert raws[..i] == raws;
  }

  lemma {:induction false} OptionalAmongIsCandidate(path: string, raws: seq<string>, x: string)
    requires OptionalAmong(path, raws) == Some(x)
    ensures exists i :: 0 <= i < |raws| && IsOptionalCandidate(path, raws[i]) && raws[i][1..] == x
  {
    var n := |raws| - 1;
    if !IsOptionalCandidate(path, raws[n]) {
      OptionalAmongIsCandidate(path, raws[..n], x);
      var i :| 0 <= i < n && IsOptionalCandidate(path, raws[..n][i]) && raws[..n][i][1..] == x;
      assert raws[i] == raws[..n][i];
    }
  }

  /**
   * A template has the optional parameter `x` exactly when the path ends with
   * the text `{_x}` (and `x` is a word, so that `{_x}` is a placeholder).
   */
  lemma OptionalIffTrailing(path: string, x: string)
    ensures OptionalAmong(path, Scan(path).names) == Some(x) <==> EndsWith(path, "{_" + x + "}") && IsWord(x)
  {
    var raws := Scan(path).names;
    if OptionalAmong(path, raws) == Some(x) {
      OptionalAmongIsCandidate(path, raws, x);
      var i :| 0 <= i < |raws| && IsOptionalCandidate(path, raws[i]) && raws[i][1..] == x;
      assert IsName(raws[i]);
      assert forall k :: 0 <= k < |x| ==> x[k] == raws[i][k + 1];
    }
    if EndsWith(path, "{_" + x + "}") && IsWord(x) {
      TrailingIsLastName(path, x);
      assert "{_" + raws[|raws| - 1][1..] + "}" == "{_" + x + "}";
    }
  }

  /** When the path ends with `{_x}`, that placeholder is the last one scanned. */
  lemma TrailingIsLastName(path: string, x: string)
    requires EndsWith(path, "{_" + x + "}") && IsWord(x)
    ensures EndsInName(Scan(path), "_" + x)
  {
    var w := "_" + x;
    var p := path[..|path| - |w| - 2];
    assert Braced(w) == "{_" + x + "}";
    assert path == p + Braced(w);
    assert IsName(w) by {
      forall k | 0 <= k < |w| ensures IsWordChar(w[k]) {
        if k > 0 { assert w[k] == x[k - 1]; }
      }
    }
    ScanTrailing(p, w);
  }

  // ----------------------------------------------------------- requirements

  /** A PHP array holds each key once. */
  predicate DistinctKeys(reqs: seq<(ArrayKey, Value)>) {
    forall i, j :: 0 <= i < j < |reqs| ==> reqs[i].0 != reqs[j].0
  }

  /** The `requirments` array: its key/value pairs in array order. */
  type Requirements = reqs: seq<(ArrayKey, Value)> | DistinctKeys(reqs)

  /** The value the requirements give for `p`, if any (the last pair with that key). */
  function LastRequirement(reqs: seq<(ArrayKey, Value)>, p: string): Option<Value> {
    if reqs == [] then None
    else if reqs[|reqs| - 1].0 == StrKey(p) then Some(reqs[|reqs| - 1].1)
    else LastRequirement(reqs[..|reqs| - 1], p)
  }

  predicate IsStringPair(kv: (ArrayKey, Value)) {
    kv.0.StrKey? && kv.1.StrValue?
  }

  /** The condition map left by `setRequirments`, or the exception it throws. */
  function Conditions(params: seq<string>, reqs: Requirements): Result<map<string, string>, Error> {
    if reqs == [] then Ok(map[])
    else match Conditions(params, reqs[..|reqs| - 1])
      case Err(e) => Err(e)
      case Ok(m) =>
        var kv := reqs[|reqs| - 1];
        if !IsStringPair(kv) then Err(InvalidRequirement)
        else if kv.0.s in params then Ok(m[kv.0.s := kv.1.s])
        else Ok(m)
  }

  /** `setRequirments` with `setRequirment` inlined: keep only declared parameters. */
  method SetRequirements(params: seq<string>, reqs: Requirements) returns (r: Result<map<string, string>, Error>)
    ensures r == Conditions(params, reqs)
  {
    var m: map<string, string> := map[];
    var i := 0;
    while i < |reqs|
      invariant 0 <= i <= |reqs|
      invariant Conditions(params, reqs[..i]) == Ok(m)
    {
      var (key, value) := reqs[i];
      assert reqs[..i + 1][..i] == reqs[..i];
      if !key.StrKey? || !value.StrValue? {
        ConditionsErrSticks(params, reqs, i + 1);
        return Err(InvalidRequirement);
      }
      if key.s in params {
        m := m[key.s := value.s];
      }
      i := i + 1;
    }
    assert reqs[..i] == reqs;
    return Ok(m);
  }

  /** Once a prefix of the requirements fails, the whole list fails with the same error. */
  lemma {:induction false} ConditionsErrSticks(params: seq<string>, reqs: Requirements, i: nat)
    requires i <= |reqs| && Conditions(params, reqs[..i]).Err?
    ensures Conditions(params, reqs) == Conditions(params, reqs[..i])
    decreases |reqs| - i
  {
    if i < |reqs| {
      assert reqs[..i + 1][..i] == reqs[..i];
      ConditionsErrSticks(params, reqs, i + 1);
    } else {
      assert reqs[..i] == reqs;
    }
  }

  /**
   * The requirements are accepted exactly when every key and value is a
   * string; then a name has a condition exactly when it is a declared
   * parameter with a requirement, and the condition is its last one.
   */
  lemma {:induction false} ConditionsSpec(params: seq<string>, reqs: Requirements)
    ensures Conditions(params, reqs).Ok? <==> forall i :: 0 <= i < |reqs| ==> IsStringPair(reqs[i])
    ensures Conditions(params, reqs).Ok? ==> forall p ::
              (p in Conditions(params, reqs).value <==> p in params && LastRequirement(reqs, p).Some?) &&
              (p in Conditions(params, reqs).value ==> LastRequirement(reqs, p) == Some(StrValue(Conditions(params, reqs).value[p])))
  {
    if reqs != [] {
      var n := |reqs| - 1;
      ConditionsSpec(params, reqs[..n]);
      assert forall i :: 0 <= i < n ==> reqs[..n][i] == reqs[i];
      var r := Conditions(params, reqs);
      if r.Ok? {
        var m := Conditions(params, reqs[..n]).value;
        forall p ensures (p in r.value <==> p in params && LastRequirement(reqs, p).Some?) &&
                         (p in r.value ==> LastRequirement(reqs, p) == Some(StrValue(r.value[p]))) {
          if reqs[n].0 != StrKey(p) {
            assert LastRequirement(reqs, p) == LastRequirement(reqs[..n], p);
          }
        }
      }
    }
  }

  // ------------------------------------------------------ pattern compiling

  /** What an optional parameter becomes: nothing, a bare `/`, or `/` and a value. */
  function OptionalGroup(c: string): string {
    "(?:/|/(" + c + ")?)?"
  }

  /**
   * The whole pattern of a template that ends with its optional parameter:
   * what was built before it, every trailing `/` trimmed, then the optional
   * group for requirement `c`, anchored at both ends.
   */
  function TrailingPattern(before: string, c: string): string {
    "^" + (TrimRight(before, '/') + OptionalGroup(c)) + "$"
  }

  /**
   * The builder's `$pattern` after the first `i` parameters: each time the
   * next fragment, then the parameter's group `(c)`, or, for the optional
   * parameter (compared by name, as `isOptionalParameter` does), every
   * trailing `/` trimmed and then the optional group.
   */
  function Built(parts: seq<string>, params: seq<string>, optional: Option<string>, conds: map<string, string>, i: nat): string
    requires |parts| == |params| + 1 && i <= |params|
  {
    if i == 0 then ""
    else
      var before := Built(parts, params, optional, conds, i - 1) + parts[i - 1];
      var c := RequirementOf(params, conds, params[i - 1]);
      if optional == Some(params[i - 1]) then TrimRight(before, '/') + OptionalGroup(c)
      else before + "(" + c + ")"
  }

  /** The pattern body: everything built for the parameters, then the closing fragment. */
  function PatternBody(parts: seq<string>, params: seq<string>, optional: Option<string>, conds: map<string, string>): string
    requires |parts| == |params| + 1
  {
    Built(parts, params, optional, conds, |params|) + parts[|params|]
  }

  /**
   * `buildRegexPattern`: the `i`-th `array_shift` takes fragment `i`; append
   * with `.=`, trim with `rtrim`; the one fragment left is imploded last.
   */
  method BuildRegexPattern(parts: seq<string>, params: seq<string>, optional: Option<string>, conds: map<string, string>)
    returns (pattern: string)
    requires |parts| == |params| + 1
    ensures pattern == "^" + PatternBody(parts, params, optional, conds) + "$"
  {
    pattern := "";
    if params != [] {
      var i := 0;
      while i < |params|
        invariant 0 <= i <= |params|
        invariant pattern == Built(parts, params, optional, conds, i)
      {
        var parameter := params[i];
        var requirement := RequirementOf(params, conds, parameter);
        pattern := pattern + parts[i];
        if optional != Some(parameter) {
          pattern := pattern + "(" + requirement + ")";
        } else {
          pattern := TrimRight(pattern, '/');
          pattern := pattern + OptionalGroup(requirement);
        }
        i := i + 1;
      }
      var rest := parts[|params|..];
      if |rest| > 0 {
        ConcatOne(rest);
        pattern := pattern + Concat(rest);
      }
    } else {
      ConcatOne(parts);
      pattern := Concat(parts);
    }
    pattern := "^" + pattern + "$";
  }

  /** `array_map('preg_quote', $parts)`. */
  function QuoteAll(parts: seq<string>): seq<string> {
    seq(|parts|, i requires 0 <= i < |parts| => Quote(parts[i]))
  }

  /** The pattern `compileRoute` stores: the escaped fragments of the path, compiled. */
  function CompiledPattern(path: string, params: seq<string>, optional: Option<string>, conds: map<string, string>): string
    requires |params| == |Scan(path).names|
  {
    "^" + PatternBody(QuoteAll(Scan(path).statics), params, optional, conds) + "$"
  }

  /** `compileRoute`: split the path, escape each fragment, build the pattern. */
  method CompileRoute(path: string, params: seq<string>, optional: Option<string>, conds: map<string, string>)
    returns (pattern: string)
    requires |params| == |Scan(path).names|
    ensures pattern == CompiledPattern(path, params, optional, conds)
    ensures |pattern| >= 2 && pattern[0] == '^' && pattern[|pattern| - 1] == '$'
  {
    var parts := Scan(path).statics;
    parts := QuoteAll(parts);
    pattern := BuildRegexPattern(parts, params, optional, conds);
  }

  // ---------------------------------------------------------- construction

  /** The constructor's argument array: `methods` and `requirments` may be absent. */
  datatype RouteArgs = RouteArgs(
    path: string,
    handler: Handler,
    methods: Option<seq<string>>,
    requirements: Requirements)

  function MethodsOrDefault(args: RouteArgs): seq<string> {
    if args.methods.Some? then args.methods.value else ["GET"]
  }

  /** The route `new Route($args)` builds, or the exception it throws. */
  function MakeRoute(args: RouteArgs): Result<Route, Error> {
    var methods := MethodsOrDefault(args);
    match MethodsError(methods)
    case Some(e) => Err(e)
    case None =>
      var raws := Scan(args.path).names;
      var params := StripAll(raws);
      var optional := OptionalAmong(args.path, raws);
      match Conditions(params, args.requirements)
      case Err(e) => Err(e)
      case Ok(conds) =>
        Ok(Route(args.path, methods, args.handler, params, optional, conds,
                 CompiledPattern(args.path, params, optional, conds)))
  }

  /** `Route::__construct`: methods, path, callback, parameters, requirements, pattern. */
  method NewRoute(args: RouteArgs) returns (r: Result<Route, Error>)
    ensures r == MakeRoute(args)
  {
    var methods := if args.methods.Some? then args.methods.value else ["GET"];
    var err := ValidateMethods(methods);
    if err.Some? {
      return Err(err.value);
    }
    var raws := Scan(args.path).names;
    var params, optional := SetParameters(args.path, raws);
    var conds := SetRequirements(params, args.requirements);
    if conds.Err? {
      return Err(conds.error);
    }
    var pattern := CompileRoute(args.path, params, optional, conds.value);
    return Ok(Route(args.path, methods, args.handler, params, optional, conds.value, pattern));
  }

  // ------------------------------------------------------ route properties

  /**
   * Construction fails on the first method that is not a known verb once
   * upper-cased, else on a non-string requirement; a route keeps its methods
   * exactly as given (not upper-cased), `["GET"]` when none were given.
   */
  lemma MakeRouteOutcome(args: RouteArgs)
    ensures var ms := MethodsOrDefault(args);
      (exists i :: 0 <= i < |ms| && !AllowedVerb(ms[i])) ==>
        MakeRoute(args).Err? && MakeRoute(args).error.BadMethod?
    ensures var ms := MethodsOrDefault(args);
      (forall i :: 0 <= i < |ms| ==> AllowedVerb(ms[i])) ==>
        (MakeRoute(args).Ok? <==> forall i :: 0 <= i < |args.requirements| ==> IsStringPair(args.requirements[i]))
    ensures MakeRoute(args).Ok? ==> MakeRoute(args).value.methods == MethodsOrDefault(args)
    ensures MakeRoute(args).Ok? ==> args.methods.None? ==> MakeRoute(args).value.methods == ["GET"]
  {
    var ms := MethodsOrDefault(args);
    ConditionsSpec(StripAll(Scan(args.path).names), args.requirements);
  }

  /**
   * The parameters are the placeholder names of the path, one per
   * placeholder, left to right, each with a leading `_` removed; the static
   * fragments between them hold no placeholder, and together they give the path.
   */
  lemma RouteParameters(args: RouteArgs)
    requires MakeRoute(args).Ok?
    ensures var t := Scan(args.path);
      && Join(t.statics, t.names) == args.path
      && (forall i :: 0 <= i < |t.statics| ==> !HasPlaceholder(t.statics[i]))
      && MakeRoute(args).value.parameters == StripAll(t.names)
  {
    ScanJoin(args.path);
    StaticsHaveNoPlaceholder(args.path);
  }

  /** The route's optional parameter is `x` exactly when the path ends with `{_x}`. */
  lemma RouteOptional(args: RouteArgs, x: string)
    requires MakeRoute(args).Ok?
    ensures MakeRoute(args).value.optional == Some(x) <==> EndsWith(args.path, "{_" + x + "}") && IsWord(x)
  {
    OptionalIffTrailing(args.path, x);
  }

  /**
   * `getRequirment(p, d)` gives the requirement supplied for `p` when `p` is
   * a declared parameter, and the default `d` otherwise: requirements for
   * other names are dropped. With the default `[^/]+` it is the group
   * content the pattern uses.
   */
  lemma RouteRequirement(args: RouteArgs, p: string, d: string)
    requires MakeRoute(args).Ok?
    ensures var r := MakeRoute(args).value;
      if p in r.parameters && LastRequirement(args.requirements, p).Some?
      then LastRequirement(args.requirements, p) == Some(StrValue(r.Requirement(p, d)))
      else r.Requirement(p, d) == d
    ensures var r := MakeRoute(args).value;
      r.Requirement(p, DefaultRequirement) == RequirementOf(r.parameters, r.conditions, p)
  {
    ConditionsSpec(StripAll(Scan(args.path).names), args.requirements);
  }

  /** A route is static exactly when it has no parameter; its pattern is then the escaped path. */
  lemma StaticRoute(args: RouteArgs)
    requires MakeRoute(args).Ok?
    ensures var r := MakeRoute(args).value;
      (r.IsStatic() <==> r.parameters == []) &&
      (r.IsStatic() ==> r.pattern == "^" + Quote(args.path) + "$")
  {
    var r := MakeRoute(args).value;
    var t := Scan(args.path);
    RouteFields(args);
    ScanFindsAll(args.path);
    assert |r.parameters| == |t.names|;
    if r.IsStatic() {
      assert t.statics == [args.path] by {
        ScanJoin(args.path);
      }
      var parts := QuoteAll(t.statics);
      assert parts == [Quote(args.path)];
      CompiledStatic(args.path, parts, r.optional, r.conditions);
    }
  }

  /** A template without placeholders compiles to its escaped text, anchored. */
  lemma CompiledStatic(path: string, parts: seq<string>, optional: Option<string>, conds: map<string, string>)
    requires Scan(path).names == [] && parts == QuoteAll(Scan(path).statics) && parts == [Quote(path)]
    ensures CompiledPattern(path, [], optional, conds) == "^" + Quote(path) + "$"
  {
    BodyStatic(parts, optional, conds);
  }

  /** With no parameter the body is the one fragment. */
  lemma BodyStatic(parts: seq<string>, optional: Option<string>, conds: map<string, string>)
    requires |parts| == 1
    ensures PatternBody(parts, [], optional, conds) == parts[0]
  {
    assert PatternBody(parts, [], optional, conds) == "" + parts[0];
  }

  /** `parts[0] + fills[0] + parts[1] + ... + fills[i - 1] + parts[i]`. */
  function FillUpTo(parts: seq<string>, fills: seq<string>, i: nat): string
    requires |parts| == |fills| + 1 && i <= |fills|
  {
    if i == 0 then parts[0] else FillUpTo(parts, fills, i - 1) + fills[i - 1] + parts[i]
  }

  /** The fragments with every gap filled, in order. */
  function Fill(parts: seq<string>, fills: seq<string>): string
    requires |parts| == |fills| + 1
  {
    FillUpTo(parts, fills, |fills|)
  }

  /** The capture group `(c)` of each parameter, in order. */
  function Groups(params: seq<string>, conds: map<string, string>): seq<string> {
    seq(|params|, i requires 0 <= i < |params| => "(" + RequirementOf(params, conds, params[i]) + ")")
  }

  /** A parameter that is not the optional one adds its fragment and its group. */
  lemma BuiltRequiredStep(parts: seq<string>, params: seq<string>, optional: Option<string>, conds: map<string, string>, i: nat)
    requires |parts| == |params| + 1 && 1 <= i <= |params|
    requires optional != Some(params[i - 1])
    ensures Built(parts, params, optional, conds, i)
         == Built(parts, params, optional, conds, i - 1) + parts[i - 1] + Groups(params, conds)[i - 1]
  {
  }

  /**
   * Up to the `i`-th fragment, when none of the first `i` parameters is the
   * optional one, the builder fills each gap with the parameter's group.
   */
  lemma {:induction false} BuiltRequired(parts: seq<string>, params: seq<string>, optional: Option<string>, conds: map<string, string>, i: nat)
    requires |parts| == |params| + 1 && i <= |params|
    requires forall j :: 0 <= j < i ==> optional != Some(params[j])
    ensures Built(parts, params, optional, conds, i) + parts[i] == FillUpTo(parts, Groups(params, conds), i)
  {
    if i > 0 {
      BuiltRequired(parts, params, optional, conds, i - 1);
      BuiltRequiredStep(parts, params, optional, conds, i);
    }
  }

  /**
   * Without an optional parameter the pattern is the escaped fragments with
   * each placeholder replaced, in order, by its group `(c)`.
   */
  lemma RequiredOnlyPattern(args: RouteArgs)
    requires MakeRoute(args).Ok? && MakeRoute(args).value.optional.None?
    ensures var r := MakeRoute(args).value;
      r.pattern == "^" + Fill(QuoteAll(Scan(args.path).statics), Groups(r.parameters, r.conditions)) + "$"
  {
    var r := MakeRoute(args).value;
    var parts := QuoteAll(Scan(args.path).statics);
    BuiltRequired(parts, r.parameters, None, r.conditions, |r.parameters|);
  }

  /**
   * The optional parameter, when there is one, is the last parameter (its
   * name stripped of `_`), and no fragment follows it.
   */
  lemma OptionalIsLastName(path: string, x: string)
    requires OptionalAmong(path, Scan(path).names) == Some(x)
    ensures var ps := StripAll(Scan(path).names);
      |ps| >= 1 && ps[|ps| - 1] == x
    ensures Scan(path).statics[|Scan(path).statics| - 1] == ""
  {
    OptionalIffTrailing(path, x);
    TrailingIsLastName(path, x);
    var ps := StripAll(Scan(path).names);
    assert ps[|ps| - 1] == Strip("_" + x);
    assert ("_" + x)[1..] == x;
  }

  /**
   * For a template whose optional parameter is `x` (the pattern a route stores,
   * by `RouteFields`), the pattern is what was built before `x` with every
   * trailing `/` trimmed, then `(?:/|/(c)?)?`, then nothing more before the
   * closing `$`. When no earlier placeholder shares the name `x`,
   * what was built before it is the escaped fragments with each earlier
   * placeholder replaced, in order, by its group `(c)`.
   */
  lemma TrailingOptionalPattern(path: string, params: seq<string>, conds: map<string, string>, x: string)
    requires params == StripAll(Scan(path).names) && OptionalAmong(path, Scan(path).names) == Some(x)
    ensures var n := |params|;
      var parts := QuoteAll(Scan(path).statics);
      n >= 1 &&
      CompiledPattern(path, params, Some(x), conds)
        == TrailingPattern(Built(parts, params, Some(x), conds, n - 1) + parts[n - 1], RequirementOf(params, conds, x))
    ensures var n := |params|;
      var parts := QuoteAll(Scan(path).statics);
      (forall j :: 0 <= j < n - 1 ==> params[j] != x) ==>
        CompiledPattern(path, params, Some(x), conds)
          == TrailingPattern(FillUpTo(parts, Groups(params, conds), n - 1), RequirementOf(params, conds, x))
  {
    OptionalIsLastName(path, x);
    var parts := QuoteAll(Scan(path).statics);
    assert parts[|params|] == Quote("");
    CompiledTrailing(path, parts, params, conds, x);
  }

  /** The fields of a constructed route, as the constructor computes them. */
  lemma RouteFields(args: RouteArgs)
    requires MakeRoute(args).Ok?
    ensures var r := MakeRoute(args).value;
      && r.path == args.path
      && r.parameters == StripAll(Scan(args.path).names)
      && r.optional == OptionalAmong(args.path, Scan(args.path).names)
      && Conditions(r.parameters, args.requirements) == Ok(r.conditions)
      && r.pattern == CompiledPattern(args.path, r.parameters, r.optional, r.conditions)
  {
  }

  lemma CompiledTrailing(path: string, parts: seq<string>, params: seq<string>, conds: map<string, string>, x: string)
    requires |params| == |Scan(path).names| && parts == QuoteAll(Scan(path).statics)
    requires |params| >= 1 && params[|params| - 1] == x && parts[|params|] == ""
    ensures var n := |params|;
      CompiledPattern(path, params, Some(x), conds)
        == TrailingPattern(Built(parts, params, Some(x), conds, n - 1) + parts[n - 1], RequirementOf(params, conds, x))
    ensures var n := |params|;
      (forall j :: 0 <= j < n - 1 ==> params[j] != x) ==>
        CompiledPattern(path, params, Some(x), conds)
          == TrailingPattern(FillUpTo(parts, Groups(params, conds), n - 1), RequirementOf(params, conds, x))
  {
    BodyTrailing(parts, params, conds, x);
    if forall j :: 0 <= j < |params| - 1 ==> params[j] != x {
      BodyTrailingFill(parts, params, conds, x);
    }
  }

  /** The pattern body when the last parameter is the optional one and the last fragment is empty. */
  lemma BodyTrailing(parts: seq<string>, params: seq<string>, conds: map<string, string>, x: string)
    requires |parts| == |params| + 1
    requires |params| >= 1 && params[|params| - 1] == x && parts[|params|] == ""
    ensures var n := |params|;
      PatternBody(parts, params, Some(x), conds)
        == TrimRight(Built(parts, params, Some(x), conds, n - 1) + parts[n - 1], '/')
           + OptionalGroup(RequirementOf(params, conds, x))
  {
    var n := |params|;
    BuiltOptionalLast(parts, params, conds, x);
    var built := Built(parts, params, Some(x), conds, n);
    assert PatternBody(parts, params, Some(x), conds) == built + parts[n];
    assert built + parts[n] == built;
  }

  /** The same, when no earlier parameter shares the optional name: the fragments filled with groups. */
  lemma BodyTrailingFill(parts: seq<string>, params: seq<string>, conds: map<string, string>, x: string)
    requires |parts| == |params| + 1
    requires |params| >= 1 && params[|params| - 1] == x && parts[|params|] == ""
    requires forall j :: 0 <= j < |params| - 1 ==> params[j] != x
    ensures var n := |params|;
      PatternBody(parts, params, Some(x), conds)
        == TrimRight(FillUpTo(parts, Groups(params, conds), n - 1), '/')
           + OptionalGroup(RequirementOf(params, conds, x))
  {
    var n := |params|;
    BodyTrailing(parts, params, conds, x);
    BuiltRequired(parts, params, Some(x), conds, n - 1);
  }

  /** The step for the optional parameter: trim, then the optional group. */
  lemma BuiltOptionalLast(parts: seq<string>, params: seq<string>, conds: map<string, string>, x: string)
    requires |parts| == |params| + 1
    requires |params| >= 1 && params[|params| - 1] == x
    ensures var n := |params|;
      Built(parts, params, Some(x), conds, n)
        == TrimRight(Built(parts, params, Some(x), conds, n - 1) + parts[n - 1], '/')
           + OptionalGroup(RequirementOf(params, conds, x))
  {
  }
}
