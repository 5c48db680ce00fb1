/**
 * The route table: a PHP ordered array from route name to route. Assigning
 * to an existing key keeps its position, a new key goes last, `unset`
 * removes one key; iteration follows that order.
 */
module RouteTable {
  import opened Wrappers
  import opened Text
  import opened Routes

  datatype Entry = Entry(name: string, route: Route)

  predicate DistinctNames(es: seq<Entry>) {
    forall i, j :: 0 <= i < j < |es| ==> es[i].name != es[j].name
  }

  /** The set of names in the table. */
  function NameSet(es: seq<Entry>): set<string> {
    set i | 0 <= i < |es| :: es[i].name
  }

  /** Position of the first entry named `name`. */
  function IndexOf(es: seq<Entry>, name: string): (r: Option<nat>)
    ensures r.Some? ==> r.value < |es| && es[r.value].name == name
    ensures r.Some? ==> forall j :: 0 <= j < r.value ==> es[j].name != name
    ensures r.None? ==> forall j :: 0 <= j < |es| ==> es[j].name != name
  {
    if es == [] then None
    else if es[0].name == name then Some(0)
    else match IndexOf(es[1..], name)
      case None => None
      case Some(k) => Some(k + 1)
  }

  function Lookup(es: seq<Entry>, name: string): Option<Route> {
    match IndexOf(es, name)
    case None => None
    case Some(i) => Some(es[i].route)
  }

  /** `$routes[$name] = $route`. */
  function Store(es: seq<Entry>, name: string, route: Route): seq<Entry> {
    match IndexOf(es, name)
    case None => es + [Entry(name, route)]
    case Some(i) => es[i := Entry(name, route)]
  }

  /** `unset($routes[$name])`, guarded by `array_key_exists`. */
  function Remove(es: seq<Entry>, name: string): seq<Entry> {
    match IndexOf(es, name)
    case None => es
    case Some(i) => es[..i] + es[i + 1..]
  }

  /**
   * Storing a route keeps names distinct; the name then looks up that route and
   * every other name what it looked up before. A new name adds one entry, at
   * the end; an existing one is replaced where it stands.
   */
  lemma StoreSpec(es: seq<Entry>, name: string, route: Route)
    requires DistinctNames(es)
    ensures DistinctNames(Store(es, name, route))
    ensures Lookup(Store(es, name, route), name) == Some(route)
    ensures forall m :: m != name ==> Lookup(Store(es, name, route), m) == Lookup(es, m)
    ensures Lookup(es, name).None? ==> Store(es, name, route) == es + [Entry(name, route)]
    ensures Lookup(es, name).Some? ==> |Store(es, name, route)| == |es|
    ensures forall i :: 0 <= i < |es| && es[i].name == name ==> Store(es, name, route) == es[i := Entry(name, route)]
    ensures NameSet(Store(es, name, route)) == NameSet(es) + {name}
  {
    var p := Store(es, name, route);
    var j := if IndexOf(es, name).Some? then IndexOf(es, name).value else |es|;
    StorePlaces(es, name, route);
    forall m | m != name ensures Lookup(p, m) == Lookup(es, m) {
      LookupAfterStore(es, name, route, m);
    }
    LookupUnique(p, name);
    assert p[j].name == name;
    assert NameSet(p) == NameSet(es) + {name} by {
      forall m | m in NameSet(es) ensures m in NameSet(p) {
        var k :| 0 <= k < |es| && es[k].name == m;
        assert p[k].name == m;
      }
    }
  }

  /**
   * Where storing puts the entry: at the old position of the name, or at the
   * end; every other entry stays where it was, and names stay distinct.
   */
  lemma StorePlaces(es: seq<Entry>, name: string, route: Route)
    requires DistinctNames(es)
    ensures var p := Store(es, name, route);
      var j := if IndexOf(es, name).Some? then IndexOf(es, name).value else |es|;
      |p| == (if IndexOf(es, name).Some? then |es| else |es| + 1) &&
      (forall k :: 0 <= k < |p| ==> p[k] == if k == j then Entry(name, route) else es[k]) &&
      DistinctNames(p)
  {
  }

  /** Storing under `name` leaves every other name looking up what it did. */
  lemma LookupAfterStore(es: seq<Entry>, name: string, route: Route, m: string)
    requires DistinctNames(es) && m != name
    ensures Lookup(Store(es, name, route), m) == Lookup(es, m)
  {
    var p := Store(es, name, route);
    StorePlaces(es, name, route);
    LookupUnique(es, m);
    LookupUnique(p, m);
    var j := if IndexOf(es, name).Some? then IndexOf(es, name).value else |es|;
    match IndexOf(es, m)
    case Some(k) =>
      assert p[k] == es[k];
    case None =>
      forall k | 0 <= k < |p| ensures p[k].name != m {
        assert p[k] == if k == j then Entry(name, route) else es[k];
      }
  }

  /** With distinct names an entry is found wherever it stands. */
  lemma LookupUnique(es: seq<Entry>, name: string)
    requires DistinctNames(es)
    ensures forall i :: 0 <= i < |es| && es[i].name == name ==> IndexOf(es, name) == Some(i)
  {
  }

  /**
   * Removing deletes exactly that name: it no longer looks up, every other
   * name still does as before, and the remaining entries keep their order.
   * An absent name leaves the table as it was.
   */
  lemma RemoveSpec(es: seq<Entry>, name: string)
    requires DistinctNames(es)
    ensures DistinctNames(Remove(es, name))
    ensures Lookup(Remove(es, name), name) == None
    ensures forall m :: m != name ==> Lookup(Remove(es, name), m) == Lookup(es, m)
    ensures Lookup(es, name).None? ==> Remove(es, name) == es
    ensures Lookup(es, name).Some? ==> |Remove(es, name)| == |es| - 1
    ensures forall i :: 0 <= i < |es| && es[i].name == name ==> Remove(es, name) == es[..i] + es[i + 1..]
    ensures NameSet(Remove(es, name)) == NameSet(es) - {name}
  {
    if IndexOf(es, name).Some? {
      var i := IndexOf(es, name).value;
      RemoveAt(es, i);
      forall m | m != name ensures Lookup(Remove(es, name), m) == Lookup(es, m) {
        LookupAfterRemoveAt(es, i, m);
      }
    }
  }

  /** Deleting entry `i` leaves every other name looking up what it did. */
  lemma LookupAfterRemoveAt(es: seq<Entry>, i: nat, m: string)
    requires DistinctNames(es) && i < |es| && es[i].name != m
    ensures Lookup(es[..i] + es[i + 1..], m) == Lookup(es, m)
  {
    var r := es[..i] + es[i + 1..];
    RemoveAt(es, i);
    LookupUnique(es, m);
    LookupUnique(r, m);
    match IndexOf(es, m)
    case Some(k) =>
      var k' := if k < i then k else k - 1;
      assert r[k'] == es[k];
    case None =>
      forall k' | 0 <= k' < |r| ensures r[k'].name != m {
        assert r[k'] == if k' < i then es[k'] else es[k' + 1];
      }
  }

  /** Cutting out one entry of a table with distinct names. */
  lemma RemoveAt(es: seq<Entry>, i: nat)
    requires DistinctNames(es) && i < |es|
    ensures var r := es[..i] + es[i + 1..];
      && |r| == |es| - 1
      && (forall k :: 0 <= k < |r| ==> r[k] == if k < i then es[k] else es[k + 1])
      && DistinctNames(r)
      && NameSet(r) == NameSet(es) - {es[i].name}
  {
    var r := es[..i] + es[i + 1..];
    assert forall k :: 0 <= k < |r| ==> r[k] == if k < i then es[k] else es[k + 1];
    forall m ensures m in NameSet(r) <==> m in NameSet(es) - {es[i].name} {
      if m in NameSet(es) && m != es[i].name {
        var k :| 0 <= k < |es| && es[k].name == m;
        if k < i { assert r[k].name == m; } else { assert r[k - 1].name == m; }
      }
    }
  }

  /** The names of a non-empty table: the first one and those of the rest. */
  lemma NameSetCons(es: seq<Entry>)
    requires es != []
    ensures NameSet(es) == {es[0].name} + NameSet(es[1..])
  {
    var tail := es[1..];
    forall m | m in NameSet(es) && m != es[0].name ensures m in NameSet(tail) {
      var k :| 0 <= k < |es| && es[k].name == m;
      assert tail[k - 1].name == m;
    }
    forall m | m in NameSet(tail) ensures m in NameSet(es) {
      var k :| 0 <= k < |tail| && tail[k].name == m;
      assert es[k + 1].name == m;
    }
  }

  /** In a table of distinct names, the first name is not among the others. */
  lemma FirstNameFresh(es: seq<Entry>)
    requires es != [] && DistinctNames(es)
    ensures DistinctNames(es[1..]) && es[0].name !in NameSet(es[1..])
  {
    var tail := es[1..];
    forall k | 0 <= k < |tail| ensures tail[k].name != es[0].name {
      assert tail[k] == es[k + 1];
    }
  }

  /** `count()` of a table with distinct names is the number of names. */
  lemma {:induction false} DistinctCount(es: seq<Entry>)
    requires DistinctNames(es)
    ensures |NameSet(es)| == |es|
  {
    if es != [] {
      FirstNameFresh(es);
      DistinctCount(es[1..]);
      NameSetCons(es);
    }
  }

  // ------------------------------------------------------ method arguments

  /** The `$methods` argument of `addRoute`: a `|`-separated string, an array, or any other PHP value. */
  datatype MethodsArg = MString(s: string) | MList(items: seq<string>) | MOther

  /** `getMethods`: split a string on `|`, refuse other types, validate every entry. */
  function NormalizedMethods(arg: MethodsArg): Result<seq<string>, Error> {
    match arg
    case MOther => Err(InvalidMethodsArgument)
    case MString(s) => Checked(Explode(s, '|'))
    case MList(ms) => Checked(ms)
  }

  function Checked(ms: seq<string>): Result<seq<string>, Error> {
    match MethodsError(ms)
    case None => Ok(ms)
    case Some(e) => Err(e)
  }

  /** `getMethods` with `validateMethods`. */
  method NormalizeMethods(arg: MethodsArg) returns (r: Result<seq<string>, Error>)
    ensures r == NormalizedMethods(arg)
  {
    if arg.MOther? {
      return Err(InvalidMethodsArgument);
    }
    var ms := if arg.MString? then Explode(arg.s, '|') else arg.items;
    var err := ValidateMethods(ms);
    if err.Some? {
      return Err(err.value);
    }
    return Ok(ms);
  }

  /**
   * A non-string, non-array argument is refused; otherwise the methods are
   * accepted exactly when every entry is a known verb once upper-cased, and a
   * string yields the pieces between its `|` separators, which give it back.
   */
  lemma NormalizedMethodsSpec(arg: MethodsArg)
    ensures arg.MOther? ==> NormalizedMethods(arg) == Err(InvalidMethodsArgument)
    ensures arg.MList? ==> (NormalizedMethods(arg).Ok? <==> forall i :: 0 <= i < |arg.items| ==> AllowedVerb(arg.items[i]))
    ensures arg.MList? && NormalizedMethods(arg).Ok? ==> NormalizedMethods(arg).value == arg.items
    ensures arg.MString? ==> (NormalizedMethods(arg).Ok? <==>
      forall i :: 0 <= i < |Explode(arg.s, '|')| ==> AllowedVerb(Explode(arg.s, '|')[i]))
    ensures arg.MString? && NormalizedMethods(arg).Ok? ==>
      Implode(NormalizedMethods(arg).value, '|') == arg.s &&
      forall i :: 0 <= i < |NormalizedMethods(arg).value| ==> '|' !in NormalizedMethods(arg).value[i]
  {
    if arg.MString? {
      ImplodeExplode(arg.s, '|');
      ExplodePiecesHaveNoSeparator(arg.s, '|');
    }
  }

  /** `array_diff($httpMethods, $given)`: the verbs not literally in `given`, in their order. */
  function ExceptVerbs(given: seq<string>): seq<string> {
    Without(Verbs, given)
  }

  function Without(vs: seq<string>, given: seq<string>): seq<string> {
    if vs == [] then []
    else if vs[0] in given then Without(vs[1..], given)
    else [vs[0]] + Without(vs[1..], given)
  }

  /** `a` is `b` with some elements left out, the others in the same order. */
  predicate Subsequence(a: seq<string>, b: seq<string>)
    decreases |b|
  {
    if a == [] then true
    else if b == [] then false
    else (a[0] == b[0] && Subsequence(a[1..], b[1..])) || Subsequence(a, b[1..])
  }

  lemma {:induction false} WithoutSpec(vs: seq<string>, given: seq<string>)
    ensures forall v :: v in Without(vs, given) <==> v in vs && v !in given
    ensures Subsequence(Without(vs, given), vs)
  {
    if vs != [] {
      WithoutSpec(vs[1..], given);
      var rest := Without(vs[1..], given);
      assert vs == [vs[0]] + vs[1..];
      if vs[0] !in given {
        assert ([vs[0]] + rest)[1..] == rest;
      } else if rest != [] {
        assert Subsequence(rest, vs[1..]);
      }
    }
  }

  /**
   * `except` registers the canonical verbs that are not literally (so
   * case-sensitively) among the given ones, in the canonical order.
   */
  lemma ExceptVerbsSpec(given: seq<string>)
    ensures forall v :: v in ExceptVerbs(given) <==> v in Verbs && v !in given
    ensures Subsequence(ExceptVerbs(given), Verbs)
    ensures NormalizedMethods(MList(ExceptVerbs(given))) == Ok(ExceptVerbs(given))
  {
    WithoutSpec(Verbs, given);
    var ms := ExceptVerbs(given);
    forall i | 0 <= i < |ms| ensures AllowedVerb(ms[i]) {
      assert ms[i] in Verbs;
      VerbIsUpper(ms[i]);
    }
  }

  /** Each canonical verb is made of capital letters only. */
  lemma VerbLetters(v: string)
    requires v in Verbs
    ensures forall i :: 0 <= i < |v| ==> 'A' <= v[i] <= 'Z'
  {
    if v == "GET" {
    } else if v == "POST" {
    } else if v == "PUT" {
    } else if v == "PATCH" {
    } else {
      assert v == "DELETE";
    }
  }

  lemma VerbIsUpper(v: string)
    requires v in Verbs
    ensures Upper(v) == v
  {
    VerbLetters(v);
    UpperIdentity(v);
  }

  // ------------------------------------------------------------ registering

  /** The table after `addRoute`, or the exception it throws. */
  function Registered(es: seq<Entry>, name: string, methods: MethodsArg, path: string, handler: Handler,
                      reqs: Requirements): Result<seq<Entry>, Error>
  {
    match NormalizedMethods(methods)
    case Err(e) => Err(e)
    case Ok(ms) =>
      match MakeRoute(RouteArgs(path, handler, Some(ms), reqs))
      case Err(e) => Err(e)
      case Ok(r) => Ok(Store(es, name, r))
  }

  /** The table after `except`, or the exception it throws. */
  function RegisteredExcept(es: seq<Entry>, name: string, methods: MethodsArg, path: string, handler: Handler,
                            reqs: Requirements): Result<seq<Entry>, Error>
  {
    match NormalizedMethods(methods)
    case Err(e) => Err(e)
    case Ok(given) => Registered(es, name, MList(ExceptVerbs(given)), path, handler, reqs)
  }

  /**
   * After a successful registration the name looks up a route built from
   * the given path, handler and normalised methods; the rest of the table
   * is as `Store` leaves it.
   */
  lemma RegisteredSpec(es: seq<Entry>, name: string, methods: MethodsArg, path: string, handler: Handler,
                       reqs: Requirements)
    requires DistinctNames(es)
    ensures var t := Registered(es, name, methods, path, handler, reqs);
      t.Ok? ==> (
        && DistinctNames(t.value)
        && NormalizedMethods(methods).Ok?
        && Lookup(t.value, name) == Some(MakeRoute(RouteArgs(path, handler, Some(NormalizedMethods(methods).value), reqs)).value)
        && Lookup(t.value, name).value.methods == NormalizedMethods(methods).value
        && Lookup(t.value, name).value.path == path
        && forall m :: m != name ==> Lookup(t.value, m) == Lookup(es, m))
    ensures var t := Registered(es, name, methods, path, handler, reqs);
      t.Err? ==> (NormalizedMethods(methods).Err? ||
                  MakeRoute(RouteArgs(path, handler, Some(NormalizedMethods(methods).value), reqs)).Err?)
  {
    var t := Registered(es, name, methods, path, handler, reqs);
    if t.Ok? {
      var r := MakeRoute(RouteArgs(path, handler, Some(NormalizedMethods(methods).value), reqs)).value;
      StoreSpec(es, name, r);
    }
  }

  /** `get`, `post`, `put`, `patch` and `delete` each register exactly their one verb. */
  lemma ShorthandMethods(v: string)
    requires v in Verbs
    ensures NormalizedMethods(MString(v)) == Ok([v])
  {
    VerbIsUpper(v);
    assert Explode(v, '|') == [v] by {
      VerbLetters(v);
      assert '|' !in v;
      ExplodeFree(v, '|', []);
      assert v + [] == v;
    }
  }

  /** `any` registers all five verbs in the canonical order. */
  lemma AnyMethods()
    ensures NormalizedMethods(MList(Verbs)) == Ok(Verbs)
  {
    forall i | 0 <= i < |Verbs| ensures AllowedVerb(Verbs[i]) {
      VerbIsUpper(Verbs[i]);
    }
  }

  // ------------------------------------------------------------ the class

  class RouteCollection {
    /** The ordered `$routes` array. */
    var entries: seq<Entry>

    predicate Valid()
      reads this
    {
      DistinctNames(entries)
    }

    constructor ()
      ensures Valid() && entries == []
    {
      entries := [];
    }

    /** `getRoute($name)`: the stored route, or nothing when the name is absent. */
    function GetRoute(name: string): (r: Option<Route>)
      reads this
      ensures r.Some? <==> name in NameSet(entries)
      ensures r.Some? ==> Entry(name, r.value) in entries
    {
      Lookup(entries, name)
    }

    /** `count()`. */
    function Count(): (n: nat)
      reads this
      requires Valid()
      ensures n == |NameSet(entries)|
    {
      DistinctCount(entries);
      |entries|
    }

    method AddRoute(name: string, methods: MethodsArg, path: string, handler: Handler, reqs: Requirements)
      returns (err: Option<Error>)
      requires Valid()
      modifies this
      ensures Valid()
      ensures match Registered(old(entries), name, methods, path, handler, reqs)
        case Ok(es) => err.None? && entries == es
        case Err(e) => err == Some(e) && entries == old(entries)
    {
      var ms := NormalizeMethods(methods);
      if ms.Err? {
        return Some(ms.error);
      }
      var route := NewRoute(RouteArgs(path, handler, Some(ms.value), reqs));
      if route.Err? {
        return Some(route.error);
      }
      StoreSpec(entries, name, route.value);
      entries := Store(entries, name, route.value);
      return None;
    }

    method RemoveRoute(name: string)
      requires Valid()
      modifies this
      ensures Valid()
      ensures entries == Remove(old(entries), name)
    {
      RemoveSpec(entries, name);
      if IndexOf(entries, name).Some? {
        var i := IndexOf(entries, name).value;
        entries := entries[..i] + entries[i + 1..];
      }
    }

    method Any(name: string, path: string, handler: Handler, reqs: Requirements) returns (err: Option<Error>)
      requires Valid()
      modifies this
      ensures Valid()
      ensures match Registered(old(entries), name, MList(Verbs), path, handler, reqs)
        case Ok(es) => err.None? && entries == es
        case Err(e) => err == Some(e) && entries == old(entries)
    {
      err := AddRoute(name, MList(Verbs), path, handler, reqs);
    }

    method Except(name: string, methods: MethodsArg, path: string, handler: Handler, reqs: Requirements)
      returns (err: Option<Error>)
      requires Valid()
      modifies this
      ensures Valid()
      ensures match RegisteredExcept(old(entries), name, methods, path, handler, reqs)
        case Ok(es) => err.None? && entries == es
        case Err(e) => err == Some(e) && entries == old(entries)
    {
      var given := NormalizeMethods(methods);
      if given.Err? {
        return Some(given.error);
      }
      err := AddRoute(name, MList(ExceptVerbs(given.value)), path, handler, reqs);
    }

    /** `get`, `post`, `put`, `patch`, `delete`: `addRoute` with the verb as the method string. */
    method AddForVerb(verb: string, name: string, path: string, handler: Handler, reqs: Requirements)
      returns (err: Option<Error>)
      requires Valid() && verb in Verbs
      modifies this
      ensures Valid()
      ensures match Registered(old(entries), name, MString(verb), path, handler, reqs)
        case Ok(es) => err.None? && entries == es
        case Err(e) => err == Some(e) && entries == old(entries)
    {
      err := AddRoute(name, MString(verb), path, handler, reqs);
    }

    method Get(name: string, path: string, handler: Handler, reqs: Requirements) returns (err: Option<Error>)
      requires Valid()
      modifies this
      ensures Valid()
      ensures match Registered(old(entries), name, MString("GET"), path, handler, reqs)
        case Ok(es) => err.None? && entries == es
        case Err(e) => err == Some(e) && entries == old(entries)
    {
      err := AddForVerb("GET", name, path, handler, reqs);
    }

    method Post(name: string, path: string, handler: Handler, reqs: Requirements) returns (err: Option<Error>)
      requires Valid()
      modifies this
      ensures Valid()
      ensures match Registered(old(entries), name, MString("POST"), path, handler, reqs)
        case Ok(es) => err.None? && entries == es
        case Err(e) => err == Some(e) && entries == old(entries)
    {
      err := AddForVerb("POST", name, path, handler, reqs);
    }

    method Put(name: string, path: string, handler: Handler, reqs: Requirements) returns (err: Option<Error>)
      requires Valid()
      modifies this
      ensures Valid()
      ensures match Registered(old(entries), name, MString("PUT"), path, handler, reqs)
        case Ok(es) => err.None? && entries == es
        case Err(e) => err == Some(e) && entries == old(entries)
    {
      err := AddForVerb("PUT", name, path, handler, reqs);
    }

    method Patch(name: string, path: string, handler: Handler, reqs: Requirements) returns (err: Option<Error>)
      requires Valid()
      modifies this
      ensures Valid()
      ensures match Registered(old(entries), name, MString("PATCH"), path, handler, reqs)
        case Ok(es) => err.None? && entries == es
        case Err(e) => err == Some(e) && entries == old(entries)
    {
      err := AddForVerb("PATCH", name, path, handler, reqs);
    }

    method Delete(name: string, path: string, handler: Handler, reqs: Requirements) returns (err: Option<Error>)
      requires Valid()
      modifies this
      ensures Valid()
      ensures match Registered(old(entries), name, MString("DELETE"), path, handler, reqs)
        case Ok(es) => err.None? && entries == es
        case Err(e) => err == Some(e) && entries == old(entries)
    {
      err := AddForVerb("DELETE", name, path, handler, reqs);
    }
  }
}
