/**
 * Templates with a single placeholder after plain static text, the forms the
 * router is usually given, worked out: `/users/{id}` compiles to
 * `^/users/([^/]+)$`, and `/posts/{_page}` to `^/posts(?:/|/([^/]+)?)?$`,
 * the slash before the optional page absorbed into the optional group.
 */
module Scenarios {
  import opened Wrappers
  import opened Text
  import opened Template
  import opened Routes

  /** Static text that `preg_quote` leaves alone and that holds no placeholder. */
  predicate Plain(p: string) {
    forall i :: 0 <= i < |p| ==> !IsRegexMeta(p[i]) && p[i] != '\0'
  }

  /** Plain text, then one placeholder: one fragment before it and an empty one after. */
  lemma OnePlaceholderScan(p: string, w: string)
    requires Plain(p) && IsName(w)
    ensures Scan(p + Braced(w)) == Split([p, ""], [w])
  {
    ScanPlaceholder(w);
    assert IsRegexMeta('{');
    assert '{' !in p;
    ScanPlainPrefix(p, Braced(w));
    var t := Scan(Braced(w));
    assert t.statics[0] == "" && t.statics[1..] == [""];
    assert p + "" == p;
  }

  /**
   * `p{w}` with `w` not starting with `_`: the one parameter `w`, required;
   * the pattern is the static text as it is, then the group `(c)`, anchored.
   */
  lemma RequiredPlaceholderPattern(p: string, w: string, conds: map<string, string>)
    requires Plain(p) && IsName(w) && w[0] != '_'
    ensures Scan(p + Braced(w)).names == [w]
    ensures StripAll([w]) == [w] && OptionalAmong(p + Braced(w), [w]).None?
    ensures CompiledPattern(p + Braced(w), [w], None, conds)
         == "^" + (p + "(" + RequirementOf([w], conds, w) + ")") + "$"
  {
    var path := p + Braced(w);
    OnePlaceholderScan(p, w);
    PlainParts(p);
    RequiredBody(p, w, conds);
    assert QuoteAll(Scan(path).statics) == [p, ""];
  }

  /** Escaping leaves plain text and the empty tail as they are. */
  lemma PlainParts(p: string)
    requires Plain(p)
    ensures QuoteAll([p, ""]) == [p, ""]
  {
    QuotePlain(p);
  }

  lemma RequiredBody(p: string, w: string, conds: map<string, string>)
    ensures PatternBody([p, ""], [w], None, conds) == p + "(" + RequirementOf([w], conds, w) + ")"
  {
    var c := RequirementOf([w], conds, w);
    assert Built([p, ""], [w], None, conds, 1) == "" + p + "(" + c + ")";
  }

  /**
   * `p{_x}`: the one parameter `x`, optional; the pattern is the static text
   * with its trailing slashes trimmed, then `(?:/|/(c)?)?`, anchored.
   */
  lemma OptionalPlaceholderPattern(p: string, x: string, conds: map<string, string>)
    requires Plain(p) && IsWord(x)
    ensures Scan(p + Braced("_" + x)).names == ["_" + x]
    ensures StripAll(["_" + x]) == [x] && OptionalAmong(p + Braced("_" + x), ["_" + x]) == Some(x)
    ensures CompiledPattern(p + Braced("_" + x), [x], Some(x), conds)
         == TrailingPattern(p, RequirementOf([x], conds, x))
  {
    var w := "_" + x;
    var path := p + Braced(w);
    assert IsName(w) by {
      forall k | 0 <= k < |w| ensures IsWordChar(w[k]) {
        if k > 0 { assert w[k] == x[k - 1]; }
      }
    }
    OnePlaceholderScan(p, w);
    assert w[1..] == x;
    assert Strip(w) == x;
    assert Braced(w) == "{_" + x + "}";
    assert EndsWith(path, "{_" + w[1..] + "}");
    PlainParts(p);
    OptionalBody(p, x, conds);
    assert QuoteAll(Scan(path).statics) == [p, ""];
  }

  lemma OptionalBody(p: string, x: string, conds: map<string, string>)
    ensures "^" + PatternBody([p, ""], [x], Some(x), conds) + "$" == TrailingPattern(p, RequirementOf([x], conds, x))
  {
    var c := RequirementOf([x], conds, x);
    assert Built([p, ""], [x], Some(x), conds, 0) == "";
    assert Built([p, ""], [x], Some(x), conds, 0) + [p, ""][0] == p;
    var body := Built([p, ""], [x], Some(x), conds, 1);
    assert body == TrimRight(p, '/') + OptionalGroup(c);
    assert PatternBody([p, ""], [x], Some(x), conds) == body + "";
    assert body + "" == body;
  }
}
