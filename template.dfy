/**
 * Path templates: finding the `{\w+}` placeholders of a route path the way
 * `preg_split` and `preg_match_all` do (leftmost, left to right, without
 * overlap), and escaping static text the way `preg_quote` does.
 */
module Template {
  import opened Wrappers
  import opened Text

  /** Length of the longest prefix of `s` made of word characters. */
  function WordRun(s: string): (n: nat)
    ensures n <= |s|
    ensures forall i :: 0 <= i < n ==> IsWordChar(s[i])
    ensures n < |s| ==> !IsWordChar(s[n])
  {
    if s != [] && IsWordChar(s[0]) then 1 + WordRun(s[1..]) else 0
  }

  /** A placeholder name: one or more word characters. */
  predicate IsName(n: string) {
    |n| >= 1 && IsWord(n)
  }

  function Braced(n: string): string {
    "{" + n + "}"
  }

  /** The name of the placeholder `{\w+}` that `s` starts with, if it starts with one. */
  function PlaceholderAt(s: string): (r: Option<string>)
    ensures r.Some? ==> IsName(r.value) && |r.value| + 2 <= |s| && s[..|r.value| + 2] == Braced(r.value)
  {
    if s != [] && s[0] == '{' then
      var k := WordRun(s[1..]);
      if 1 <= k && k + 1 < |s| && s[k + 1] == '}' then
        assert forall i :: 0 <= i < k ==> s[1..k + 1][i] == s[1..][i];
        assert s[..k + 2] == "{" + s[1..k + 1] + "}";
        Some(s[1..k + 1])
      else None
    else None
  }

  /** Whatever follows `{name}` at the front of `s`, the placeholder found there is `name`. */
  lemma PlaceholderAtExact(s: string, n: string)
    requires IsName(n) && |n| + 2 <= |s| && s[..|n| + 2] == Braced(n)
    ensures PlaceholderAt(s) == Some(n)
  {
    var b := s[..|n| + 2];
    assert b == "{" + n + "}";
    assert b[1..|n| + 1] == n;
    assert s[1..|n| + 1] == b[1..|n| + 1];
    assert s[1..][..|n|] == s[1..|n| + 1];
    assert s[|n| + 1] == b[|n| + 1] == '}';
    WordRunExact(s[1..], |n|);
    assert s[1..|n| + 1] == n;
  }

  lemma {:induction false} WordRunExact(s: string, k: nat)
    requires k < |s| && IsWord(s[..k]) && !IsWordChar(s[k])
    ensures WordRun(s) == k
  {
    if k > 0 {
      assert IsWordChar(s[..k][0]);
      assert s[1..][..k - 1] == s[..k][1..];
      WordRunExact(s[1..], k - 1);
    }
  }

  /** `preg_match('`{\w+}`', $s)`: some position of `s` starts a placeholder. */
  predicate HasPlaceholder(s: string)
    decreases |s|
  {
    s != [] && (PlaceholderAt(s).Some? || HasPlaceholder(s[1..]))
  }

  /** A path template cut at its placeholders: `|statics| == |names| + 1`. */
  datatype Split = Split(statics: seq<string>, names: seq<string>)

  /**
   * The placeholder scan shared by `preg_split('`{\w+}`', $path)` (the static
   * fragments) and `preg_match_all('`{(?P<parameters>\w+)}`', $path)` (the
   * names): at each position either a placeholder starts there and the scan
   * resumes after it, or the position is static text.
   */
  function Scan(s: string): (t: Split)
    ensures |t.statics| == |t.names| + 1
    ensures forall i :: 0 <= i < |t.names| ==> IsName(t.names[i])
    decreases |s|
  {
    if s == [] then Split([""], [])
    else match PlaceholderAt(s)
      case Some(n) =>
        var rest := Scan(s[|n| + 2..]);
        Split([""] + rest.statics, [n] + rest.names)
      case None =>
        var rest := Scan(s[1..]);
        Split([[s[0]] + rest.statics[0]] + rest.statics[1..], rest.names)
  }

  /** The template text again: statics interleaved with the braced names. */
  function Join(statics: seq<string>, names: seq<string>): string
    requires |statics| == |names| + 1
  {
    if names == [] then statics[0]
    else statics[0] + Braced(names[0]) + Join(statics[1..], names[1..])
  }

  lemma {:induction false} JoinStartsWithFirstStatic(statics: seq<string>, names: seq<string>)
    requires |statics| == |names| + 1
    ensures statics[0] <= Join(statics, names)
  {
  }

  /** The scan loses nothing: rejoining the fragments and the names gives the path. */
  lemma {:induction false} ScanJoin(s: string)
    ensures Join(Scan(s).statics, Scan(s).names) == s
    decreases |s|
  {
    if s != [] {
      match PlaceholderAt(s)
      case Some(n) =>
        var rest := Scan(s[|n| + 2..]);
        ScanJoin(s[|n| + 2..]);
        assert Scan(s) == Split([""] + rest.statics, [n] + rest.names);
        assert s == s[..|n| + 2] + s[|n| + 2..];
      case None =>
        var rest := Scan(s[1..]);
        ScanJoin(s[1..]);
        var t := Scan(s);
        assert t.statics[0] == [s[0]] + rest.statics[0];
        assert t.statics[1..] == rest.statics[1..];
        if rest.names == [] {
          assert Join(t.statics, t.names) == t.statics[0];
        } else {
          assert Join(t.statics, t.names) == t.statics[0] + Braced(t.names[0]) + Join(t.statics[1..], t.names[1..]);
          assert Join(rest.statics, rest.names) == rest.statics[0] + Braced(rest.names[0]) + Join(rest.statics[1..], rest.names[1..]);
        }
        assert s == [s[0]] + s[1..];
    }
  }

  /** The scan finds a placeholder exactly when the path has one. */
  lemma {:induction false} ScanFindsAll(s: string)
    ensures Scan(s).names == [] <==> !HasPlaceholder(s)
    decreases |s|
  {
    if s != [] {
      match PlaceholderAt(s)
      case Some(n) =>
      case None => ScanFindsAll(s[1..]);
    }
  }

  /** A placeholder at the front of a prefix of `s` is one at the front of `s`. */
  lemma PlaceholderAtPrefix(h: string, s: string)
    requires h <= s && PlaceholderAt(h).Some?
    ensures PlaceholderAt(s) == PlaceholderAt(h)
  {
    var m := PlaceholderAt(h).value;
    assert s[..|m| + 2] == h[..|m| + 2];
    PlaceholderAtExact(s, m);
  }

  lemma ConsHasNoPlaceholder(c: char, x: string)
    requires PlaceholderAt([c] + x).None? && !HasPlaceholder(x)
    ensures !HasPlaceholder([c] + x)
  {
    assert ([c] + x)[1..] == x;
  }

  /** No static fragment contains a placeholder: the scan misses none, left to right. */
  lemma {:induction false} StaticsHaveNoPlaceholder(s: string)
    ensures forall i :: 0 <= i < |Scan(s).statics| ==> !HasPlaceholder(Scan(s).statics[i])
    decreases |s|
  {
    if s != [] {
      var t := Scan(s);
      match PlaceholderAt(s)
      case Some(n) =>
        var rest := Scan(s[|n| + 2..]);
        StaticsHaveNoPlaceholder(s[|n| + 2..]);
        assert t.statics == [""] + rest.statics;
      case None =>
        var rest := Scan(s[1..]);
        StaticsHaveNoPlaceholder(s[1..]);
        var head := [s[0]] + rest.statics[0];
        assert t.statics == [head] + rest.statics[1..];
        ScanJoin(s[1..]);
        JoinStartsWithFirstStatic(rest.statics, rest.names);
        assert head <= s by {
          assert s == [s[0]] + s[1..];
        }
        if PlaceholderAt(head).Some? {
          PlaceholderAtPrefix(head, s);
        }
        ConsHasNoPlaceholder(s[0], rest.statics[0]);
    }
  }

  /** In `p + {w}` with `p` non-empty, a placeholder at the front lies inside `p`. */
  lemma PlaceholderInsidePrefix(p: string, w: string, n: string)
    requires p != [] && PlaceholderAt(p + Braced(w)) == Some(n)
    ensures |n| + 2 <= |p|
  {
    var s := p + Braced(w);
    assert s[|p|] == '{';
  }

  /** `preg_split` and `preg_match_all` at a placeholder `{n}`: an empty fragment, then `n`. */
  lemma ScanAtPlaceholder(s: string, n: string)
    requires s != [] && PlaceholderAt(s) == Some(n)
    ensures var rest := Scan(s[|n| + 2..]);
      Scan(s) == Split([""] + rest.statics, [n] + rest.names)
  {
  }

  /** Away from a placeholder the first character joins the first fragment. */
  lemma ScanAtPlain(s: string)
    requires s != [] && PlaceholderAt(s).None?
    ensures var rest := Scan(s[1..]);
      Scan(s) == Split([[s[0]] + rest.statics[0]] + rest.statics[1..], rest.names)
  {
  }

  /** A split whose last name is `w` and whose last fragment is empty. */
  predicate EndsInName(t: Split, w: string) {
    |t.statics| == |t.names| + 1 && |t.names| >= 1 && t.names[|t.names| - 1] == w && t.statics[|t.statics| - 1] == ""
  }

  /** A placeholder in front keeps the last name and the last fragment. */
  lemma EndsInNameAfterPlaceholder(n: string, rest: Split, w: string)
    requires EndsInName(rest, w)
    ensures EndsInName(Split([""] + rest.statics, [n] + rest.names), w)
  {
    LastOfCons("", rest.statics);
    LastOfCons(n, rest.names);
  }

  /** Text in front of the first fragment keeps the last name and the last fragment. */
  lemma EndsInNameAfterText(x: string, rest: Split, w: string)
    requires EndsInName(rest, w)
    ensures EndsInName(Split([x + rest.statics[0]] + rest.statics[1..], rest.names), w)
  {
    LastOfCons(x + rest.statics[0], rest.statics[1..]);
  }

  /**
   * A path that ends with `{w}` has `w` as its last placeholder, followed by
   * an empty static fragment.
   */
  lemma {:induction false} ScanTrailing(p: string, w: string)
    requires IsName(w)
    ensures EndsInName(Scan(p + Braced(w)), w)
    decreases |p|
  {
    var s := p + Braced(w);
    if p == [] {
      assert s == Braced(w);
      ScanPlaceholder(w);
    } else {
      match PlaceholderAt(s)
      case Some(n) =>
        PlaceholderInsidePrefix(p, w, n);
        assert s[|n| + 2..] == p[|n| + 2..] + Braced(w);
        ScanTrailing(p[|n| + 2..], w);
        ScanAtPlaceholder(s, n);
        EndsInNameAfterPlaceholder(n, Scan(s[|n| + 2..]), w);
      case None =>
        assert s[1..] == p[1..] + Braced(w);
        ScanTrailing(p[1..], w);
        ScanAtPlain(s);
        EndsInNameAfterText([s[0]], Scan(s[1..]), w);
    }
  }

  lemma LastOfCons<T>(x: T, xs: seq<T>)
    requires xs != []
    ensures ([x] + xs)[|xs|] == xs[|xs| - 1]
  {
  }

  /** A brace-free prefix is static text: it is glued onto the first fragment of what follows. */
  lemma {:induction false} ScanPlainPrefix(p: string, t: string)
    requires '{' !in p
    ensures Scan(p + t) == Split([p + Scan(t).statics[0]] + Scan(t).statics[1..], Scan(t).names)
    decreases |p|
  {
    if p == [] {
      assert p + t == t;
      assert p + Scan(t).statics[0] == Scan(t).statics[0];
      assert [Scan(t).statics[0]] + Scan(t).statics[1..] == Scan(t).statics;
    } else {
      var s := p + t;
      assert s[0] == p[0] && s[1..] == p[1..] + t;
      assert p[0] in p;
      ScanPlainPrefix(p[1..], t);
      var rest := Scan(t);
      assert [p[0]] + (p[1..] + rest.statics[0]) == p + rest.statics[0];
    }
  }

  /** A template that is one placeholder and nothing else. */
  lemma ScanPlaceholder(w: string)
    requires IsName(w)
    ensures Scan(Braced(w)) == Split(["", ""], [w])
  {
    var s := Braced(w);
    PlaceholderAtExact(s, w);
    assert s[|w| + 2..] == [];
  }

  /** The characters `preg_quote` escapes (PHP 7.3 and later). */
  predicate IsRegexMeta(c: char) {
    c in ".\\+*?[^]$(){}=!<>|:-#"
  }

  /** `preg_quote` on one character; NUL becomes `\000`, `/` is not a metacharacter. */
  function QuoteChar(c: char): string {
    if c == '\0' then "\\000" else if IsRegexMeta(c) then ['\\', c] else [c]
  }

  /** `preg_quote($s)` without a delimiter argument: escape character by character. */
  function Quote(s: string): string {
    if s == [] then "" else QuoteChar(s[0]) + Quote(s[1..])
  }

  /** Escaping is per character, so it distributes over concatenation. */
  lemma {:induction false} QuoteConcat(a: string, b: string)
    ensures Quote(a + b) == Quote(a) + Quote(b)
  {
    if a == [] {
      assert a + b == b;
    } else {
      assert (a + b)[0] == a[0];
      assert (a + b)[1..] == a[1..] + b;
      QuoteConcat(a[1..], b);
      assert Quote(a + b) == QuoteChar(a[0]) + Quote(a[1..] + b);
    }
  }

  /** Escaping a character yields a `/` at its end only for `/` itself, which is kept as it is. */
  lemma QuoteCharSlash(c: char)
    ensures |QuoteChar(c)| >= 1
    ensures c == '/' ==> QuoteChar(c) == "/"
    ensures c != '/' ==> QuoteChar(c)[|QuoteChar(c)| - 1] != '/'
  {
  }

  /** Trimming slashes commutes with escaping, because `/` is left as it is. */
  lemma {:induction false} QuoteTrimSlashes(s: string)
    ensures TrimRight(Quote(s), '/') == Quote(TrimRight(s, '/'))
    decreases |s|
  {
    if s != [] {
      var init, last := s[..|s| - 1], s[|s| - 1];
      assert s == init + [last];
      QuoteConcat(init, [last]);
      assert Quote([last]) == QuoteChar(last) + Quote([]);
      QuoteCharSlash(last);
      if last == '/' {
        TrimRightAppend(Quote(init), '/');
        assert s[..|s| - 1] == init;
        QuoteTrimSlashes(init);
      } else {
        var q := Quote(s);
        assert q[|q| - 1] == QuoteChar(last)[|QuoteChar(last)| - 1];
      }
    }
  }

  /** Text without metacharacters or NUL is its own escape. */
  lemma {:induction false} QuotePlain(s: string)
    requires forall i :: 0 <= i < |s| ==> !IsRegexMeta(s[i]) && s[i] != '\0'
    ensures Quote(s) == s
  {
    if s != [] {
      QuotePlain(s[1..]);
      assert s == [s[0]] + s[1..];
    }
  }
}
