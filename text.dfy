/**
 * The string functions of PHP that the router relies on: `strtoupper`,
 * `explode`/`implode`, `rtrim`/`trim` with a one-character list, suffix
 * tests, and the two kinds of PHP array key.
 */
module Text {

  /** A PHP array key is an integer or a string. */
  datatype ArrayKey = IntKey(n: int) | StrKey(s: string)

  /** The class `\w` of a PCRE pattern without the `u` flag: ASCII letters, digits and `_`. */
  predicate IsWordChar(c: char) {
    ('a' <= c <= 'z') || ('A' <= c <= 'Z') || ('0' <= c <= '9') || c == '_'
  }

  /** A (possibly empty) string of word characters. */
  predicate IsWord(s: string) {
    forall i :: 0 <= i < |s| ==> IsWordChar(s[i])
  }

  /** `strtoupper` on one character: only the ASCII letters change. */
  function UpperChar(c: char): (u: char)
    ensures 'a' <= c <= 'z' ==> 'A' <= u <= 'Z' && u as int == c as int - 32
    ensures !('a' <= c <= 'z') ==> u == c
    ensures !('a' <= u <= 'z')
  {
    if 'a' <= c <= 'z' then (c as int - 32) as char else c
  }

  /** `strtoupper`. */
  function Upper(s: string): (u: string)
    ensures |u| == |s|
    ensures forall i :: 0 <= i < |s| ==> u[i] == UpperChar(s[i])
  {
    if s == [] then [] else [UpperChar(s[0])] + Upper(s[1..])
  }

  /** A string without lower-case ASCII letters is its own upper-case form. */
  lemma UpperIdentity(s: string)
    requires forall i :: 0 <= i < |s| ==> !('a' <= s[i] <= 'z')
    ensures Upper(s) == s
  {
  }

  predicate EndsWith(s: string, suffix: string) {
    |suffix| <= |s| && s[|s| - |suffix|..] == suffix
  }

  /** `explode($sep, $s)`: the pieces of `s` between occurrences of `sep`. */
  function Explode(s: string, sep: char): (parts: seq<string>)
    ensures |parts| >= 1
  {
    if s == [] then [""]
    else
      var rest := Explode(s[1..], sep);
      if s[0] == sep then [""] + rest
      else [[s[0]] + rest[0]] + rest[1..]
  }

  /** `implode($sep, $parts)` for a non-empty list. */
  function Implode(parts: seq<string>, sep: char): string
    requires |parts| >= 1
  {
    if |parts| == 1 then parts[0] else parts[0] + [sep] + Implode(parts[1..], sep)
  }

  /** `implode('', $parts)`. */
  function Concat(parts: seq<string>): string {
    if parts == [] then "" else parts[0] + Concat(parts[1..])
  }

  /** `implode('', [$x])` is `$x`. */
  lemma ConcatOne(parts: seq<string>)
    requires |parts| == 1
    ensures Concat(parts) == parts[0]
  {
    assert Concat(parts) == parts[0] + Concat([]);
  }

  /** Imploding one more piece appends the separator and the piece. */
  lemma {:induction false} ImplodeSnoc(parts: seq<string>, sep: char, last: string)
    requires |parts| >= 1
    ensures Implode(parts + [last], sep) == Implode(parts, sep) + [sep] + last
  {
    if |parts| > 1 {
      assert (parts + [last])[1..] == parts[1..] + [last];
      ImplodeSnoc(parts[1..], sep, last);
    } else {
      assert (parts + [last])[1..] == [last];
    }
  }

  lemma ImplodeStartsWithFirst(parts: seq<string>, sep: char)
    requires |parts| >= 1
    ensures parts[0] <= Implode(parts, sep)
  {
  }

  /** Exploding and imploding again gives the original string back. */
  lemma {:induction false} ImplodeExplode(s: string, sep: char)
    ensures Implode(Explode(s, sep), sep) == s
  {
    if s != [] {
      var rest := Explode(s[1..], sep);
      ImplodeExplode(s[1..], sep);
      if s[0] == sep {
        ImplodeEmptyFirst(rest, sep);
      } else {
        ImplodeGrowFirst(s[0], rest, sep);
      }
      assert s == [s[0]] + s[1..];
    }
  }

  /** An empty first piece contributes only its separator. */
  lemma ImplodeEmptyFirst(rest: seq<string>, sep: char)
    requires |rest| >= 1
    ensures Implode([""] + rest, sep) == [sep] + Implode(rest, sep)
  {
    assert ([""] + rest)[1..] == rest;
  }

  /** A character put in front of the first piece comes first in the result. */
  lemma ImplodeGrowFirst(c: char, rest: seq<string>, sep: char)
    requires |rest| >= 1
    ensures Implode([[c] + rest[0]] + rest[1..], sep) == [c] + Implode(rest, sep)
  {
    var parts := [[c] + rest[0]] + rest[1..];
    if |rest| > 1 {
      assert parts[1..] == rest[1..];
    }
  }

  /** No piece of an exploded string contains the separator. */
  lemma {:induction false} ExplodePiecesHaveNoSeparator(s: string, sep: char)
    ensures forall i :: 0 <= i < |Explode(s, sep)| ==> sep !in Explode(s, sep)[i]
  {
    if s != [] {
      ExplodePiecesHaveNoSeparator(s[1..], sep);
      var rest := Explode(s[1..], sep);
      if s[0] != sep {
        var parts := Explode(s, sep);
        assert parts[0] == [s[0]] + rest[0];
        forall i | 0 <= i < |parts| ensures sep !in parts[i] {
          if i > 0 { assert parts[i] == rest[i]; }
        }
      }
    }
  }

  /** Imploding pieces free of the separator and exploding again gives the pieces back. */
  lemma {:induction false} ExplodeImplode(parts: seq<string>, sep: char)
    requires |parts| >= 1
    requires forall i :: 0 <= i < |parts| ==> sep !in parts[i]
    ensures Explode(Implode(parts, sep), sep) == parts
  {
    if |parts| == 1 {
      ExplodeFree(parts[0], sep, []);
      assert parts[0] + [] == parts[0];
    } else {
      ExplodeImplode(parts[1..], sep);
      ExplodeFree(parts[0], sep, [sep] + Implode(parts[1..], sep));
      ExplodeSep(sep, Implode(parts[1..], sep));
      assert parts[0] + [sep] + Implode(parts[1..], sep) == parts[0] + ([sep] + Implode(parts[1..], sep));
      assert [parts[0]] + parts[1..] == parts;
    }
  }

  /** A separator at the front of the input starts a new, empty first piece. */
  lemma ExplodeSep(sep: char, t: string)
    ensures Explode([sep] + t, sep) == [""] + Explode(t, sep)
  {
    assert ([sep] + t)[1..] == t;
  }

  /** A separator-free prefix is glued onto the first piece of what follows it. */
  lemma {:induction false} ExplodeGlue(a: string, sep: char, t: string)
    requires sep !in a
    ensures Explode(a + t, sep) == [a + Explode(t, sep)[0]] + Explode(t, sep)[1..]
  {
    var e := Explode(t, sep);
    if a == [] {
      assert a + t == t;
      assert a + e[0] == e[0];
      assert [e[0]] + e[1..] == e;
    } else {
      var rest := Explode(a[1..] + t, sep);
      ExplodeGlue(a[1..], sep, t);
      assert a + t == [a[0]] + (a[1..] + t);
      ExplodeChar(a[0], a[1..] + t, sep);
      assert [a[0]] + rest[0] == a + Explode(t, sep)[0];
    }
  }

  /** The prefix is the whole first piece when the input ends or a separator follows it. */
  lemma ExplodeFree(a: string, sep: char, t: string)
    requires sep !in a
    requires t == [] || t[0] == sep
    ensures Explode(a + t, sep) == (if t == [] then [a] else [a] + Explode(t[1..], sep))
  {
    ExplodeGlue(a, sep, t);
    if t == [] {
      assert a + Explode(t, sep)[0] == a;
    } else {
      assert t == [sep] + t[1..];
      ExplodeSep(sep, t[1..]);
      assert a + Explode(t, sep)[0] == a;
    }
  }

  /** A character other than the separator joins the first piece. */
  lemma ExplodeChar(c: char, s: string, sep: char)
    requires c != sep
    ensures Explode([c] + s, sep) == [[c] + Explode(s, sep)[0]] + Explode(s, sep)[1..]
  {
    assert ([c] + s)[1..] == s;
  }

  /** `rtrim($s, $c)`: drop every trailing `c`. */
  function TrimRight(s: string, c: char): (t: string)
    ensures |t| <= |s| && t == s[..|t|]
    ensures t == [] || t[|t| - 1] != c
    ensures forall i :: |t| <= i < |s| ==> s[i] == c
  {
    if s != [] && s[|s| - 1] == c then TrimRight(s[..|s| - 1], c) else s
  }

  /** A trailing `c` is trimmed away with the rest. */
  lemma TrimRightAppend(x: string, c: char)
    ensures TrimRight(x + [c], c) == TrimRight(x, c)
  {
    assert (x + [c])[..|x|] == x;
  }

  /** Nothing to trim when the last character is not `c`. */
  lemma TrimRightKeeps(s: string, c: char)
    requires s != [] && s[|s| - 1] != c
    ensures TrimRight(s, c) == s
  {
  }

  /** `ltrim($s, $c)`: drop every leading `c`. */
  function TrimLeft(s: string, c: char): (t: string)
    ensures |t| <= |s| && t == s[|s| - |t|..]
    ensures t == [] || t[0] != c
    ensures forall i :: 0 <= i < |s| - |t| ==> s[i] == c
  {
    if s != [] && s[0] == c then TrimLeft(s[1..], c) else s
  }

  /** Nothing to trim when the first character is not `c`. */
  lemma TrimLeftKeeps(s: string, c: char)
    requires s != [] && s[0] != c
    ensures TrimLeft(s, c) == s
  {
  }

  /** `t` is the slice of `s` from `k`, and every character of `s` around it is `c`. */
  predicate CutFrom(s: string, c: char, t: string, k: nat) {
    k + |t| <= |s| && t == s[k..k + |t|] &&
    (forall i :: 0 <= i < k ==> s[i] == c) &&
    (forall i :: k + |t| <= i < |s| ==> s[i] == c)
  }

  /** `trim($s, $c)`: drop `c` at both ends. */
  function Trim(s: string, c: char): (t: string)
    ensures t == [] || (t[0] != c && t[|t| - 1] != c)
    ensures exists k :: CutFrom(s, c, t, k)
    ensures t == [] <==> forall i :: 0 <= i < |s| ==> s[i] == c
  {
    var r := TrimRight(s, c);
    var t := TrimLeft(r, c);
    TrimCut(s, c, r, t);
    t
  }

  /**
   * Trimming both ends keeps a middle slice of `s`, with only `c` cut away
   * around it: `r` is what `rtrim` keeps of `s`, `t` what `ltrim` keeps of `r`.
   */
  lemma TrimCut(s: string, c: char, r: string, t: string)
    requires |r| <= |s| && r == s[..|r|] && forall i :: |r| <= i < |s| ==> s[i] == c
    requires |t| <= |r| && t == r[|r| - |t|..] && forall i :: 0 <= i < |r| - |t| ==> r[i] == c
    requires (r == [] || r[|r| - 1] != c) && (t == [] || t[0] != c)
    ensures CutFrom(s, c, t, |r| - |t|)
    ensures t == [] || (t[0] != c && t[|t| - 1] != c)
    ensures t == [] <==> forall i :: 0 <= i < |s| ==> s[i] == c
  {
    var k := |r| - |t|;
    assert t == s[k..k + |t|];
    forall i | 0 <= i < k ensures s[i] == c {
      assert s[i] == r[i];
    }
    if t != [] {
      assert t[|t| - 1] == r[|r| - 1];
    }
    CutEmpty(s, c, t, k);
  }

  /** A cut that does not start with `c` is empty exactly when `s` is all `c`. */
  lemma CutEmpty(s: string, c: char, t: string, k: nat)
    requires CutFrom(s, c, t, k) && (t == [] || t[0] != c)
    ensures t == [] <==> forall i :: 0 <= i < |s| ==> s[i] == c
  {
    if t != [] {
      assert s[k] == t[0];
    }
  }

}
