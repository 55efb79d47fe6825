/**
  The fallback display label of an entity variant: the short class name
  (what follows the last namespace separator `\`), with a space inserted at
  every lower-case-or-digit to upper-case boundary and that upper-case
  letter lowered (`App\CustomProduct` becomes `Custom product`).
  Both regular-expression rewrites are modelled character by character over
  ASCII.
 */
module VariantLabels {
  import opened Wrappers

  predicate IsLowerOrDigit(c: char) {
    'a' <= c <= 'z' || '0' <= c <= '9'
  }

  predicate IsUpper(c: char) {
    'A' <= c <= 'Z'
  }

  predicate IsLower(c: char) {
    'a' <= c <= 'z'
  }

  /** `strtolower` on one ASCII character. */
  function ToLower(c: char): char {
    if IsUpper(c) then (c as int + 32) as char else c
  }

  function ToUpper(c: char): char {
    if IsLower(c) then (c as int - 32) as char else c
  }

  /** The index of the last namespace separator, if any. */
  function LastSeparator(name: string): (r: Option<nat>)
    ensures r.Some? ==> r.value < |name| && name[r.value] == '\\' && '\\' !in name[r.value + 1..]
    ensures r.None? ==> '\\' !in name
  {
    if name == [] then None
    else if name[|name| - 1] == '\\' then Some(|name| - 1)
    else
      var r := LastSeparator(name[..|name| - 1]);
      assert r.Some? ==> name[r.value + 1..] == name[..|name| - 1][r.value + 1..] + [name[|name| - 1]];
      r
  }

  /** The rewrite of `^.*?\\([^\\]+)$` to `$1`: the text after the last
      separator when that text is not empty, the whole name otherwise. */
  function ShortName(name: string): (r: string)
    ensures '\\' in name && name[|name| - 1] != '\\' ==>
      0 < |r| < |name| && '\\' !in r && name == name[..|name| - |r| - 1] + ['\\'] + r
    ensures '\\' !in name || name[|name| - 1] == '\\' ==> r == name
  {
    match LastSeparator(name)
    case None => name
    case Some(p) =>
      if p < |name| - 1 then
        assert name == name[..p] + ['\\'] + name[p + 1..];
        name[p + 1..]
      else name
  }

  /** The global rewrite of `([a-z0-9])([A-Z])` to `$1 ` followed by the
      lowered second letter. Matches do not overlap: the scan resumes after
      the upper-case letter it consumed. */
  function Decamel(s: string): (r: string)
    ensures |r| >= |s|
    ensures |s| > 0 ==> r[0] == s[0]
  {
    if |s| < 2 then s
    else if IsLowerOrDigit(s[0]) && IsUpper(s[1]) then [s[0], ' ', ToLower(s[1])] + Decamel(s[2..])
    else [s[0]] + Decamel(s[1..])
  }

  /** The reverse rewrite: each lower-case-or-digit, space, lower-case triple
      loses its space and gets its letter raised. */
  function Recamel(t: string): string
  {
    if |t| < 3 then t
    else if IsLowerOrDigit(t[0]) && t[1] == ' ' && IsLower(t[2]) then [t[0], ToUpper(t[2])] + Recamel(t[3..])
    else [t[0]] + Recamel(t[1..])
  }

  /** On names without spaces (class names), the rewrite loses nothing: two
      different short names never get the same fallback label. */
  lemma {:induction false} DecamelRoundTrip(s: string)
    requires ' ' !in s
    ensures Recamel(Decamel(s)) == s
  {
    if |s| >= 2 {
      if IsLowerOrDigit(s[0]) && IsUpper(s[1]) {
        var t := [s[0], ' ', ToLower(s[1])] + Decamel(s[2..]);
        assert t[3..] == Decamel(s[2..]);
        DecamelRoundTrip(s[2..]);
        assert s == [s[0], s[1]] + s[2..];
      } else {
        var t := [s[0]] + Decamel(s[1..]);
        assert t[1..] == Decamel(s[1..]);
        DecamelRoundTrip(s[1..]);
        assert s == [s[0]] + s[1..];
      }
    }
  }

  lemma DecamelInjective(s: string, s': string)
    requires ' ' !in s && ' ' !in s'
    requires Decamel(s) == Decamel(s')
    ensures s == s'
  {
    DecamelRoundTrip(s);
    DecamelRoundTrip(s');
  }

  /** The short name of a namespaced class is its own name. */
  lemma ShortNameOfQualified(ns: string, cls: string)
    requires cls != [] && '\\' !in cls
    ensures ShortName(ns + ['\\'] + cls) == cls
  {
    var name := ns + ['\\'] + cls;
    assert name[|ns|] == '\\';
    var r := ShortName(name);
    assert r == name[|name| - |r|..];
  }

  /** Text without upper-case letters is left as it is. */
  lemma {:induction false} DecamelWithoutUpper(s: string)
    requires forall i :: 0 <= i < |s| ==> !IsUpper(s[i])
    ensures Decamel(s) == s
  {
    if |s| >= 2 {
      DecamelWithoutUpper(s[1..]);
    }
  }

  /** A word followed by a capitalised word is split in two and the second
      word's capital lowered: `CustomProduct` becomes `Custom product`. */
  lemma {:induction false} DecamelTwoWords(w: string, u: char, rest: string)
    requires w != [] && IsLowerOrDigit(w[|w| - 1]) && IsUpper(u)
    requires forall i :: 1 <= i < |w| ==> !IsUpper(w[i])
    requires forall i :: 0 <= i < |rest| ==> !IsUpper(rest[i])
    ensures Decamel(w + [u] + rest) == w + [' ', ToLower(u)] + rest
  {
    var t := w + [u] + rest;
    if |w| == 1 {
      assert t == [w[0], u] + rest;
      DecamelBoundary(w[0], u, rest);
    } else {
      var w' := w[1..];
      var t' := w' + [u] + rest;
      assert forall i :: 1 <= i < |w'| ==> !IsUpper(w'[i]) by {
        forall i | 1 <= i < |w'| ensures !IsUpper(w'[i]) {
          assert w'[i] == w[i + 1];
        }
      }
      DecamelTwoWords(w', u, rest);
      assert Decamel(t) == [w[0]] + Decamel(t') by {
        assert t == [w[0]] + t';
        DecamelCons(w[0], t');
      }
      assert [w[0]] + (w' + [' ', ToLower(u)] + rest) == w + [' ', ToLower(u)] + rest by {
        assert w == [w[0]] + w';
      }
    }
  }

  /** One boundary followed by text without upper-case letters. */
  lemma DecamelBoundary(c: char, u: char, rest: string)
    requires IsLowerOrDigit(c) && IsUpper(u)
    requires forall i :: 0 <= i < |rest| ==> !IsUpper(rest[i])
    ensures Decamel([c, u] + rest) == [c, ' ', ToLower(u)] + rest
  {
    DecamelWithoutUpper(rest);
    assert ([c, u] + rest)[2..] == rest;
  }

  /** A character that does not start a boundary is copied as it is. */
  lemma DecamelCons(c: char, t: string)
    requires t != [] && !(IsLowerOrDigit(c) && IsUpper(t[0]))
    ensures Decamel([c] + t) == [c] + Decamel(t)
  {
    assert ([c] + t)[1..] == t;
  }

  /** Every boundary is rewritten, wherever it stands: the scan reaches the
      boundary's lower-case letter with everything before it rewritten on
      its own, and resumes after the capital with the rest rewritten on its own. */
  lemma {:induction false} DecamelAtBoundary(a: string, c: char, u: char, b: string)
    requires IsLowerOrDigit(c) && IsUpper(u)
    ensures Decamel(a + [c, u] + b) == Decamel(a + [c]) + [' ', ToLower(u)] + Decamel(b)
    decreases |a|
  {
    if a == [] {
      assert a + [c, u] + b == [c, u] + b;
      DecamelStep(c, u, b);
    } else if |a| >= 2 && IsLowerOrDigit(a[0]) && IsUpper(a[1]) {
      DecamelAtBoundary(a[2..], c, u, b);
      BoundaryAfterPair(a, c, u, b);
    } else {
      DecamelAtBoundary(a[1..], c, u, b);
      BoundaryAfterChar(a, c, u, b);
    }
  }

  /** The inductive step of `DecamelAtBoundary` past a boundary at the head of `a`. */
  lemma BoundaryAfterPair(a: string, c: char, u: char, b: string)
    requires IsLowerOrDigit(c) && IsUpper(u)
    requires |a| >= 2 && IsLowerOrDigit(a[0]) && IsUpper(a[1])
    requires Decamel(a[2..] + [c, u] + b) == Decamel(a[2..] + [c]) + [' ', ToLower(u)] + Decamel(b)
    ensures Decamel(a + [c, u] + b) == Decamel(a + [c]) + [' ', ToLower(u)] + Decamel(b)
  {
    var a' := a[2..];
    var h := [a[0], ' ', ToLower(a[1])];
    assert Decamel(a + [c, u] + b) == h + Decamel(a' + [c, u] + b) by {
      assert a + [c, u] + b == [a[0], a[1]] + (a' + [c, u] + b);
      DecamelStep(a[0], a[1], a' + [c, u] + b);
    }
    assert Decamel(a + [c]) == h + Decamel(a' + [c]) by {
      assert a + [c] == [a[0], a[1]] + (a' + [c]);
      DecamelStep(a[0], a[1], a' + [c]);
    }
    ConcatAssoc(h, Decamel(a' + [c]), [' ', ToLower(u)], Decamel(b));
  }

  lemma ConcatAssoc(h: string, l: string, y: string, z: string)
    ensures h + (l + y + z) == h + l + y + z
  {
  }

  /** The inductive step of `DecamelAtBoundary` past a head character that starts no boundary. */
  lemma BoundaryAfterChar(a: string, c: char, u: char, b: string)
    requires IsLowerOrDigit(c) && IsUpper(u)
    requires a != [] && !(|a| >= 2 && IsLowerOrDigit(a[0]) && IsUpper(a[1]))
    requires Decamel(a[1..] + [c, u] + b) == Decamel(a[1..] + [c]) + [' ', ToLower(u)] + Decamel(b)
    ensures Decamel(a + [c, u] + b) == Decamel(a + [c]) + [' ', ToLower(u)] + Decamel(b)
  {
    var a' := a[1..];
    var next := if a' == [] then c else a'[0];
    assert !(IsLowerOrDigit(a[0]) && IsUpper(next));
    assert Decamel(a + [c, u] + b) == [a[0]] + Decamel(a' + [c, u] + b) by {
      var t := a' + [c, u] + b;
      assert t[0] == next;
      assert a + [c, u] + b == [a[0]] + t;
      DecamelCons(a[0], t);
    }
    assert Decamel(a + [c]) == [a[0]] + Decamel(a' + [c]) by {
      var t := a' + [c];
      assert t[0] == next;
      assert a + [c] == [a[0]] + t;
      DecamelCons(a[0], t);
    }
    ConcatAssoc([a[0]], Decamel(a' + [c]), [' ', ToLower(u)], Decamel(b));
  }

  /** A boundary at the head is rewritten and the scan resumes after it. */
  lemma DecamelStep(c: char, u: char, t: string)
    requires IsLowerOrDigit(c) && IsUpper(u)
    ensures Decamel([c, u] + t) == [c, ' ', ToLower(u)] + Decamel(t)
  {
    assert ([c, u] + t)[2..] == t;
  }

  /** Two boundaries, two rewrites: `aBcD` becomes `a bc d`. */
  lemma TwoBoundaries()
    ensures Decamel("aBcD") == "a bc d"
  {
    assert Decamel("cD") == "c d" by {
      assert "cD" == "" + ['c', 'D'] + "";
      DecamelAtBoundary("", 'c', 'D', "");
    }
    assert "aBcD" == "" + ['a', 'B'] + "cD";
    DecamelAtBoundary("", 'a', 'B', "cD");
  }

  /** The rewrite makes one pass: in `aBC` the one boundary is `aB`, and the
      lower-then-upper pair `bC` that its rewrite produces is not rewritten again. */
  lemma NonOverlappingMatches()
    ensures Decamel("aBC") == "a bC"
  {
  }
}
