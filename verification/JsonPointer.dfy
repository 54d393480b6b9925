/** JSON Pointers (sections 3 and 4 of RFC 6901) as the comparison writes them, and the sorted keys
    it walks (scripts/compare_release_reproducibility_d1l.py). */
module JsonPointer {
  import opened Sorting
  import opened Text

  type Tokens = seq<string>

  // ----- reference tokens

  /** `str.replace` of one character. */
  function Replace(s: string, c: char, text: string): string {
    if s == "" then "" else (if s[0] == c then text else [s[0]]) + Replace(s[1..], c, text)
  }

  function PointerToken(s: string): string {
    Replace(Replace(s, '~', "~0"), '/', "~1")
  }

  function Escape(c: char): string {
    if c == '~' then "~0" else if c == '/' then "~1" else [c]
  }

  /** The inverse of section 4 of RFC 6901: "~1" stands for "/" and "~0" for "~". */
  function Unescape(s: string): string {
    if s == "" then ""
    else if |s| >= 2 && s[0] == '~' && s[1] == '1' then "/" + Unescape(s[2..])
    else if |s| >= 2 && s[0] == '~' && s[1] == '0' then "~" + Unescape(s[2..])
    else [s[0]] + Unescape(s[1..])
  }

  lemma {:induction false} ReplaceConcat(s: string, t: string, c: char, text: string)
    ensures Replace(s + t, c, text) == Replace(s, c, text) + Replace(t, c, text)
  {
    if s == "" {
      assert s + t == t;
    } else {
      assert (s + t)[1..] == s[1..] + t;
      ReplaceConcat(s[1..], t, c, text);
    }
  }

  /** The two passes of `replace` escape character by character. */
  lemma TokenFromFront(c: char, s: string)
    ensures PointerToken([c] + s) == Escape(c) + PointerToken(s)
  {
    assert ([c] + s)[1..] == s;
    var first := if c == '~' then "~0" else [c];
    assert Replace([c] + s, '~', "~0") == first + Replace(s, '~', "~0");
    ReplaceConcat(first, Replace(s, '~', "~0"), '/', "~1");
    assert Replace("", '/', "~1") == "";
    if c == '~' {
      assert "~0"[1..] == "0" && "0"[1..] == "";
      assert Replace("0", '/', "~1") == "0" + Replace("", '/', "~1");
      assert Replace("~0", '/', "~1") == "~" + Replace("0", '/', "~1");
    } else {
      assert first[1..] == "";
    }
  }

  lemma {:induction false} TokenUnescapes(s: string)
    ensures Unescape(PointerToken(s)) == s
    ensures '/' !in PointerToken(s)
  {
    if s != "" {
      var c, rest := s[0], s[1..];
      assert s == [c] + rest;
      TokenFromFront(c, rest);
      TokenUnescapes(rest);
      var escaped := Escape(c) + PointerToken(rest);
      if c == '~' || c == '/' {
        assert escaped[2..] == PointerToken(rest);
      } else {
        assert escaped[1..] == PointerToken(rest);
      }
    }
  }

  lemma TokenInjective(a: string, b: string)
    requires PointerToken(a) == PointerToken(b)
    ensures a == b
  {
    TokenUnescapes(a);
    TokenUnescapes(b);
  }

  // ----- pointers

  function Render(tokens: Tokens): string {
    if tokens == [] then "" else "/" + PointerToken(tokens[0]) + Render(tokens[1..])
  }

  lemma {:induction false} SlashStarts(a: string, s: string, b: string, t: string)
    requires '/' !in a && '/' !in b
    requires s == "" || s[0] == '/'
    requires t == "" || t[0] == '/'
    requires a + s == b + t
    ensures a == b && s == t
  {
    var x, y := a + s, b + t;
    assert a != "" ==> a[0] in a && x[0] == a[0];
    assert b != "" ==> b[0] in b && y[0] == b[0];
    assert a == "" ==> x == s;
    assert b == "" ==> y == t;
    if a != "" && b != "" {
      assert x[1..] == a[1..] + s && y[1..] == b[1..] + t;
      SlashStarts(a[1..], s, b[1..], t);
      assert a == [a[0]] + a[1..] && b == [b[0]] + b[1..];
    }
  }

  lemma FirstSegments(u: string, s: string, v: string, t: string)
    requires '/' !in u && '/' !in v
    requires s == "" || s[0] == '/'
    requires t == "" || t[0] == '/'
    requires "/" + u + s == "/" + v + t
    ensures u == v && s == t
  {
    assert "/" + u + s == "/" + (u + s);
    assert "/" + v + t == "/" + (v + t);
    CancelPrefix("/", u + s, v + t);
    SlashStarts(u, s, v, t);
  }

  lemma RenderStarts(tokens: Tokens)
    ensures Render(tokens) == "" <==> tokens == []
    ensures tokens != [] ==> Render(tokens)[0] == '/'
  {
  }

  /** A pointer shows its first token and the rest. */
  lemma FirstTokens(x: string, xs: Tokens, y: string, ys: Tokens)
    requires "/" + PointerToken(x) + Render(xs) == "/" + PointerToken(y) + Render(ys)
    ensures x == y && Render(xs) == Render(ys)
  {
    TokenUnescapes(x);
    TokenUnescapes(y);
    RenderStarts(xs);
    RenderStarts(ys);
    FirstSegments(PointerToken(x), Render(xs), PointerToken(y), Render(ys));
    TokenInjective(x, y);
  }

  lemma {:induction false} RenderInjective(a: Tokens, b: Tokens)
    requires Render(a) == Render(b)
    ensures a == b
  {
    RenderStarts(a);
    RenderStarts(b);
    if a != [] {
      FirstTokens(a[0], a[1..], b[0], b[1..]);
      RenderInjective(a[1..], b[1..]);
      assert a == [a[0]] + a[1..] && b == [b[0]] + b[1..];
    }
  }

  // ----- sorted keys

  predicate IsMin(keys: set<string>, k: string) {
    k in keys && forall other | other in keys && other != k :: TextLess(k, other)
  }

  function MinKey(keys: set<string>): (k: string)
    requires keys != {}
    ensures IsMin(keys, k)
  {
    MinKeyExists(keys);
    MinKeyUnique(keys);
    var k :| k in keys && IsMin(keys, k);
    k
  }

  lemma MinKeyUnique(keys: set<string>)
    ensures forall a, b | IsMin(keys, a) && IsMin(keys, b) :: a == b
  {
    forall a, b | IsMin(keys, a) && IsMin(keys, b) ensures a == b {
      TextLessTrichotomy(a, b);
    }
  }

  lemma {:induction false} MinKeyExists(keys: set<string>)
    requires keys != {}
    ensures exists k :: IsMin(keys, k)
    decreases |keys|
  {
    var some :| some in keys;
    var rest := keys - {some};
    assert forall other | other in keys && other != some :: other in rest;
    if rest == {} {
      assert IsMin(keys, some);
    } else {
      MinKeyExists(rest);
      var k :| IsMin(rest, k);
      TextLessTrichotomy(k, some);
      if TextLess(some, k) {
        forall other | other in keys && other != some ensures TextLess(some, other) {
          if other != k {
            assert other in rest;
            TextLessTransitive(some, k, other);
          }
        }
        assert IsMin(keys, some);
      } else {
        assert forall other | other in keys && other != k :: other in rest || other == some;
        assert IsMin(keys, k);
      }
    }
  }

  /** `sorted(keys)`. */
  function SortedKeys(keys: set<string>): (s: seq<string>)
    ensures forall k :: k in s <==> k in keys
    ensures forall i, j | 0 <= i < j < |s| :: s[i] != s[j]
    decreases |keys|
  {
    if keys == {} then []
    else
      var k := MinKey(keys);
      [k] + SortedKeys(keys - {k})
  }

  lemma {:induction false} SortedKeysSorted(keys: set<string>)
    ensures StrictlySorted(SortedKeys(keys), TextLess)
    decreases |keys|
  {
    if keys != {} {
      SortedKeysSorted(keys - {MinKey(keys)});
    }
  }
}
