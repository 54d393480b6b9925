/** Evidence file names with placeholders, and the evidence a package still lacks
    (scripts/completion_ledger.py). */
module EvidenceTemplates {
  import opened Common

  /** A compiled template: literal text and placeholders. */
  datatype Piece = Text(text: string) | Hole

  // ----- finding placeholders

  /** The first ">" at or after i. */
  function NextClose(s: string, i: nat): (j: nat)
    requires i <= |s|
    ensures i <= j <= |s|
    ensures '>' !in s[i..j] && (j < |s| ==> s[j] == '>')
    decreases |s| - i
  {
    if i == |s| || s[i] == '>' then i else NextClose(s, i + 1)
  }

  /** A placeholder is "<", at least one character that is not ">", and ">". */
  function TokenEnd(s: string, i: nat): (end: nat)
    requires i < |s|
    ensures end == 0 || i + 2 < end <= |s|
  {
    if s[i] != '<' then 0
    else
      var j := NextClose(s, i + 1);
      if j == |s| || j == i + 1 then 0 else j + 1
  }

  /** The leftmost placeholder at or after i. */
  function NextToken(s: string, i: nat): (token: Option<(nat, nat)>)
    requires i <= |s|
    ensures token.Some? ==> i <= token.value.0 < token.value.1 <= |s|
    decreases |s| - i
  {
    if i == |s| then None
    else if TokenEnd(s, i) != 0 then Some((i, TokenEnd(s, i)))
    else NextToken(s, i + 1)
  }

  function PiecesFrom(s: string, cursor: nat): seq<Piece>
    requires cursor <= |s|
    decreases |s| - cursor
  {
    var token := NextToken(s, cursor);
    if token.None? then [Text(s[cursor..])]
    else [Text(s[cursor..token.value.0]), Hole] + PiecesFrom(s, token.value.1)
  }

  lemma Regroup(pieces: seq<Piece>, text: Piece, rest: seq<Piece>)
    ensures pieces + [text] + [Hole] + rest == pieces + ([text, Hole] + rest)
  {
  }

  method TemplatePieces(template: string) returns (pieces: seq<Piece>)
    ensures pieces == PiecesFrom(template, 0)
  {
    var cursor: nat := 0;
    pieces := [];
    var token := NextToken(template, cursor);
    while token.Some?
      invariant cursor <= |template| && token == NextToken(template, cursor)
      invariant pieces + PiecesFrom(template, cursor) == PiecesFrom(template, 0)
      decreases |template| - cursor
    {
      var text := Text(template[cursor..token.value.0]);
      Regroup(pieces, text, PiecesFrom(template, token.value.1));
      pieces := pieces + [text];
      pieces := pieces + [Hole];
      cursor := token.value.1;
      token := NextToken(template, cursor);
    }
    pieces := pieces + [Text(template[cursor..])];
  }

  // ----- matching

  /** A non-empty name component: no slash, no backslash. */
  predicate Component(s: string) {
    s != "" && '/' !in s && '\\' !in s
  }

  /** A full match of the compiled pattern: literal text as it is, a component for each placeholder. */
  predicate FullMatch(pieces: seq<Piece>, s: string) {
    if pieces == [] then s == ""
    else match pieces[0]
      case Text(text) => text <= s && FullMatch(pieces[1..], s[|text|..])
      case Hole => exists n | 1 <= n <= |s| :: Component(s[..n]) && FullMatch(pieces[1..], s[n..])
  }

  predicate TemplateMatches(template: string, filename: string) {
    FullMatch(PiecesFrom(template, 0), filename)
  }

  // ----- what a match means

  function Holes(pieces: seq<Piece>): nat {
    if pieces == [] then 0 else (if pieces[0].Hole? then 1 else 0) + Holes(pieces[1..])
  }

  /** The template with its placeholders filled in. */
  function Filled(pieces: seq<Piece>, values: seq<string>): string
    requires |values| == Holes(pieces)
  {
    if pieces == [] then ""
    else match pieces[0]
      case Text(text) => text + Filled(pieces[1..], values)
      case Hole => values[0] + Filled(pieces[1..], values[1..])
  }

  ghost predicate Fills(pieces: seq<Piece>, values: seq<string>, s: string) {
    |values| == Holes(pieces) && (forall i | 0 <= i < |values| :: Component(values[i])) && Filled(pieces, values) == s
  }

  lemma FillsAfterText(pieces: seq<Piece>, values: seq<string>, s: string)
    requires pieces != [] && pieces[0].Text? && pieces[0].text <= s
    requires Fills(pieces[1..], values, s[|pieces[0].text|..])
    ensures Fills(pieces, values, s)
  {
    assert s == pieces[0].text + s[|pieces[0].text|..];
  }

  lemma FillsAfterHole(pieces: seq<Piece>, n: nat, rest: seq<string>, s: string)
    requires pieces != [] && pieces[0].Hole? && 1 <= n <= |s| && Component(s[..n])
    requires Fills(pieces[1..], rest, s[n..])
    ensures Fills(pieces, [s[..n]] + rest, s)
  {
    var values := [s[..n]] + rest;
    assert values[1..] == rest && s == s[..n] + s[n..];
  }

  lemma {:induction false} MatchGivesValues(pieces: seq<Piece>, s: string) returns (values: seq<string>)
    requires FullMatch(pieces, s)
    ensures Fills(pieces, values, s)
  {
    if pieces == [] {
      values := [];
    } else if pieces[0].Text? {
      values := MatchGivesValues(pieces[1..], s[|pieces[0].text|..]);
      FillsAfterText(pieces, values, s);
    } else {
      var n :| 1 <= n <= |s| && Component(s[..n]) && FullMatch(pieces[1..], s[n..]);
      var rest := MatchGivesValues(pieces[1..], s[n..]);
      FillsAfterHole(pieces, n, rest, s);
      values := [s[..n]] + rest;
    }
  }

  lemma {:induction false} ValuesGiveMatch(pieces: seq<Piece>, values: seq<string>)
    requires |values| == Holes(pieces) && forall i | 0 <= i < |values| :: Component(values[i])
    ensures FullMatch(pieces, Filled(pieces, values))
  {
    if pieces != [] {
      var s := Filled(pieces, values);
      if pieces[0].Text? {
        var text := pieces[0].text;
        ValuesGiveMatch(pieces[1..], values);
        assert s[|text|..] == Filled(pieces[1..], values);
      } else {
        ValuesGiveMatch(pieces[1..], values[1..]);
        var n := |values[0]|;
        assert s[..n] == values[0] && s[n..] == Filled(pieces[1..], values[1..]);
      }
    }
  }

  /** Some components, one for each placeholder, give the file name. */
  ghost predicate Instance(template: string, filename: string) {
    exists values: seq<string> :: Fills(PiecesFrom(template, 0), values, filename)
  }

  /** A file name matches exactly when filling each placeholder with some non-empty component gives
      it. */
  lemma MatchesIffInstance(template: string, filename: string)
    ensures TemplateMatches(template, filename) <==> Instance(template, filename)
  {
    var pieces := PiecesFrom(template, 0);
    if TemplateMatches(template, filename) {
      var values := MatchGivesValues(pieces, filename);
    }
    if Instance(template, filename) {
      var values: seq<string> :| Fills(pieces, values, filename);
      ValuesGiveMatch(pieces, values);
    }
  }

  /** The placeholders as the template spells them. */
  function Tokens(s: string, cursor: nat): (values: seq<string>)
    requires cursor <= |s|
    ensures |values| == Holes(PiecesFrom(s, cursor))
    decreases |s| - cursor
  {
    var token := NextToken(s, cursor);
    if token.None? then
      assert PiecesFrom(s, cursor)[1..] == [];
      []
    else
      var rest := PiecesFrom(s, token.value.1);
      assert PiecesFrom(s, cursor)[1..] == [Hole] + rest && ([Hole] + rest)[1..] == rest;
      [s[token.value.0..token.value.1]] + Tokens(s, token.value.1)
  }

  lemma FilledPair(text: string, rest: seq<Piece>, value: string, values: seq<string>)
    requires |values| == Holes(rest)
    ensures Holes([Text(text), Hole] + rest) == |values| + 1
    ensures Filled([Text(text), Hole] + rest, [value] + values) == text + (value + Filled(rest, values))
  {
    var all := [Text(text), Hole] + rest;
    assert all[1..] == [Hole] + rest && ([Hole] + rest)[1..] == rest;
    assert ([value] + values)[1..] == values;
    assert Filled([Hole] + rest, [value] + values) == value + Filled(rest, values);
  }

  lemma FilledText(text: string)
    ensures Holes([Text(text)]) == 0 && Filled([Text(text)], []) == text
  {
    assert [Text(text)][1..] == [];
    assert Filled([], []) == "";
  }

  /** Compilation loses nothing: with its own placeholders filled in, a template reads as before. */
  lemma {:induction false} PiecesRebuild(s: string, cursor: nat)
    requires cursor <= |s|
    ensures Filled(PiecesFrom(s, cursor), Tokens(s, cursor)) == s[cursor..]
    decreases |s| - cursor
  {
    var token := NextToken(s, cursor);
    if token.None? {
      FilledText(s[cursor..]);
    } else {
      var (start, end) := token.value;
      PiecesRebuild(s, end);
      FilledPair(s[cursor..start], PiecesFrom(s, end), s[start..end], Tokens(s, end));
      CutTwice(s, cursor, start, end);
    }
  }

  lemma CutTwice(s: string, a: nat, b: nat, c: nat)
    requires a <= b <= c <= |s|
    ensures s[a..] == s[a..b] + (s[b..c] + s[c..])
  {
    assert s[b..] == s[b..c] + s[c..];
  }

  /** A name without placeholders matches itself only. */
  lemma PlainTemplate(template: string, filename: string)
    requires NextToken(template, 0).None?
    ensures TemplateMatches(template, filename) <==> filename == template
  {
    var pieces := PiecesFrom(template, 0);
    assert template[0..] == template && pieces == [Text(template)];
    FilledText(template);
    ValuesGiveMatch(pieces, []);
    if TemplateMatches(template, filename) {
      var values := MatchGivesValues(pieces, filename);
      assert values == [];
    }
  }

  // ----- missing evidence

  datatype Evidence = Evidence(filename: string, valid: bool)

  ghost predicate Covered(template: string, evidence: seq<Evidence>) {
    exists k | 0 <= k < |evidence| :: evidence[k].valid && TemplateMatches(template, evidence[k].filename)
  }

  function ValidNames(evidence: seq<Evidence>): seq<string> {
    if evidence == [] then []
    else
      var last := evidence[|evidence| - 1];
      ValidNames(evidence[..|evidence| - 1]) + if last.valid then [last.filename] else []
  }

  lemma {:induction false} ValidNamesCover(template: string, evidence: seq<Evidence>)
    ensures Covered(template, evidence)
            <==> exists k | 0 <= k < |ValidNames(evidence)| :: TemplateMatches(template, ValidNames(evidence)[k])
  {
    if evidence != [] {
      var init, last := evidence[..|evidence| - 1], evidence[|evidence| - 1];
      ValidNamesCover(template, init);
      var some, all := ValidNames(init), ValidNames(evidence);
      assert forall k | 0 <= k < |init| :: init[k] == evidence[k];
      if Covered(template, init) {
        var k :| 0 <= k < |init| && init[k].valid && TemplateMatches(template, init[k].filename);
        assert evidence[k] == init[k];
        var n :| 0 <= n < |some| && TemplateMatches(template, some[n]);
        assert all[n] == some[n];
      }
      if Covered(template, evidence) && !Covered(template, init) {
        var k :| 0 <= k < |evidence| && evidence[k].valid && TemplateMatches(template, evidence[k].filename);
        assert all[|some|] == last.filename;
      }
      if exists n | 0 <= n < |all| :: TemplateMatches(template, all[n]) {
        var n :| 0 <= n < |all| && TemplateMatches(template, all[n]);
        if n < |some| { assert some[n] == all[n]; } else { assert evidence[|init|] == last; }
      }
    }
  }

  method MissingRequiredEvidence(required: seq<string>, evidence: seq<Evidence>) returns (missing: seq<string>)
    ensures missing == [] <==> forall i | 0 <= i < |required| :: Covered(required[i], evidence)
    ensures forall template | template in missing :: template in required && !Covered(template, evidence)
  {
    var filenames := ValidNames(evidence);
    missing := [];
    for i := 0 to |required|
      invariant missing == [] <==> forall k | 0 <= k < i :: Covered(required[k], evidence)
      invariant forall template | template in missing :: template in required && !Covered(template, evidence)
    {
      ValidNamesCover(required[i], evidence);
      if !exists k | 0 <= k < |filenames| :: TemplateMatches(required[i], filenames[k]) {
        missing := missing + [required[i]];
      }
    }
  }
}
