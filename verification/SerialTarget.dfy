/** Merging the rows a serial enumeration lists for one device, and the slug used in artifact names
    (scripts/d1l_serial_target.py). */
module SerialTarget {
  import opened Common

  // ----- merging rows

  datatype Scalar = Text(text: string) | Number(number: int)

  /** What an attribute reads as: missing or empty, malformed, or a value. */
  datatype Attribute = Missing | Malformed | Present(value: Scalar)

  datatype Field = Vid | Pid | SerialNumber | Hwid | Location

  /** A listed row; `device` is None when it is no text or empty. */
  datatype Row = Row(
    device: Option<string>, vid: Attribute, pid: Attribute, serialNumber: Attribute, hwid: Attribute,
    location: Attribute)
  {
    function Get(f: Field): Attribute {
      match f
      case Vid => vid
      case Pid => pid
      case SerialNumber => serialNumber
      case Hwid => hwid
      case Location => location
    }
  }

  datatype Merged = Merged(
    vid: Option<Scalar>, pid: Option<Scalar>, serialNumber: Option<Scalar>, hwid: Option<Scalar>,
    location: Option<Scalar>)
  {
    function Get(f: Field): Option<Scalar> {
      match f
      case Vid => vid
      case Pid => pid
      case SerialNumber => serialNumber
      case Hwid => hwid
      case Location => location
    }

    function Set(f: Field, v: Option<Scalar>): Merged {
      match f
      case Vid => this.(vid := v)
      case Pid => this.(pid := v)
      case SerialNumber => this.(serialNumber := v)
      case Hwid => this.(hwid := v)
      case Location => this.(location := v)
    }
  }

  datatype MergeError = CannotCanonicalize | MalformedText | NotPresent | AmbiguousPaths | AmbiguousField(field: Field)

  datatype Result<T> = Ok(value: T) | Err(error: MergeError)

  /** Canonical path of a device, None when it cannot be resolved. */
  type Canonical = string -> Option<string>

  predicate Resolvable(row: Row, canonical: Canonical) {
    row.device.Some? ==> canonical(row.device.value).Some?
  }

  predicate IsTarget(row: Row, canonical: Canonical, target: string) {
    row.device.Some? && canonical(row.device.value) == Some(target)
  }

  /** `vid` and `pid` are read as they are; the texts must be well-formed. */
  predicate TextsOk(row: Row) {
    !row.serialNumber.Malformed? && !row.hwid.Malformed? && !row.location.Malformed?
  }

  /** The target's rows report the value for the field. */
  ghost predicate Reported(rows: seq<Row>, canonical: Canonical, target: string, f: Field, v: Scalar) {
    exists i | 0 <= i < |rows| :: IsTarget(rows[i], canonical, target) && rows[i].Get(f) == Present(v)
  }

  /** What a merge needs: nothing unresolvable, at least one row of the target, well-formed texts and
      at most one value for each field. */
  ghost predicate Mergeable(rows: seq<Row>, canonical: Canonical, target: string) {
    && (forall i | 0 <= i < |rows| :: Resolvable(rows[i], canonical))
    && (exists i | 0 <= i < |rows| :: IsTarget(rows[i], canonical, target))
    && (forall i | 0 <= i < |rows| && IsTarget(rows[i], canonical, target) :: TextsOk(rows[i]))
    && (forall f, v, w | Reported(rows, canonical, target, f, v) && Reported(rows, canonical, target, f, w) :: v == w)
  }

  ghost predicate MergesTo(rows: seq<Row>, canonical: Canonical, target: string, m: Merged) {
    forall f, v :: m.Get(f) == Some(v) <==> Reported(rows, canonical, target, f, v)
  }

  function ValuesOf(matches: seq<Row>, f: Field): set<Scalar> {
    set i | 0 <= i < |matches| && matches[i].Get(f).Present? :: matches[i].Get(f).value
  }

  /** The rows of the target, in listed order. */
  function Targets(rows: seq<Row>, canonical: Canonical, target: string): seq<Row> {
    if rows == [] then []
    else
      var last := rows[|rows| - 1];
      Targets(rows[..|rows| - 1], canonical, target) + if IsTarget(last, canonical, target) then [last] else []
  }

  lemma {:induction false} TargetsMember(rows: seq<Row>, canonical: Canonical, target: string, row: Row)
    ensures row in Targets(rows, canonical, target) <==> row in rows && IsTarget(row, canonical, target)
  {
    if rows != [] {
      TargetsMember(rows[..|rows| - 1], canonical, target, row);
      assert row in rows <==> row in rows[..|rows| - 1] || row == rows[|rows| - 1];
    }
  }

  lemma ReportedIff(rows: seq<Row>, canonical: Canonical, target: string, f: Field, v: Scalar)
    ensures Reported(rows, canonical, target, f, v) <==> v in ValuesOf(Targets(rows, canonical, target), f)
  {
    var matches := Targets(rows, canonical, target);
    if Reported(rows, canonical, target, f, v) {
      var i :| 0 <= i < |rows| && IsTarget(rows[i], canonical, target) && rows[i].Get(f) == Present(v);
      TargetsMember(rows, canonical, target, rows[i]);
      var k :| 0 <= k < |matches| && matches[k] == rows[i];
      assert matches[k].Get(f).value == v;
    }
    if v in ValuesOf(matches, f) {
      var k :| 0 <= k < |matches| && matches[k].Get(f).Present? && matches[k].Get(f).value == v;
      TargetsMember(rows, canonical, target, matches[k]);
      var i :| 0 <= i < |rows| && rows[i] == matches[k];
      assert rows[i].Get(f) == Present(v);
    }
  }

  ghost predicate RowsUsable(rows: seq<Row>, canonical: Canonical, target: string) {
    forall i | 0 <= i < |rows| ::
      Resolvable(rows[i], canonical) && (IsTarget(rows[i], canonical, target) ==> TextsOk(rows[i]))
  }

  /** The loop over the listed rows. */
  method CollectMatches(rows: seq<Row>, canonical: Canonical, target: string)
    returns (r: Result<(seq<Row>, set<string>)>)
    ensures r.Ok? <==> RowsUsable(rows, canonical, target)
    ensures r.Ok? ==> r.value.0 == Targets(rows, canonical, target) && r.value.1 <= {target}
    ensures r.Err? ==> r.error.CannotCanonicalize? || r.error.MalformedText?
  {
    var matches: seq<Row>, seen: set<string> := [], {};
    for k := 0 to |rows|
      invariant RowsUsable(rows[..k], canonical, target)
      invariant matches == Targets(rows[..k], canonical, target) && seen <= {target}
    {
      var row := rows[k];
      assert rows[..k + 1][..k] == rows[..k] && rows[..k + 1][k] == row;
      if row.device.None? {
        continue;
      }
      var path := canonical(row.device.value);
      if path.None? {
        return Err(CannotCanonicalize);
      }
      if path.value != target {
        continue;
      }
      if !TextsOk(row) {
        return Err(MalformedText);
      }
      matches, seen := matches + [row], seen + {path.value};
    }
    assert rows[..|rows|] == rows;
    r := Ok((matches, seen));
  }

  ghost predicate OneValueEach(matches: seq<Row>) {
    forall f, v, w | v in ValuesOf(matches, f) && w in ValuesOf(matches, f) :: v == w
  }

  /** The loop over the fields. */
  method MergeFields(matches: seq<Row>) returns (r: Result<Merged>)
    ensures r.Ok? <==> OneValueEach(matches)
    ensures r.Ok? ==> forall f, v :: r.value.Get(f) == Some(v) <==> v in ValuesOf(matches, f)
    ensures r.Err? ==> r.error.AmbiguousField?
  {
    var fields := [Vid, Pid, SerialNumber, Hwid, Location];
    var merged := Merged(None, None, None, None, None);
    for k := 0 to |fields|
      invariant forall i, v | 0 <= i < k :: merged.Get(fields[i]) == Some(v) <==> v in ValuesOf(matches, fields[i])
      invariant forall i | k <= i < |fields| :: merged.Get(fields[i]) == None
    {
      var values := ValuesOf(matches, fields[k]);
      if values != {} {
        var v :| v in values;
        if values != {v} {
          var w :| w in values && w != v;
          assert v in ValuesOf(matches, fields[k]) && w in ValuesOf(matches, fields[k]);
          return Err(AmbiguousField(fields[k]));
        }
        merged := merged.Set(fields[k], Some(v));
      }
    }
    forall f, v ensures merged.Get(f) == Some(v) <==> v in ValuesOf(matches, f) {
      var i := match f case Vid => 0 case Pid => 1 case SerialNumber => 2 case Hwid => 3 case Location => 4;
      assert fields[i] == f;
    }
    assert OneValueEach(matches) by {
      forall f, v, w | v in ValuesOf(matches, f) && w in ValuesOf(matches, f) ensures v == w {
        assert merged.Get(f) == Some(v) && merged.Get(f) == Some(w);
      }
    }
    r := Ok(merged);
  }

  /** The merge; the error for several canonical paths is never reported. */
  method MergeMatchingRows(rows: seq<Row>, canonical: Canonical, target: string) returns (r: Result<Merged>)
    ensures r.Ok? <==> Mergeable(rows, canonical, target)
    ensures r.Ok? ==> MergesTo(rows, canonical, target, r.value)
    ensures r != Err(AmbiguousPaths)
  {
    var collected := CollectMatches(rows, canonical, target);
    if collected.Err? {
      return Err(collected.error);
    }
    var (matches, seen) := collected.value;
    forall row { TargetsMember(rows, canonical, target, row); }
    forall f, v { ReportedIff(rows, canonical, target, f, v); }
    assert forall i | 0 <= i < |rows| && IsTarget(rows[i], canonical, target) :: rows[i] in matches;
    assert seen == {} || seen == {target};
    if matches == [] {
      return Err(NotPresent);
    }
    assert matches[0] in matches;
    if |seen| > 1 {
      return Err(AmbiguousPaths);
    }
    r := MergeFields(matches);
    assert OneValueEach(matches) <==>
           forall f, v, w | Reported(rows, canonical, target, f, v) && Reported(rows, canonical, target, f, w) ::
             v == w;
    if r.Ok? {
      forall f, v ensures r.value.Get(f) == Some(v) <==> Reported(rows, canonical, target, f, v) {
        ReportedIff(rows, canonical, target, f, v);
      }
    }
  }

  /** The result does not depend on the order or the repetition of the listed rows. */
  lemma OrderDoesNotMatter(a: seq<Row>, b: seq<Row>, canonical: Canonical, target: string)
    requires forall row :: row in a <==> row in b
    ensures Mergeable(a, canonical, target) <==> Mergeable(b, canonical, target)
    ensures forall m :: MergesTo(a, canonical, target, m) <==> MergesTo(b, canonical, target, m)
  {
    forall f, v ensures Reported(a, canonical, target, f, v) <==> Reported(b, canonical, target, f, v) {
      SameReported(a, b, canonical, target, f, v);
      SameReported(b, a, canonical, target, f, v);
    }
    SameMergeable(a, b, canonical, target);
    SameMergeable(b, a, canonical, target);
  }

  lemma SameReported(a: seq<Row>, b: seq<Row>, canonical: Canonical, target: string, f: Field, v: Scalar)
    requires forall row :: row in a <==> row in b
    ensures Reported(a, canonical, target, f, v) ==> Reported(b, canonical, target, f, v)
  {
    if Reported(a, canonical, target, f, v) {
      var i :| 0 <= i < |a| && IsTarget(a[i], canonical, target) && a[i].Get(f) == Present(v);
      assert a[i] in b;
      var k :| 0 <= k < |b| && b[k] == a[i];
    }
  }

  lemma SameMergeable(a: seq<Row>, b: seq<Row>, canonical: Canonical, target: string)
    requires forall row :: row in a <==> row in b
    requires forall f, v :: Reported(a, canonical, target, f, v) <==> Reported(b, canonical, target, f, v)
    ensures Mergeable(a, canonical, target) ==> Mergeable(b, canonical, target)
  {
    if Mergeable(a, canonical, target) {
      var i :| 0 <= i < |a| && IsTarget(a[i], canonical, target);
      assert a[i] in b;
      var k :| 0 <= k < |b| && b[k] == a[i];
      forall j | 0 <= j < |b|
        ensures Resolvable(b[j], canonical) && (IsTarget(b[j], canonical, target) ==> TextsOk(b[j]))
      {
        assert b[j] in a;
        var n :| 0 <= n < |a| && a[n] == b[j];
      }
    }
  }

  /** Two merges of one target agree. */
  lemma MergeUnique(rows: seq<Row>, canonical: Canonical, target: string, m: Merged, n: Merged)
    requires MergesTo(rows, canonical, target, m) && MergesTo(rows, canonical, target, n)
    ensures m == n
  {
    forall f: Field ensures m.Get(f) == n.Get(f) {
      assert m.Get(f).Some? ==> m.Get(f) == Some(m.Get(f).value);
      assert n.Get(f).Some? ==> n.Get(f) == Some(n.Get(f).value);
    }
    assert m.Get(Vid) == n.Get(Vid) && m.Get(Pid) == n.Get(Pid) && m.Get(SerialNumber) == n.Get(SerialNumber)
      && m.Get(Hwid) == n.Get(Hwid) && m.Get(Location) == n.Get(Location);
  }

  // ----- slugs

  predicate SlugChar(c: char) {
    'a' <= c <= 'z' || '0' <= c <= '9'
  }

  /** Runs of other characters become one dash. */
  function Collapse(s: string): string {
    if s == "" then ""
    else if SlugChar(s[0]) then [s[0]] + Collapse(s[1..])
    else if |s| > 1 && !SlugChar(s[1]) then Collapse(s[1..])
    else "-" + Collapse(s[1..])
  }

  function StripLeft(s: string): string {
    if s != "" && s[0] == '-' then StripLeft(s[1..]) else s
  }

  function StripRight(s: string): string {
    if s != "" && s[|s| - 1] == '-' then StripRight(s[..|s| - 1]) else s
  }

  /** The first twelve hexadecimal digits of a digest of the text, and the text folded to lower-case
      ASCII. */
  datatype TextTools = TextTools(digest12: string -> string, fold: string -> string)

  ghost predicate Usable(tools: TextTools) {
    && (forall s :: |tools.digest12(s)| == 12 && forall i | 0 <= i < 12 :: SlugChar(tools.digest12(s)[i]))
    && (forall s | IsSlug(s) :: tools.fold(s) == s)
  }

  /** Letters, digits and single dashes, none at either end. */
  predicate IsSlug(s: string) {
    && s != "" && SlugChar(s[0]) && SlugChar(s[|s| - 1])
    && (forall i | 0 <= i < |s| :: SlugChar(s[i]) || s[i] == '-')
    && (forall i | 0 <= i < |s| - 1 :: s[i] == '-' ==> SlugChar(s[i + 1]))
  }

  predicate Dashed(s: string) {
    && (forall i | 0 <= i < |s| :: SlugChar(s[i]) || s[i] == '-')
    && (forall i | 0 <= i < |s| - 1 :: s[i] == '-' ==> SlugChar(s[i + 1]))
  }

  lemma {:induction false} CollapseDashed(s: string)
    ensures Dashed(Collapse(s))
    ensures s != "" ==> Collapse(s) != "" && (Collapse(s)[0] == '-' <==> !SlugChar(s[0]))
  {
    if s != "" { CollapseDashed(s[1..]); }
  }

  lemma {:induction false} StripLeftDashed(s: string)
    requires Dashed(s)
    ensures Dashed(StripLeft(s)) && (StripLeft(s) != "" ==> SlugChar(StripLeft(s)[0]))
  {
    if s != "" && s[0] == '-' {
      assert Dashed(s[1..]) by {
        assert forall i | 0 <= i < |s| - 1 :: s[1..][i] == s[i + 1];
      }
      StripLeftDashed(s[1..]);
    }
  }

  lemma {:induction false} StripRightDashed(s: string)
    requires Dashed(s)
    ensures Dashed(StripRight(s)) && StripRight(s) <= s
    ensures StripRight(s) != "" ==> SlugChar(StripRight(s)[|StripRight(s)| - 1])
    ensures s != "" && SlugChar(s[0]) ==> StripRight(s) != ""
  {
    if s != "" && s[|s| - 1] == '-' { StripRightDashed(s[..|s| - 1]); }
  }

  predicate SlugGuard(s: string) {
    && s != "" && s != "." && s != ".." && '/' !in s && '\\' !in s
    && SlugChar(s[0]) && forall i | 0 <= i < |s| :: SlugChar(s[i]) || s[i] == '-'
  }

  function Shortened(slug: string, digest: string): string
    requires |slug| > 80
  {
    StripRight(slug[..67]) + "-" + digest
  }

  lemma ShortenedIsSlug(slug: string, digest: string)
    requires IsSlug(slug) && |slug| > 80
    requires |digest| == 12 && forall i | 0 <= i < 12 :: SlugChar(digest[i])
    ensures IsSlug(Shortened(slug, digest)) && |Shortened(slug, digest)| <= 80
  {
    var cut := slug[..67];
    StripRightDashed(cut);
    var head := StripRight(cut);
    var r := head + "-" + digest;
    assert |head| <= 67 && head[0] == slug[0];
    assert forall i | |head| < i < |r| :: r[i] == digest[i - |head| - 1];
    assert forall i | 0 <= i < |head| :: r[i] == head[i];
    forall i | 0 <= i < |r| - 1 && r[i] == '-' ensures SlugChar(r[i + 1]) {
      if i == |head| { assert r[i + 1] == digest[0]; }
    }
    assert r[|r| - 1] == digest[11];
  }

  lemma GuardHolds(slug: string)
    requires IsSlug(slug)
    ensures SlugGuard(slug)
  {
  }

  /** The slug of a non-empty text; None is the exception. Its last guard never fails. */
  method SafeSlug(value: string, tools: TextTools) returns (r: Option<string>)
    requires Usable(tools)
    ensures r.Some? <==> value != ""
    ensures r.Some? ==> IsSlug(r.value) && |r.value| <= 80
    ensures IsSlug(value) && |value| <= 80 ==> r == Some(value)
  {
    if value == "" {
      return None;
    }
    var collapsed := Collapse(tools.fold(value));
    var slug := StripRight(StripLeft(collapsed));
    CollapseDashed(tools.fold(value));
    StripLeftDashed(collapsed);
    StripRightDashed(StripLeft(collapsed));
    if IsSlug(value) { SlugUnchanged(value); }
    if slug == "" {
      slug := "target-" + tools.digest12(value);
      TargetIsSlug(tools.digest12(value));
    }
    if |slug| > 80 {
      ShortenedIsSlug(slug, tools.digest12(value));
      slug := StripRight(slug[..67]) + "-" + tools.digest12(value);
    }
    GuardHolds(slug);
    if !SlugGuard(slug) {
      return None;
    }
    r := Some(slug);
  }

  lemma TargetIsSlug(digest: string)
    requires |digest| == 12 && forall i | 0 <= i < 12 :: SlugChar(digest[i])
    ensures IsSlug("target-" + digest)
  {
    var r := "target-" + digest;
    assert forall i | 7 <= i < |r| :: r[i] == digest[i - 7];
    forall i | 0 <= i < |r| - 1 && r[i] == '-' ensures SlugChar(r[i + 1]) {
      if i == 6 { assert r[7] == digest[0]; }
    }
    assert r[|r| - 1] == digest[11];
  }

  lemma {:induction false} CollapseKeeps(s: string)
    requires Dashed(s)
    ensures Collapse(s) == s
  {
    if s != "" {
      assert Dashed(s[1..]) by {
        assert forall i | 0 <= i < |s| - 1 :: s[1..][i] == s[i + 1];
      }
      CollapseKeeps(s[1..]);
      assert s == [s[0]] + s[1..];
    }
  }

  lemma SlugUnchanged(s: string)
    requires IsSlug(s)
    ensures StripRight(StripLeft(Collapse(s))) == s
  {
    CollapseKeeps(s);
  }
}
