/** The permitted manifest differences, the independent "normalise, then compare" check, and how the
    two overlap (scripts/compare_release_reproducibility_d1l.py). */
module ManifestWhitelist {
  import opened Common
  import opened Json
  import opened Text
  import opened JsonPointer
  import opened JsonDiff

  /** Fields to replace with fixed text in the object `base` leads to. */
  datatype Group = Group(base: Tokens, texts: map<string, string>)

  function ManifestGroup(): Group {
    Group([], map[
      "created_at" := "<permitted-created-at>",
      "source_build_dir" := "<permitted-source-build-dir>",
      "actions_run" := "<permitted-run-id>",
      "actions_run_attempt" := "<permitted-run-attempt>"])
  }

  function WorkflowGroup(): Group {
    Group(["workflow"], map[
      "run_id" := "<permitted-run-id>",
      "run_attempt" := "<permitted-run-attempt>",
      "run_url" := "<permitted-run-url>"])
  }

  function ConformanceGroup(): Group {
    Group(["meshcore_conformance", "run_receipt"], map[
      "generated_at" := "<permitted-conformance-generated-at>",
      "expires_at" := "<permitted-conformance-expires-at>",
      "sha256" := "<permitted-conformance-run-receipt-sha256>",
      "size" := "<permitted-conformance-run-receipt-size>"])
  }

  function SignedAdvertGroup(): Group {
    Group(["meshcore_signed_advert_runtime", "run_receipt"], map[
      "generated_at" := "<permitted-signed-advert-generated-at>",
      "expires_at" := "<permitted-signed-advert-expires-at>",
      "sha256" := "<permitted-signed-advert-run-receipt-sha256>",
      "size" := "<permitted-signed-advert-run-receipt-size>"])
  }

  function PermittedGroups(): seq<Group> {
    [ManifestGroup(), WorkflowGroup(), ConformanceGroup(), SignedAdvertGroup()]
  }

  // ----- overwriting fields of an object reached through keys

  function Texts(texts: map<string, string>): Dict {
    map k | k in texts :: Str(texts[k])
  }

  /** The value with the fields named by `texts` replaced in the object `base` leads to; unchanged
      when `base` leads to no object. */
  function Overwrite(v: Value, base: Tokens, texts: map<string, string>): Value
    decreases base
  {
    if !v.Obj? then v
    else if base == [] then Obj(v.fields + Texts(texts))
    else if base[0] in v.fields then Obj(v.fields[base[0] := Overwrite(v.fields[base[0]], base[1..], texts)])
    else v
  }

  /** A place at or below one of the replaced fields. */
  predicate Within(t: Tokens, base: Tokens, texts: map<string, string>) {
    |t| > |base| && base <= t && t[|base|] in texts
  }

  /** A key that is no array index. */
  predicate NotIndex(key: string) {
    key != "" && !IsDigit(key[0])
  }

  predicate Named(base: Tokens, texts: map<string, string>) {
    (forall i | 0 <= i < |base| :: NotIndex(base[i])) && (forall k | k in texts :: NotIndex(k))
  }

  lemma NeverAnIndex(key: string, n: nat)
    requires NotIndex(key)
    ensures !IsIndex(key, n)
  {
    var digits := Decimal(NumberIn(key));
    assert digits[0] in digits;
    assert key != digits;
  }

  /** Overwriting both documents removes exactly the differences at and below the replaced fields. */
  lemma {:induction false} OverwriteDiffers(a: Value, b: Value, base: Tokens, texts: map<string, string>, t: Tokens)
    requires Named(base, texts)
    ensures Differs(Overwrite(a, base, texts), Overwrite(b, base, texts), t)
            <==> Differs(a, b, t) && !Within(t, base, texts)
    decreases base
  {
    if a.Arr? && b.Arr? {
      if Within(t, base, texts) {
        NeverAnIndex(t[0], |a.items|);
      }
    } else if a.Obj? && b.Obj? && t != [] {
      if base == [] {
        if t[0] in texts {
          SameHasNoDifference(Str(texts[t[0]]), t[1..]);
        }
      } else if base[0] == t[0] {
        assert Within(t, base, texts) <==> Within(t[1..], base[1..], texts) by {
          assert base == [base[0]] + base[1..] && t == [t[0]] + t[1..];
        }
        if t[0] in a.fields && t[0] in b.fields {
          OverwriteDiffers(a.fields[t[0]], b.fields[t[0]], base[1..], texts, t[1..]);
        }
      } else {
        assert !(base <= t);
      }
    }
  }

  /** All groups, one after the other. */
  function OverwriteAll(v: Value, groups: seq<Group>): Value {
    if groups == [] then v
    else
      var last := groups[|groups| - 1];
      Overwrite(OverwriteAll(v, groups[..|groups| - 1]), last.base, last.texts)
  }

  predicate WithinAny(t: Tokens, groups: seq<Group>) {
    exists i | 0 <= i < |groups| :: Within(t, groups[i].base, groups[i].texts)
  }

  predicate AllNamed(groups: seq<Group>) {
    forall i | 0 <= i < |groups| :: Named(groups[i].base, groups[i].texts)
  }

  /** The differences that remain after all replacements are those outside the replaced places. */
  lemma {:induction false} OverwriteAllDiffers(a: Value, b: Value, groups: seq<Group>, t: Tokens)
    requires AllNamed(groups)
    ensures Differs(OverwriteAll(a, groups), OverwriteAll(b, groups), t) <==> Differs(a, b, t) && !WithinAny(t, groups)
  {
    if groups != [] {
      var init, last := groups[..|groups| - 1], groups[|groups| - 1];
      OverwriteAllDiffers(a, b, init, t);
      var x, y := OverwriteAll(a, init), OverwriteAll(b, init);
      OverwriteDiffers(x, y, last.base, last.texts, t);
      assert OverwriteAll(a, groups) == Overwrite(x, last.base, last.texts);
      assert OverwriteAll(b, groups) == Overwrite(y, last.base, last.texts);
      WithinLast(t, groups);
    }
  }

  lemma WithinLast(t: Tokens, groups: seq<Group>)
    requires groups != []
    ensures var last := groups[|groups| - 1];
            WithinAny(t, groups) <==> WithinAny(t, groups[..|groups| - 1]) || Within(t, last.base, last.texts)
  {
    var init, last := groups[..|groups| - 1], groups[|groups| - 1];
    if WithinAny(t, groups) {
      var i :| 0 <= i < |groups| && Within(t, groups[i].base, groups[i].texts);
      assert i < |init| ==> init[i] == groups[i];
    }
    if WithinAny(t, init) {
      var i :| 0 <= i < |init| && Within(t, init[i].base, init[i].texts);
      assert init[i] == groups[i];
    }
  }

  // ----- `normalize_manifest`

  /** The receipt under `key`, when both levels are objects. */
  method OverwriteReceipt(manifest: Dict, key: string, name: string, texts: map<string, string>) returns (r: Dict)
    ensures Obj(r) == Overwrite(Obj(manifest), [key, name], texts)
  {
    r := manifest;
    assert [key, name][1..] == [name] && [name][1..] == [];
    var outer := Get(manifest, key);
    if outer.Obj? {
      var receipt := Get(outer.fields, name);
      if receipt.Obj? {
        var fields := receipt.fields + Texts(texts);
        r := manifest[key := Obj(outer.fields[name := Obj(fields)])];
        assert Overwrite(receipt, [], texts) == Obj(fields);
        assert Overwrite(outer, [name], texts) == Obj(outer.fields[name := Obj(fields)]);
      } else {
        assert name in outer.fields ==> outer.fields[name := receipt] == outer.fields;
        assert Overwrite(outer, [name], texts) == outer;
        assert manifest[key := outer] == manifest;
      }
    } else if key in manifest {
      assert manifest[key := outer] == manifest;
    }
  }

  method OverwriteTop(manifest: Dict) returns (r: Dict)
    ensures Obj(r) == Overwrite(Obj(manifest), ManifestGroup().base, ManifestGroup().texts)
    ensures Get(r, "workflow") == Get(manifest, "workflow")
  {
    r := manifest;
    r := r["created_at" := Str("<permitted-created-at>")];
    r := r["source_build_dir" := Str("<permitted-source-build-dir>")];
    r := r["actions_run" := Str("<permitted-run-id>")];
    r := r["actions_run_attempt" := Str("<permitted-run-attempt>")];
    assert r == manifest + Texts(ManifestGroup().texts);
  }

  /** The fields of the object under `key`; None is the exception when it is missing or no object. */
  method OverwriteUnder(manifest: Dict, key: string, texts: map<string, string>) returns (r: Option<Dict>)
    ensures r.Some? <==> Get(manifest, key).Obj?
    ensures r.Some? ==> Obj(r.value) == Overwrite(Obj(manifest), [key], texts)
  {
    if !Get(manifest, key).Obj? {
      return None;
    }
    assert [key][1..] == [];
    r := Some(manifest[key := Obj(manifest[key].fields + Texts(texts))]);
  }

  lemma FourGroups(v: Value, a: Group, b: Group, c: Group, d: Group)
    ensures OverwriteAll(v, [a, b, c, d])
         == Overwrite(
              Overwrite(Overwrite(Overwrite(v, a.base, a.texts), b.base, b.texts), c.base, c.texts), d.base, d.texts)
  {
    assert [a, b, c, d][..3] == [a, b, c] && [a, b, c][..2] == [a, b] && [a, b][..1] == [a] && [a][..0] == [];
    assert OverwriteAll(v, [a]) == Overwrite(v, a.base, a.texts);
    assert OverwriteAll(v, [a, b]) == Overwrite(OverwriteAll(v, [a]), b.base, b.texts);
    assert OverwriteAll(v, [a, b, c]) == Overwrite(OverwriteAll(v, [a, b]), c.base, c.texts);
  }

  /** None is the exception on a manifest whose `workflow` is missing or no object. */
  method NormalizeManifest(manifest: Dict) returns (r: Option<Dict>)
    ensures r.Some? <==> Get(manifest, "workflow").Obj?
    ensures r.Some? ==> Obj(r.value) == OverwriteAll(Obj(manifest), PermittedGroups())
  {
    var top := OverwriteTop(manifest);
    var w := WorkflowGroup();
    var run := OverwriteUnder(top, w.base[0], w.texts);
    if run.None? {
      return None;
    }
    var c, s := ConformanceGroup(), SignedAdvertGroup();
    var conformance := OverwriteReceipt(run.value, c.base[0], c.base[1], c.texts);
    var normalized := OverwriteReceipt(conformance, s.base[0], s.base[1], s.texts);
    FourGroups(Obj(manifest), ManifestGroup(), w, c, s);
    r := Some(normalized);
  }

  // ----- which differences are permitted

  /** The permitted places: each field of each group. */
  predicate Permitted(t: Tokens, groups: seq<Group>) {
    exists i | 0 <= i < |groups| :: |t| == |groups[i].base| + 1 && Within(t, groups[i].base, groups[i].texts)
  }

  function PermittedPlaces(): seq<Tokens> {
    [ ["actions_run"], ["actions_run_attempt"], ["created_at"],
      ["meshcore_conformance", "run_receipt", "expires_at"],
      ["meshcore_conformance", "run_receipt", "generated_at"],
      ["meshcore_conformance", "run_receipt", "sha256"],
      ["meshcore_conformance", "run_receipt", "size"],
      ["meshcore_signed_advert_runtime", "run_receipt", "expires_at"],
      ["meshcore_signed_advert_runtime", "run_receipt", "generated_at"],
      ["meshcore_signed_advert_runtime", "run_receipt", "sha256"],
      ["meshcore_signed_advert_runtime", "run_receipt", "size"],
      ["source_build_dir"],
      ["workflow", "run_attempt"], ["workflow", "run_id"], ["workflow", "run_url"] ]
  }

  /** A path written out, as the whitelist spells it: "/workflow/run_id". */
  function Spelled(names: Tokens): string {
    if names == [] then "" else "/" + names[0] + Spelled(names[1..])
  }

  function PermittedPaths(places: seq<Tokens>): seq<string> {
    seq(|places|, i requires 0 <= i < |places| => Spelled(places[i]))
  }

  predicate NoEscapes(s: string) {
    '~' !in s && '/' !in s
  }

  lemma {:induction false} PlainToken(s: string)
    requires NoEscapes(s)
    ensures PointerToken(s) == s
  {
    if s != "" {
      PlainToken(s[1..]);
      TokenFromFront(s[0], s[1..]);
      assert s == [s[0]] + s[1..];
    }
  }

  lemma {:induction false} SpelledRenders(names: Tokens)
    requires forall i | 0 <= i < |names| :: NoEscapes(names[i])
    ensures Render(names) == Spelled(names)
  {
    if names != [] {
      PlainToken(names[0]);
      SpelledRenders(names[1..]);
    }
  }

  lemma TopNames()
    ensures NoEscapes("actions_run") && NoEscapes("actions_run_attempt")
    ensures NoEscapes("created_at") && NoEscapes("source_build_dir")
  {
  }

  lemma WorkflowNames()
    ensures NoEscapes("workflow")
    ensures NoEscapes("run_id") && NoEscapes("run_attempt") && NoEscapes("run_url")
  {
  }

  lemma HolderNames()
    ensures NoEscapes("meshcore_conformance") && NoEscapes("meshcore_signed_advert_runtime")
  {
  }

  lemma ReceiptNames()
    ensures NoEscapes("run_receipt")
    ensures NoEscapes("expires_at") && NoEscapes("generated_at") && NoEscapes("sha256") && NoEscapes("size")
  {
  }

  ghost predicate AllPlain(places: seq<Tokens>) {
    forall p, i | 0 <= p < |places| && 0 <= i < |places[p]| :: NoEscapes(places[p][i])
  }

  lemma PlacesPlain()
    ensures AllPlain(PermittedPlaces())
  {
    TopNames();
    WorkflowNames();
    HolderNames();
    ReceiptNames();
  }

  /** A pointer is on the whitelist exactly when it leads to a permitted place: no key containing
      "/" or "~" can pose as one. */
  lemma OnWhitelistIff(t: Tokens, places: seq<Tokens>)
    requires AllPlain(places)
    ensures Render(t) in PermittedPaths(places) <==> t in places
  {
    var paths := PermittedPaths(places);
    forall i | 0 <= i < |places| ensures Render(places[i]) == paths[i] { SpelledRenders(places[i]); }
    if Render(t) in paths {
      var i :| 0 <= i < |paths| && paths[i] == Render(t);
      RenderInjective(t, places[i]);
    }
    if t in places {
      var i :| 0 <= i < |places| && places[i] == t;
      assert paths[i] == Render(t);
    }
  }

  // ----- the places, by group

  /** `t` is the field of a group. */
  lemma FieldOf(t: Tokens, g: Group)
    requires |t| == |g.base| + 1
    ensures Within(t, g.base, g.texts) <==> exists k | k in g.texts :: t == g.base + [k]
  {
    assert t == t[..|g.base|] + [t[|g.base|]];
    if exists k | k in g.texts :: t == g.base + [k] {
      var k :| k in g.texts && t == g.base + [k];
      assert t[..|g.base|] == g.base && t[|g.base|] == k;
    }
  }

  lemma TopGroupNamed()
    ensures Named(ManifestGroup().base, ManifestGroup().texts)
  {
  }

  lemma WorkflowGroupNamed()
    ensures Named(WorkflowGroup().base, WorkflowGroup().texts)
  {
  }

  lemma ReceiptGroupsNamed()
    ensures Named(ConformanceGroup().base, ConformanceGroup().texts)
    ensures Named(SignedAdvertGroup().base, SignedAdvertGroup().texts)
  {
  }

  lemma GroupsNamed()
    ensures AllNamed(PermittedGroups())
  {
    TopGroupNamed();
    WorkflowGroupNamed();
    ReceiptGroupsNamed();
  }

  /** The places are the fields of the groups: the whitelist and the normalisation name the same
      fields. */
  lemma PlaceIsField(i: nat)
    requires i < |PermittedPlaces()|
    ensures Permitted(PermittedPlaces()[i], PermittedGroups())
  {
    var groups := PermittedGroups();
    var t := PermittedPlaces()[i];
    var g := if |t| == 1 then 0 else if |t| == 2 then 1 else if i < 7 then 2 else 3;
    assert |t| == |groups[g].base| + 1;
    assert Within(t, groups[g].base, groups[g].texts);
  }

  lemma FieldIsPlace(g: nat, k: string)
    requires g < 4 && k in PermittedGroups()[g].texts
    ensures PermittedGroups()[g].base + [k] in PermittedPlaces()
  {
    var i :=
      match g
      case 0 =>
        if k == "actions_run" then 0 else if k == "actions_run_attempt" then 1
        else if k == "created_at" then 2 else 11
      case 1 => if k == "run_attempt" then 12 else if k == "run_id" then 13 else 14
      case _ =>
        (if g == 2 then 3 else 7)
        + if k == "expires_at" then 0 else if k == "generated_at" then 1 else if k == "sha256" then 2 else 3;
    assert PermittedGroups()[g].base + [k] == PermittedPlaces()[i];
  }

  lemma PlacesAreFields(t: Tokens)
    ensures t in PermittedPlaces() <==> Permitted(t, PermittedGroups())
  {
    var places, groups := PermittedPlaces(), PermittedGroups();
    if t in places {
      var i :| 0 <= i < |places| && places[i] == t;
      PlaceIsField(i);
    }
    if Permitted(t, groups) {
      var g :| 0 <= g < |groups| && |t| == |groups[g].base| + 1 && Within(t, groups[g].base, groups[g].texts);
      FieldOf(t, groups[g]);
      FieldIsPlace(g, t[|groups[g].base|]);
    }
  }
}
