/** How the whitelist of permitted manifest differences and the comparison of normalised manifests
    overlap (scripts/compare_release_reproducibility_d1l.py). */
module ManifestComparison {
  import opened Json
  import opened JsonPointer
  import opened JsonDiff
  import opened ManifestWhitelist

  // ----- differences below a place

  /** The difference between the values at a place, when both documents have one there. */
  lemma {:induction false} DiffersBelow(a: Value, b: Value, place: Tokens, t: Tokens)
    requires forall i | 0 <= i < |place| :: NotIndex(place[i])
    requires t != []
    ensures var x, y := Resolve(a, place), Resolve(b, place);
            Differs(a, b, place + t) <==> x.Found? && y.Found? && Differs(x.value, y.value, t)
    decreases place
  {
    var whole := place + t;
    if place == [] {
      assert whole == t;
    } else {
      var key := place[0];
      assert whole[0] == key && whole[1..] == place[1..] + t && whole != [key];
      if a.Arr? { NeverAnIndex(key, |a.items|); }
      if b.Arr? { NeverAnIndex(key, |b.items|); }
      if a.Obj? && b.Obj? && key in a.fields && key in b.fields {
        DiffersBelow(a.fields[key], b.fields[key], place[1..], t);
      }
    }
  }

  /** Two values without a difference strictly below them: the same value, or not two objects and
      not two arrays of one length. */
  predicate FlatDifference(x: Value, y: Value) {
    (x == y && !HasNaN(x)) || !((x.Obj? && y.Obj?) || (x.Arr? && y.Arr? && |x.items| == |y.items|))
  }

  predicate FlatAt(a: Value, b: Value, place: Tokens) {
    var x, y := Resolve(a, place), Resolve(b, place);
    x.Found? && y.Found? ==> FlatDifference(x.value, y.value)
  }

  ghost predicate NoneBelow(x: Value, y: Value) {
    forall t: Tokens | t != [] :: !Differs(x, y, t)
  }

  lemma FlatHasNoneBelow(x: Value, y: Value)
    ensures FlatDifference(x, y) <==> NoneBelow(x, y)
  {
    if x == y && !HasNaN(x) {
      forall t: Tokens ensures !Differs(x, y, t) { SameHasNoDifference(x, t); }
    } else if !FlatDifference(x, y) {
      if NoneBelow(x, y) {
        assert !Differs(x, y, []);
        assert forall t: Tokens :: !Differs(x, y, t);
        NoDifferenceSame(x, y);
      }
    } else {
      forall t: Tokens | t != [] ensures !Differs(x, y, t) { }
    }
  }

  // ----- the whitelist

  ghost predicate OnlyPermitted(a: Value, b: Value, places: seq<Tokens>) {
    forall path | path in DifferencePaths(a, b, "") :: path in PermittedPaths(places)
  }

  /** In terms of places: every difference is at a permitted one. */
  lemma OnlyPermittedIff(a: Value, b: Value, places: seq<Tokens>)
    requires a.Obj? && b.Obj? && AllPlain(places)
    ensures OnlyPermitted(a, b, places) <==> forall t: Tokens | Differs(a, b, t) :: t in places
  {
    if OnlyPermitted(a, b, places) {
      forall t: Tokens | Differs(a, b, t) ensures t in places {
        PathReported(a, b, t);
        OnWhitelistIff(t, places);
      }
    }
    if forall t: Tokens | Differs(a, b, t) :: t in places {
      forall path | path in DifferencePaths(a, b, "") ensures path in PermittedPaths(places) {
        var t := PathIsDifference(a, b, path);
        OnWhitelistIff(t, places);
      }
    }
  }

  /** A list of places that is the fields of the groups, none of them inside another. */
  ghost predicate PlacesOf(places: seq<Tokens>, groups: seq<Group>) {
    && (forall t: Tokens :: t in places <==> Permitted(t, groups))
    && (forall p, q | p in places && q in places && p <= q :: p == q)
  }

  lemma PlaceNotIndex(t: Tokens, groups: seq<Group>)
    requires AllNamed(groups) && Permitted(t, groups)
    ensures forall i | 0 <= i < |t| :: NotIndex(t[i])
  {
    var g :| 0 <= g < |groups| && |t| == |groups[g].base| + 1 && Within(t, groups[g].base, groups[g].texts);
    forall i | 0 <= i < |t| ensures NotIndex(t[i]) {
      if i < |groups[g].base| { assert t[i] == groups[g].base[i]; }
    }
  }

  /** Only permitted differences: nothing differs after normalisation, nor inside a permitted place. */
  lemma OnlyPermittedGives(a: Value, b: Value, places: seq<Tokens>, groups: seq<Group>)
    requires AllNamed(groups) && PlacesOf(places, groups)
    requires forall t: Tokens | Differs(a, b, t) :: t in places
    ensures OverwriteAll(a, groups) == OverwriteAll(b, groups) && !HasNaN(OverwriteAll(a, groups))
    ensures forall place | place in places :: FlatAt(a, b, place)
  {
    forall t: Tokens ensures !Differs(OverwriteAll(a, groups), OverwriteAll(b, groups), t) {
      OverwriteAllDiffers(a, b, groups, t);
      if Differs(a, b, t) {
        var g :| 0 <= g < |groups| && |t| == |groups[g].base| + 1 && Within(t, groups[g].base, groups[g].texts);
        assert WithinAny(t, groups);
      }
    }
    NoDifferenceSame(OverwriteAll(a, groups), OverwriteAll(b, groups));
    forall place | place in places ensures FlatAt(a, b, place) {
      var x, y := Resolve(a, place), Resolve(b, place);
      PlaceNotIndex(place, groups);
      if x.Found? && y.Found? {
        forall t: Tokens | t != [] ensures !Differs(x.value, y.value, t) {
          DiffersBelow(a, b, place, t);
          assert place <= place + t && place != place + t;
          assert Differs(a, b, place + t) ==> place + t in places;
        }
        FlatHasNoneBelow(x.value, y.value);
      }
    }
  }

  lemma PlaceAbove(t: Tokens, places: seq<Tokens>, groups: seq<Group>) returns (place: Tokens, rest: Tokens)
    requires PlacesOf(places, groups) && WithinAny(t, groups)
    ensures place in places && t == place + rest
  {
    var g :| 0 <= g < |groups| && Within(t, groups[g].base, groups[g].texts);
    var n := |groups[g].base| + 1;
    place, rest := t[..n], t[n..];
    assert groups[g].base <= place;
    assert Within(place, groups[g].base, groups[g].texts);
    assert Permitted(place, groups);
  }

  lemma OnlyPermittedFrom(a: Value, b: Value, places: seq<Tokens>, groups: seq<Group>, t: Tokens)
    requires AllNamed(groups) && PlacesOf(places, groups)
    requires OverwriteAll(a, groups) == OverwriteAll(b, groups) && !HasNaN(OverwriteAll(a, groups))
    requires forall place | place in places :: FlatAt(a, b, place)
    requires Differs(a, b, t)
    ensures t in places
  {
    OverwriteAllDiffers(a, b, groups, t);
    SameHasNoDifference(OverwriteAll(a, groups), t);
    assert WithinAny(t, groups);
    var place, rest := PlaceAbove(t, places, groups);
    PlaceNotIndex(place, groups);
    var x, y := Resolve(a, place), Resolve(b, place);
    if rest != [] {
      DiffersBelow(a, b, place, rest);
      FlatHasNoneBelow(x.value, y.value);
    } else {
      assert t == place;
    }
  }

  /** The first name of a permitted place determines its length, so none lies inside another. */
  lemma PlaceShape(i: nat)
    requires i < |PermittedPlaces()|
    ensures var t := PermittedPlaces()[i];
            && t != []
            && (|t| == 1 <==> t[0] in {"actions_run", "actions_run_attempt", "created_at", "source_build_dir"})
            && (|t| == 2 <==> t[0] == "workflow")
            && (|t| == 3 <==> t[0] in {"meshcore_conformance", "meshcore_signed_advert_runtime"})
  {
  }

  lemma ReleasePlaces()
    ensures PlacesOf(PermittedPlaces(), PermittedGroups())
    ensures AllNamed(PermittedGroups()) && AllPlain(PermittedPlaces())
  {
    var places := PermittedPlaces();
    forall t: Tokens ensures t in places <==> Permitted(t, PermittedGroups()) { PlacesAreFields(t); }
    forall p, q | p in places && q in places && p <= q ensures p == q {
      var i :| 0 <= i < |places| && places[i] == p;
      var j :| 0 <= j < |places| && places[j] == q;
      PlaceShape(i);
      PlaceShape(j);
      assert p[0] == q[0];
    }
    GroupsNamed();
    PlacesPlain();
  }

  ghost predicate AllDifferencesPermitted(a: Value, b: Value) {
    OnlyPermitted(a, b, PermittedPlaces())
  }

  function Normalized(m: Value): Value {
    OverwriteAll(m, PermittedGroups())
  }

  ghost predicate FlatAtPermitted(a: Value, b: Value) {
    forall place | place in PermittedPlaces() :: FlatAt(a, b, place)
  }

  /** All differences are permitted exactly when the normalised manifests are the same document
      without NaN and no permitted place hides a difference inside objects or lists of one length. */
  lemma WhitelistIff(a: Value, b: Value)
    requires a.Obj? && b.Obj?
    ensures AllDifferencesPermitted(a, b)
            <==> Normalized(a) == Normalized(b) && !HasNaN(Normalized(a)) && FlatAtPermitted(a, b)
  {
    var places, groups := PermittedPlaces(), PermittedGroups();
    ReleasePlaces();
    OnlyPermittedIff(a, b, places);
    if AllDifferencesPermitted(a, b) {
      OnlyPermittedGives(a, b, places, groups);
    }
    if Normalized(a) == Normalized(b) && !HasNaN(Normalized(a)) && FlatAtPermitted(a, b) {
      forall t: Tokens | Differs(a, b, t) ensures t in places {
        OnlyPermittedFrom(a, b, places, groups, t);
      }
    }
  }

  /** Equal after normalisation, yet refused by the whitelist: run numbers that are objects and differ
      inside. */
  lemma NestedDifferenceRefused(a: Value, b: Value)
    requires a == Obj(map["workflow" := Obj(map[]), "actions_run" := Obj(map["attempt" := Int(1)])])
    requires b == Obj(map["workflow" := Obj(map[]), "actions_run" := Obj(map["attempt" := Int(2)])])
    ensures Normalized(a) == Normalized(b) && !HasNaN(Normalized(a))
    ensures !AllDifferencesPermitted(a, b)
  {
    var groups, place := PermittedGroups(), ["actions_run", "attempt"];
    ReleasePlaces();
    forall t: Tokens ensures !Differs(Normalized(a), Normalized(b), t) {
      OverwriteAllDiffers(a, b, groups, t);
      if Differs(a, b, t) {
        OnlyRunDiffers(a, b, t);
        assert Within(t, groups[0].base, groups[0].texts);
      }
    }
    NoDifferenceSame(Normalized(a), Normalized(b));
    assert place[1..] == ["attempt"] && ["attempt"][1..] == [];
    assert Differs(a, b, place);
    OnlyPermittedIff(a, b, PermittedPlaces());
    var places := PermittedPlaces();
    forall i | 0 <= i < |places| ensures places[i] != place {
      PlaceShape(i);
    }
    assert place !in places;
  }

  lemma OnlyRunDiffers(a: Value, b: Value, t: Tokens)
    requires a.Obj? && b.Obj? && a.fields.Keys == b.fields.Keys == {"workflow", "actions_run"}
    requires a.fields["workflow"] == b.fields["workflow"] == Obj(map[])
    requires Differs(a, b, t)
    ensures t != [] && t[0] == "actions_run"
  {
    if t != [] {
      SameHasNoDifference(Obj(map[]), t[1..]);
    }
  }

  /** Neither an object nor a list. */
  predicate Scalar(r: Resolved) {
    r.Found? ==> !r.value.Obj? && !r.value.Arr?
  }

  /** With scalars at the permitted places of one manifest, the whitelist and the type-strict
      normalised comparison decide the same. */
  lemma ScalarWhitelistIff(a: Value, b: Value)
    requires a.Obj? && b.Obj?
    requires forall place | place in PermittedPlaces() :: Scalar(Resolve(a, place))
    ensures AllDifferencesPermitted(a, b) <==> Normalized(a) == Normalized(b) && !HasNaN(Normalized(a))
  {
    WhitelistIff(a, b);
    forall place | place in PermittedPlaces() ensures FlatAt(a, b, place) {
      assert Scalar(Resolve(a, place));
    }
  }

  // ----- `normalized_manifest_match`

  ghost predicate NormalizedManifestMatch(a: Value, b: Value) {
    ItemEq(Normalized(a), Normalized(b)) && AllDifferencesPermitted(a, b)
  }

  /** The check compares the normalised manifests as well; that comparison adds nothing. */
  lemma NormalizedComparisonRedundant(a: Value, b: Value)
    requires a.Obj? && b.Obj?
    ensures NormalizedManifestMatch(a, b) <==> AllDifferencesPermitted(a, b)
  {
    WhitelistIff(a, b);
  }

  /** Alone it would accept a manifest whose number became a boolean. */
  lemma NormalizedComparisonTooWeak(a: Value, b: Value)
    requires a == Obj(map["schema" := Int(1)]) && b == Obj(map["schema" := Bool(true)])
    ensures ItemEq(a, b) && Differs(a, b, ["schema"])
  {
    ItemEqMeaning(a, b);
    ItemEqMeaning(Int(1), Bool(true));
    assert a.fields.Keys == b.fields.Keys;
    assert ["schema"][1..] == [];
  }

  /** A top-level field no permitted place starts with is the same in both manifests. */
  lemma OtherFieldsSame(a: Value, b: Value, key: string)
    requires a.Obj? && b.Obj? && AllDifferencesPermitted(a, b)
    requires forall place | place in PermittedPlaces() :: place[0] != key
    ensures Get(a.fields, key) == Get(b.fields, key) && (key in a.fields <==> key in b.fields)
  {
    ReleasePlaces();
    OnlyPermittedIff(a, b, PermittedPlaces());
    assert [key][0] == key && !Differs(a, b, [key]);
    if key in a.fields && key in b.fields {
      forall t: Tokens ensures !Differs(a.fields[key], b.fields[key], t) {
        assert ([key] + t)[0] == key && ([key] + t)[1..] == t;
        assert !Differs(a, b, [key] + t);
      }
      NoDifferenceSame(a.fields[key], b.fields[key]);
    }
  }
}
