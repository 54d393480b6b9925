/** The recursive comparison of two JSON documents that reports a pointer to every place where they
    differ (scripts/compare_release_reproducibility_d1l.py). */
module JsonDiff {
  import opened Common
  import opened Json
  import opened Text
  import opened JsonPointer

  /** `type(first) is type(second)`: NaN is a float. */
  predicate SameType(a: Value, b: Value) {
    || (a.Null? && b.Null?) || (a.Bool? && b.Bool?) || (a.Int? && b.Int?) || (a.Str? && b.Str?)
    || ((a.Float? || a.NaN?) && (b.Float? || b.NaN?))
    || (a.Arr? && b.Arr?) || (a.Obj? && b.Obj?)
  }

  // ----- the paths

  function OrRoot(prefix: string): string {
    if prefix == "" then "/" else prefix
  }

  function DifferencePaths(first: Value, second: Value, prefix: string): seq<string>
    decreases first, 1, 0
  {
    if !SameType(first, second) then [OrRoot(prefix)]
    else if first.Obj? then
      KeyPaths(first, second, SortedKeys(first.fields.Keys + second.fields.Keys), prefix)
    else if first.Arr? then
      if |first.items| != |second.items| then [OrRoot(prefix)] else ItemPaths(first, second, 0, prefix)
    else if PyEq(first, second) then [] else [OrRoot(prefix)]
  }

  function KeyPaths(first: Value, second: Value, keys: seq<string>, prefix: string): seq<string>
    requires first.Obj? && second.Obj?
    decreases first, 0, |keys|
  {
    if keys == [] then []
    else
      var key := keys[0];
      var path := prefix + "/" + PointerToken(key);
      (if key !in first.fields || key !in second.fields then [path]
       else DifferencePaths(first.fields[key], second.fields[key], path))
      + KeyPaths(first, second, keys[1..], prefix)
  }

  function ItemPaths(first: Value, second: Value, index: nat, prefix: string): seq<string>
    requires first.Arr? && second.Arr? && |first.items| == |second.items| && index <= |first.items|
    decreases first, 0, |first.items| - index
  {
    if index == |first.items| then []
    else
      DifferencePaths(first.items[index], second.items[index], prefix + "/" + PointerToken(Decimal(index)))
      + ItemPaths(first, second, index + 1, prefix)
  }

  // ----- an independent reading: where two documents differ

  /** `t` is the decimal text of an index below `n`. */
  predicate IsIndex(t: string, n: nat) {
    NumberIn(t) < n && t == Decimal(NumberIn(t))
  }

  /** The documents differ at the place the reference tokens lead to: along the way both hold
      objects with the key, or arrays of equal length with the index; at the end they differ in
      type, in length or in value, or only one of them has the key. */
  predicate Differs(a: Value, b: Value, tokens: Tokens)
    decreases tokens
  {
    if tokens == [] then
      !SameType(a, b) || (if a.Obj? then false else if a.Arr? then |a.items| != |b.items| else !PyEq(a, b))
    else if a.Obj? && b.Obj? then
      var key := tokens[0];
      if key in a.fields && key in b.fields then Differs(a.fields[key], b.fields[key], tokens[1..])
      else (key in a.fields || key in b.fields) && tokens == [key]
    else if a.Arr? && b.Arr? then
      |a.items| == |b.items| && IsIndex(tokens[0], |a.items|)
      && Differs(a.items[NumberIn(tokens[0])], b.items[NumberIn(tokens[0])], tokens[1..])
    else false
  }

  // ----- the same walk, keeping tokens instead of text

  function DifferenceTokens(first: Value, second: Value): seq<Tokens>
    decreases first, 1, 0
  {
    if !SameType(first, second) then [[]]
    else if first.Obj? then KeyTokens(first, second, SortedKeys(first.fields.Keys + second.fields.Keys))
    else if first.Arr? then
      if |first.items| != |second.items| then [[]] else ItemTokens(first, second, 0)
    else if PyEq(first, second) then [] else [[]]
  }

  function Prepend(token: string, list: seq<Tokens>): seq<Tokens> {
    seq(|list|, i requires 0 <= i < |list| => [token] + list[i])
  }

  function KeyTokens(first: Value, second: Value, keys: seq<string>): seq<Tokens>
    requires first.Obj? && second.Obj?
    decreases first, 0, |keys|
  {
    if keys == [] then []
    else
      var key := keys[0];
      Prepend(key,
        if key !in first.fields || key !in second.fields then [[]]
        else DifferenceTokens(first.fields[key], second.fields[key]))
      + KeyTokens(first, second, keys[1..])
  }

  function ItemTokens(first: Value, second: Value, index: nat): seq<Tokens>
    requires first.Arr? && second.Arr? && |first.items| == |second.items| && index <= |first.items|
    decreases first, 0, |first.items| - index
  {
    if index == |first.items| then []
    else
      Prepend(Decimal(index), DifferenceTokens(first.items[index], second.items[index]))
      + ItemTokens(first, second, index + 1)
  }

  function Show(prefix: string, tokens: Tokens): string {
    OrRoot(prefix + Render(tokens))
  }

  function ShowAll(prefix: string, list: seq<Tokens>): seq<string> {
    seq(|list|, i requires 0 <= i < |list| => Show(prefix, list[i]))
  }

  lemma ShowConcat(prefix: string, a: seq<Tokens>, b: seq<Tokens>)
    ensures ShowAll(prefix, a + b) == ShowAll(prefix, a) + ShowAll(prefix, b)
  {
  }

  lemma ShowPrepend(prefix: string, token: string, list: seq<Tokens>)
    ensures ShowAll(prefix + "/" + PointerToken(token), list) == ShowAll(prefix, Prepend(token, list))
  {
    var path := prefix + "/" + PointerToken(token);
    forall i | 0 <= i < |list| ensures Show(path, list[i]) == Show(prefix, [token] + list[i]) {
      assert ([token] + list[i])[1..] == list[i];
      assert path + Render(list[i]) == prefix + Render([token] + list[i]);
    }
  }

  /** The reported text is the token walk, rendered. */
  lemma {:induction false} PathsShowTokens(first: Value, second: Value, prefix: string)
    ensures DifferencePaths(first, second, prefix) == ShowAll(prefix, DifferenceTokens(first, second))
    decreases first, 1, 0
  {
    assert prefix + Render([]) == prefix;
    if SameType(first, second) {
      if first.Obj? {
        KeyPathsShow(first, second, SortedKeys(first.fields.Keys + second.fields.Keys), prefix);
      } else if first.Arr? && |first.items| == |second.items| {
        ItemPathsShow(first, second, 0, prefix);
      }
    }
  }

  lemma {:induction false} KeyPathsShow(first: Value, second: Value, keys: seq<string>, prefix: string)
    requires first.Obj? && second.Obj?
    ensures KeyPaths(first, second, keys, prefix) == ShowAll(prefix, KeyTokens(first, second, keys))
    decreases first, 0, |keys|
  {
    if keys != [] {
      var key := keys[0];
      var path := prefix + "/" + PointerToken(key);
      var missing := key !in first.fields || key !in second.fields;
      var list := if missing then [[]] else DifferenceTokens(first.fields[key], second.fields[key]);
      if missing {
        assert path + Render([]) == path;
        assert ShowAll(path, list) == [path];
      } else {
        PathsShowTokens(first.fields[key], second.fields[key], path);
      }
      KeyPathsShow(first, second, keys[1..], prefix);
      ShowPrepend(prefix, key, list);
      ShowConcat(prefix, Prepend(key, list), KeyTokens(first, second, keys[1..]));
    }
  }

  lemma {:induction false} ItemPathsShow(first: Value, second: Value, index: nat, prefix: string)
    requires first.Arr? && second.Arr? && |first.items| == |second.items| && index <= |first.items|
    ensures ItemPaths(first, second, index, prefix) == ShowAll(prefix, ItemTokens(first, second, index))
    decreases first, 0, |first.items| - index
  {
    if index < |first.items| {
      var list := DifferenceTokens(first.items[index], second.items[index]);
      PathsShowTokens(first.items[index], second.items[index], prefix + "/" + PointerToken(Decimal(index)));
      ItemPathsShow(first, second, index + 1, prefix);
      ShowPrepend(prefix, Decimal(index), list);
      ShowConcat(prefix, Prepend(Decimal(index), list), ItemTokens(first, second, index + 1));
    }
  }

  // ----- the walk reports exactly the differences, each once

  lemma PrependMember(token: string, list: seq<Tokens>, t: Tokens)
    ensures t in Prepend(token, list) <==> t != [] && t[0] == token && t[1..] in list
  {
    var all := Prepend(token, list);
    if t in all {
      var i :| 0 <= i < |all| && all[i] == t;
      assert t[1..] == list[i];
    }
    if t != [] && t[0] == token && t[1..] in list {
      var i :| 0 <= i < |list| && list[i] == t[1..];
      assert all[i] == t;
    }
  }

  lemma {:induction false} TokensAreDifferences(first: Value, second: Value, t: Tokens)
    ensures t in DifferenceTokens(first, second) <==> Differs(first, second, t)
    decreases first, 1, 0
  {
    if SameType(first, second) {
      if first.Obj? {
        KeyTokensAre(first, second, SortedKeys(first.fields.Keys + second.fields.Keys), t);
      } else if first.Arr? && |first.items| == |second.items| {
        ItemTokensAre(first, second, 0, t);
      }
    }
  }

  lemma {:induction false} KeyTokensAre(first: Value, second: Value, keys: seq<string>, t: Tokens)
    requires first.Obj? && second.Obj?
    requires forall k | k in keys :: k in first.fields || k in second.fields
    ensures t in KeyTokens(first, second, keys) <==> t != [] && t[0] in keys && Differs(first, second, t)
    decreases first, 0, |keys|
  {
    if keys != [] {
      var key := keys[0];
      var missing := key !in first.fields || key !in second.fields;
      var list := if missing then [[]] else DifferenceTokens(first.fields[key], second.fields[key]);
      PrependMember(key, list, t);
      if !missing && t != [] {
        TokensAreDifferences(first.fields[key], second.fields[key], t[1..]);
      }
      KeyTokensAre(first, second, keys[1..], t);
      assert t != [] ==> t == [t[0]] + t[1..];
      assert t != [] && t[0] == key && missing ==> (t[1..] in list <==> t == [key]);
      assert forall k :: k in keys <==> k == key || k in keys[1..];
    }
  }

  lemma {:induction false} ItemTokensAre(first: Value, second: Value, index: nat, t: Tokens)
    requires first.Arr? && second.Arr? && |first.items| == |second.items| && index <= |first.items|
    ensures t in ItemTokens(first, second, index) <==>
            t != [] && IsIndex(t[0], |first.items|) && index <= NumberIn(t[0]) && Differs(first, second, t)
    decreases first, 0, |first.items| - index
  {
    if index < |first.items| {
      var list := DifferenceTokens(first.items[index], second.items[index]);
      PrependMember(Decimal(index), list, t);
      DecimalReads(index);
      if t != [] {
        TokensAreDifferences(first.items[index], second.items[index], t[1..]);
      }
      ItemTokensAre(first, second, index + 1, t);
    }
  }

  lemma PrependDistinct(token: string, list: seq<Tokens>)
    requires Distinct(list)
    ensures Distinct(Prepend(token, list))
  {
    forall i, j | 0 <= i < j < |list| ensures [token] + list[i] != [token] + list[j] {
      assert ([token] + list[i])[1..] == list[i] && ([token] + list[j])[1..] == list[j];
    }
  }

  lemma AppendDistinct(a: seq<Tokens>, b: seq<Tokens>)
    requires Distinct(a) && Distinct(b)
    requires forall t | t in a :: t !in b
    ensures Distinct(a + b)
  {
    forall i, j | 0 <= i < j < |a + b| ensures (a + b)[i] != (a + b)[j] {
      if i < |a| <= j {
        assert a[i] in a && b[j - |a|] in b;
      }
    }
  }

  lemma {:induction false} TokensOnce(first: Value, second: Value)
    ensures Distinct(DifferenceTokens(first, second))
    decreases first, 1, 0
  {
    if SameType(first, second) {
      if first.Obj? {
        KeyTokensOnce(first, second, SortedKeys(first.fields.Keys + second.fields.Keys));
      } else if first.Arr? && |first.items| == |second.items| {
        ItemTokensOnce(first, second, 0);
      }
    }
  }

  lemma {:induction false} KeyTokensOnce(first: Value, second: Value, keys: seq<string>)
    requires first.Obj? && second.Obj?
    requires forall k | k in keys :: k in first.fields || k in second.fields
    requires Distinct(keys)
    ensures Distinct(KeyTokens(first, second, keys))
    decreases first, 0, |keys|
  {
    if keys != [] {
      var key := keys[0];
      var missing := key !in first.fields || key !in second.fields;
      var list := if missing then [[]] else DifferenceTokens(first.fields[key], second.fields[key]);
      var rest := KeyTokens(first, second, keys[1..]);
      if !missing { TokensOnce(first.fields[key], second.fields[key]); }
      KeyTokensOnce(first, second, keys[1..]);
      PrependDistinct(key, list);
      assert key !in keys[1..];
      forall t | t in Prepend(key, list) ensures t !in rest {
        PrependMember(key, list, t);
        KeyTokensAre(first, second, keys[1..], t);
      }
      AppendDistinct(Prepend(key, list), rest);
    }
  }

  lemma {:induction false} ItemTokensOnce(first: Value, second: Value, index: nat)
    requires first.Arr? && second.Arr? && |first.items| == |second.items| && index <= |first.items|
    ensures Distinct(ItemTokens(first, second, index))
    decreases first, 0, |first.items| - index
  {
    if index < |first.items| {
      var list := DifferenceTokens(first.items[index], second.items[index]);
      var rest := ItemTokens(first, second, index + 1);
      TokensOnce(first.items[index], second.items[index]);
      ItemTokensOnce(first, second, index + 1);
      PrependDistinct(Decimal(index), list);
      DecimalReads(index);
      forall t | t in Prepend(Decimal(index), list) ensures t !in rest {
        PrependMember(Decimal(index), list, t);
        ItemTokensAre(first, second, index + 1, t);
      }
      AppendDistinct(Prepend(Decimal(index), list), rest);
    }
  }

  // ----- the reported paths of two objects

  /** The reported paths, one by one. */
  lemma ListedPaths(first: Value, second: Value, i: nat)
    requires first.Obj? && second.Obj?
    requires i < |DifferenceTokens(first, second)|
    ensures |DifferencePaths(first, second, "")| == |DifferenceTokens(first, second)|
    ensures DifferencePaths(first, second, "")[i] == Render(DifferenceTokens(first, second)[i])
    ensures Differs(first, second, DifferenceTokens(first, second)[i])
  {
    var t := DifferenceTokens(first, second)[i];
    PathsShowTokens(first, second, "");
    TokensAreDifferences(first, second, t);
    assert "" + Render(t) == Render(t);
    assert t != [];
  }

  /** Two objects never report the same path twice. At the root of two other values a difference is
      reported as "/", which is also the pointer to the key "", so only for objects does a path name
      its place. */
  lemma ObjectPathsOnce(first: Value, second: Value)
    requires first.Obj? && second.Obj?
    ensures Distinct(DifferencePaths(first, second, ""))
  {
    var list := DifferenceTokens(first, second);
    var paths := DifferencePaths(first, second, "");
    PathsShowTokens(first, second, "");
    TokensOnce(first, second);
    forall i, j | 0 <= i < j < |paths| ensures paths[i] != paths[j] {
      ListedPaths(first, second, i);
      ListedPaths(first, second, j);
      if paths[i] == paths[j] {
        RenderInjective(list[i], list[j]);
        assert false;
      }
    }
  }

  /** Every reported path points to a difference. */
  lemma PathIsDifference(first: Value, second: Value, path: string) returns (t: Tokens)
    requires first.Obj? && second.Obj?
    requires path in DifferencePaths(first, second, "")
    ensures Differs(first, second, t) && path == Render(t)
  {
    PathsShowTokens(first, second, "");
    var paths := DifferencePaths(first, second, "");
    var i :| 0 <= i < |paths| && paths[i] == path;
    ListedPaths(first, second, i);
    t := DifferenceTokens(first, second)[i];
  }

  /** A path is reported exactly for a difference. */
  lemma PathReported(first: Value, second: Value, t: Tokens)
    requires first.Obj? && second.Obj?
    ensures Render(t) in DifferencePaths(first, second, "") <==> Differs(first, second, t)
  {
    var list := DifferenceTokens(first, second);
    if Differs(first, second, t) {
      TokensAreDifferences(first, second, t);
      var i :| 0 <= i < |list| && list[i] == t;
      ListedPaths(first, second, i);
    }
    if Render(t) in DifferencePaths(first, second, "") {
      var u := PathIsDifference(first, second, Render(t));
      RenderInjective(t, u);
    }
  }

  // ----- no difference

  /** A NaN anywhere: the one value that does not equal itself. */
  predicate HasNaN(v: Value) {
    match v
    case NaN => true
    case Arr(items) => exists i | 0 <= i < |items| :: HasNaN(items[i])
    case Obj(fields) => exists k | k in fields :: HasNaN(fields[k])
    case _ => false
  }

  lemma LeafDiffersIff(a: Value, b: Value)
    requires SameType(a, b) && !a.Obj? && !a.Arr?
    ensures PyEq(a, b) <==> a == b && !a.NaN?
  {
    if a.Int? && PyEq(a, b) {
      assert a.i as real == b.i as real;
    }
  }

  /** Documents of equal type and content, free of NaN, are the ones without a difference. */
  lemma {:induction false} SameHasNoDifference(a: Value, t: Tokens)
    requires !HasNaN(a)
    ensures !Differs(a, a, t)
    decreases t
  {
    if t == [] {
      if !a.Obj? && !a.Arr? { LeafDiffersIff(a, a); }
    } else if a.Obj? {
      if t[0] in a.fields { SameHasNoDifference(a.fields[t[0]], t[1..]); }
    } else if a.Arr? {
      if IsIndex(t[0], |a.items|) { SameHasNoDifference(a.items[NumberIn(t[0])], t[1..]); }
    }
  }

  /** Documents without a difference are the same and free of NaN. */
  lemma {:induction false} NoDifferenceSame(a: Value, b: Value)
    requires forall t: Tokens :: !Differs(a, b, t)
    ensures a == b && !HasNaN(a)
    decreases a
  {
    assert !Differs(a, b, []);
    if a.Obj? {
      forall k ensures k in a.fields <==> k in b.fields {
        assert !Differs(a, b, [k]);
      }
      forall k | k in a.fields ensures a.fields[k] == b.fields[k] && !HasNaN(a.fields[k]) {
        forall t: Tokens ensures !Differs(a.fields[k], b.fields[k], t) {
          assert ([k] + t)[1..] == t;
          assert !Differs(a, b, [k] + t);
        }
        NoDifferenceSame(a.fields[k], b.fields[k]);
      }
      assert a.fields == b.fields;
    } else if a.Arr? {
      forall i | 0 <= i < |a.items| ensures a.items[i] == b.items[i] && !HasNaN(a.items[i]) {
        DecimalReads(i);
        forall t: Tokens ensures !Differs(a.items[i], b.items[i], t) {
          assert ([Decimal(i)] + t)[1..] == t;
          assert !Differs(a, b, [Decimal(i)] + t);
        }
        NoDifferenceSame(a.items[i], b.items[i]);
      }
      assert a.items == b.items;
    } else {
      LeafDiffersIff(a, b);
    }
  }

  /** `json_difference_paths` is empty exactly for equal documents (of the same types) free of
      NaN. */
  lemma NoPathsIff(a: Value, b: Value)
    ensures DifferencePaths(a, b, "") == [] <==> a == b && !HasNaN(a)
  {
    PathsShowTokens(a, b, "");
    var list := DifferenceTokens(a, b);
    if list != [] {
      assert list[0] in list;
      TokensAreDifferences(a, b, list[0]);
      if a == b && !HasNaN(a) { SameHasNoDifference(a, list[0]); }
    } else {
      forall t: Tokens ensures !Differs(a, b, t) { TokensAreDifferences(a, b, t); }
      NoDifferenceSame(a, b);
    }
  }

  /** A document with a NaN differs from itself. */
  lemma NaNDiffersFromItself()
    ensures DifferencePaths(NaN, NaN, "") == ["/"]
  {
  }

  /** The order of the arguments does not matter. */
  lemma {:induction false} PathsSymmetric(a: Value, b: Value, prefix: string)
    ensures DifferencePaths(a, b, prefix) == DifferencePaths(b, a, prefix)
    decreases a, 1, 0
  {
    if SameType(a, b) {
      if a.Obj? {
        assert a.fields.Keys + b.fields.Keys == b.fields.Keys + a.fields.Keys;
        KeyPathsSymmetric(a, b, SortedKeys(a.fields.Keys + b.fields.Keys), prefix);
      } else if a.Arr? {
        if |a.items| == |b.items| { ItemPathsSymmetric(a, b, 0, prefix); }
      } else {
        LeafDiffersIff(a, b);
        LeafDiffersIff(b, a);
      }
    }
  }

  lemma {:induction false} KeyPathsSymmetric(a: Value, b: Value, keys: seq<string>, prefix: string)
    requires a.Obj? && b.Obj?
    ensures KeyPaths(a, b, keys, prefix) == KeyPaths(b, a, keys, prefix)
    decreases a, 0, |keys|
  {
    if keys != [] {
      if keys[0] in a.fields && keys[0] in b.fields {
        PathsSymmetric(a.fields[keys[0]], b.fields[keys[0]], prefix + "/" + PointerToken(keys[0]));
      }
      KeyPathsSymmetric(a, b, keys[1..], prefix);
    }
  }

  lemma {:induction false} ItemPathsSymmetric(a: Value, b: Value, index: nat, prefix: string)
    requires a.Arr? && b.Arr? && |a.items| == |b.items| && index <= |a.items|
    ensures ItemPaths(a, b, index, prefix) == ItemPaths(b, a, index, prefix)
    decreases a, 0, |a.items| - index
  {
    if index < |a.items| {
      PathsSymmetric(a.items[index], b.items[index], prefix + "/" + PointerToken(Decimal(index)));
      ItemPathsSymmetric(a, b, index + 1, prefix);
    }
  }

  // ----- resolving a path in each document

  datatype Resolved = Absent | Found(value: Value)

  /** Section 4 of RFC 6901. */
  function Resolve(v: Value, tokens: Tokens): Resolved {
    if tokens == [] then Found(v)
    else match v
      case Obj(fields) => if tokens[0] in fields then Resolve(fields[tokens[0]], tokens[1..]) else Absent
      case Arr(items) =>
        if IsIndex(tokens[0], |items|) then Resolve(items[NumberIn(tokens[0])], tokens[1..]) else Absent
      case _ => Absent
  }

  /** Every difference resolves: to two values that differ there, or in one document only. */
  lemma {:induction false} DifferenceResolves(a: Value, b: Value, t: Tokens)
    requires Differs(a, b, t)
    ensures var x, y := Resolve(a, t), Resolve(b, t);
            (x.Found? && y.Found? && Differs(x.value, y.value, [])) || (x.Found? != y.Found?)
    decreases t
  {
    if t != [] {
      if a.Obj? && t[0] in a.fields && t[0] in b.fields {
        DifferenceResolves(a.fields[t[0]], b.fields[t[0]], t[1..]);
      } else if a.Obj? {
        assert t[1..] == [];
      } else {
        DifferenceResolves(a.items[NumberIn(t[0])], b.items[NumberIn(t[0])], t[1..]);
      }
    }
  }
}
