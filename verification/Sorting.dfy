/** Python's stable `sorted`, and the fact every canonical projection rests on: when no two
    elements tie, the sorted list depends only on which elements there are. */
module Sorting {
  /** `less` compares by some key: it never relates ties, and "not less" is transitive. */
  ghost predicate ComparesByKey<T(!new)>(less: (T, T) -> bool) {
    && (forall x, y :: less(x, y) ==> !less(y, x))
    && (forall x, y, z :: !less(y, x) && !less(z, y) ==> !less(z, x))
  }

  ghost predicate Sorted<T>(s: seq<T>, less: (T, T) -> bool) {
    forall i, j | 0 <= i < j < |s| :: !less(s[j], s[i])
  }

  ghost predicate StrictlySorted<T>(s: seq<T>, less: (T, T) -> bool) {
    forall i, j | 0 <= i < j < |s| :: less(s[i], s[j])
  }

  /** No two positions carry the same key. */
  ghost predicate NoTies<T>(s: seq<T>, less: (T, T) -> bool) {
    forall i, j | 0 <= i < j < |s| :: less(s[i], s[j]) || less(s[j], s[i])
  }

  function Insert<T>(s: seq<T>, x: T, less: (T, T) -> bool): (r: seq<T>)
    ensures multiset(r) == multiset(s) + multiset{x}
  {
    if s == [] || !less(x, s[|s| - 1]) then s + [x]
    else
      assert s == s[..|s| - 1] + [s[|s| - 1]];
      Insert(s[..|s| - 1], x, less) + [s[|s| - 1]]
  }

  function SortBy<T>(s: seq<T>, less: (T, T) -> bool): (r: seq<T>)
    ensures multiset(r) == multiset(s)
  {
    if s == [] then []
    else
      assert s == s[..|s| - 1] + [s[|s| - 1]];
      Insert(SortBy(s[..|s| - 1], less), s[|s| - 1], less)
  }

  lemma MembersFromMultiset<T>(a: seq<T>, b: seq<T>)
    requires multiset(a) == multiset(b)
    ensures |a| == |b|
    ensures forall x :: x in a <==> x in b
  {
    assert |a| == |multiset(a)| == |multiset(b)| == |b|;
    forall x ensures x in a <==> x in b {
      assert x in a <==> x in multiset(a);
      assert x in b <==> x in multiset(b);
    }
  }

  lemma {:induction false} InsertSorts<T(!new)>(s: seq<T>, x: T, less: (T, T) -> bool)
    requires ComparesByKey(less) && Sorted(s, less)
    ensures Sorted(Insert(s, x, less), less)
  {
    if s == [] || !less(x, s[|s| - 1]) {
      forall i | 0 <= i < |s| ensures !less(x, s[i]) {
        if i < |s| - 1 { assert !less(s[|s| - 1], s[i]); }
      }
    } else {
      var init, last := s[..|s| - 1], s[|s| - 1];
      assert s == init + [last];
      InsertSorts(init, x, less);
      var r := Insert(init, x, less);
      assert multiset(r) == multiset(init + [x]);
      MembersFromMultiset(r, init + [x]);
      forall i | 0 <= i < |r| ensures !less(last, r[i]) {
        assert r[i] in init + [x];
      }
    }
  }

  lemma {:induction false} SortBySorts<T(!new)>(s: seq<T>, less: (T, T) -> bool)
    requires ComparesByKey(less)
    ensures Sorted(SortBy(s, less), less)
  {
    if s != [] {
      SortBySorts(s[..|s| - 1], less);
      InsertSorts(SortBy(s[..|s| - 1], less), s[|s| - 1], less);
    }
  }

  lemma {:induction false} StrictlySortedUnique<T(!new)>(a: seq<T>, b: seq<T>, less: (T, T) -> bool)
    requires ComparesByKey(less)
    requires StrictlySorted(a, less) && StrictlySorted(b, less)
    requires forall x :: x in a <==> x in b
    ensures a == b
  {
    if a != [] { assert a[0] in a; }
    if b != [] { assert b[0] in b; }
    if a != [] && b != [] {
      assert a[0] in b && b[0] in a;
      assert a[0] == b[0];
      var x := a[0];
      assert x !in a[1..] && x !in b[1..] by {
        forall i | 1 <= i < |a| ensures a[i] != x { assert less(x, a[i]) && !less(a[i], x); }
        forall i | 1 <= i < |b| ensures b[i] != x { assert less(x, b[i]) && !less(b[i], x); }
      }
      forall y ensures y in a[1..] <==> y in b[1..] {
        assert y in a <==> y == x || y in a[1..];
        assert y in b <==> y == x || y in b[1..];
      }
      StrictlySortedUnique(a[1..], b[1..], less);
      assert a == [x] + a[1..] && b == [x] + b[1..];
    }
  }

  lemma NoTiesPermuted<T(!new)>(a: seq<T>, b: seq<T>, less: (T, T) -> bool)
    requires NoTies(a, less) && multiset(a) == multiset(b)
    requires ComparesByKey(less)
    ensures NoTies(b, less)
  {
    MembersFromMultiset(a, b);
    forall i, j | 0 <= i < j < |b| ensures less(b[i], b[j]) || less(b[j], b[i]) {
      var x, y := b[i], b[j];
      if x == y {
        assert b == b[..i] + [x] + b[i + 1..j] + [x] + b[j + 1..];
        assert multiset(b)[x] >= 2;
        TwoCopies(a, x);
        assert false;
      } else {
        assert x in a && y in a;
        var p :| 0 <= p < |a| && a[p] == x;
        var q :| 0 <= q < |a| && a[q] == y;
      }
    }
  }

  lemma TwoCopies<T>(a: seq<T>, x: T)
    requires multiset(a)[x] >= 2
    ensures exists p, q :: 0 <= p < q < |a| && a[p] == x && a[q] == x
  {
    assert x in multiset(a);
    assert x in a;
    var p :| 0 <= p < |a| && a[p] == x;
    var rest := a[..p] + a[p + 1..];
    assert a == a[..p] + [x] + a[p + 1..];
    assert multiset(a) == multiset(rest) + multiset{x};
    assert x in multiset(rest);
    assert x in rest;
    var r :| 0 <= r < |rest| && rest[r] == x;
    if r < p {
      assert a[r] == x;
    } else {
      assert a[r + 1] == x;
    }
  }

  /** Sorting a list without ties gives a strictly increasing list. */
  lemma SortByStrict<T(!new)>(s: seq<T>, less: (T, T) -> bool)
    requires ComparesByKey(less) && NoTies(s, less)
    ensures StrictlySorted(SortBy(s, less), less)
  {
    SortBySorts(s, less);
    NoTiesPermuted(s, SortBy(s, less), less);
  }

  // ----- text keys

  /** Python's order on text, by code point. */
  predicate TextLess(a: string, b: string) {
    b != [] && (a == [] || a[0] < b[0] || (a[0] == b[0] && TextLess(a[1..], b[1..])))
  }

  lemma {:induction false} TextLessTrichotomy(a: string, b: string)
    ensures TextLess(a, b) ==> !TextLess(b, a) && a != b
    ensures a != b ==> TextLess(a, b) || TextLess(b, a)
  {
    if a != [] && b != [] {
      TextLessTrichotomy(a[1..], b[1..]);
      assert a == [a[0]] + a[1..] && b == [b[0]] + b[1..];
    }
  }

  lemma {:induction false} TextLessTransitive(a: string, b: string, c: string)
    requires TextLess(a, b) && TextLess(b, c)
    ensures TextLess(a, c)
  {
    if a != [] && a[0] == b[0] == c[0] {
      TextLessTransitive(a[1..], b[1..], c[1..]);
    }
  }

  lemma TextLessComparesByKey()
    ensures ComparesByKey(TextLess)
  {
    forall x, y ensures TextLess(x, y) ==> !TextLess(y, x) { TextLessTrichotomy(x, y); }
    forall x, y, z | !TextLess(y, x) && !TextLess(z, y) ensures !TextLess(z, x) {
      TextLessTrichotomy(x, y);
      TextLessTrichotomy(y, z);
      TextLessTrichotomy(x, z);
      if TextLess(z, x) {
        if x != y { TextLessTransitive(z, x, y); }
      }
    }
  }
}
