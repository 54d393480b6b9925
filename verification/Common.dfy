/** Small notions every component uses. */
module Common {
  /** A value that may be absent: Python's None, or a refused input. */
  datatype Option<T> = None | Some(value: T)

  // ----- lists and the set of their elements

  function Members<T>(s: seq<T>): set<T> {
    set x | x in s
  }

  predicate Distinct<T(==)>(s: seq<T>) {
    forall i, j | 0 <= i < j < |s| :: s[i] != s[j]
  }

  lemma {:induction false} DistinctMembersCount<T>(s: seq<T>)
    requires Distinct(s)
    ensures |Members(s)| == |s|
  {
    if s != [] {
      var init, last := s[..|s| - 1], s[|s| - 1];
      DistinctMembersCount(init);
      assert last !in init;
      assert Members(s) == Members(init) + {last};
    }
  }

  lemma SubsetOfEqualSize<T>(a: set<T>, b: set<T>)
    requires a <= b && |a| == |b|
    ensures a == b
  {
    assert |b - a| == |b| - |a|;
    assert b == a + (b - a);
  }

  lemma SubsetSize<T>(a: set<T>, b: set<T>)
    requires a <= b
    ensures |a| <= |b|
  {
    assert b == a + (b - a);
  }

  // ----- digests and canonical texts

  /** No element of the one set has the image of a different element of the other. This is all that
      is ever assumed of a digest or of a canonical text, and only for the inputs at hand. */
  ghost predicate NoCollision<A(!new), B>(f: A -> B, left: set<A>, right: set<A>) {
    forall a, b | a in left && b in right && f(a) == f(b) :: a == b
  }

  /** The assumption can be met for any finite set of inputs: some text-valued function tells them
      apart. */
  lemma {:induction false} SomeFunctionSeparates<A(!new)>(inputs: set<A>) returns (f: A -> string)
    ensures NoCollision(f, inputs, inputs)
    ensures forall a | a in inputs :: |f(a)| <= |inputs|
    decreases |inputs|
  {
    if inputs == {} {
      f := (a: A) => "";
    } else {
      var x :| x in inputs;
      var rest := inputs - {x};
      var g := SomeFunctionSeparates(rest);
      var n := |inputs|;
      f := (a: A) => if a in rest then g(a) else seq(n, i => 'x');
      forall a | a in inputs ensures |f(a)| <= n {
        assert a in rest || a == x;
      }
      forall a, b | a in inputs && b in inputs && f(a) == f(b) ensures a == b {
        assert a in rest || a == x;
        assert b in rest || b == x;
        assert a in rest ==> |f(a)| < n;
        assert b in rest ==> |f(b)| < n;
      }
    }
  }
}
