/** Decoded JSON values and the three equalities the tools use on them.

    Python's `==` is coarser than equality of documents: `1`, `1.0` and `True` compare
    equal. A decoded NaN differs from itself when two numbers are compared directly, but
    the decoder hands out one NaN object, and container comparison accepts an object as
    equal to itself; so inside lists and dictionaries NaN equals NaN. */
module Json {
  datatype Value =
    | Null
    | Bool(b: bool)
    | Int(i: int)
    | Float(f: real)
    | NaN
    | Str(s: string)
    | Arr(items: seq<Value>)
    | Obj(fields: Dict)

  type Dict = map<string, Value>

  /** `dict.get(key)`: an absent key reads as None, which is also JSON null. */
  function Get(d: Dict, key: string): Value {
    if key in d then d[key] else Null
  }

  /** The fields of a value the caller has found to be an object. */
  function Fields(v: Value): Dict {
    if v.Obj? then v.fields else map[]
  }

  /** The sequence number of a store's row, where it is an integer. */
  function SeqOf(row: Dict): int {
    if Get(row, "seq").Int? then Get(row, "seq").i else 0
  }

  predicate IsNumber(v: Value) {
    v.Bool? || v.Int? || v.Float?
  }

  function NumberOf(v: Value): real
    requires IsNumber(v)
  {
    match v
    case Bool(b) => if b then 1.0 else 0.0
    case Int(i) => i as real
    case Float(f) => f
  }

  /** The value with every number written as a float: what comparison can see of it. */
  function Canon(v: Value): Value {
    match v
    case Bool(b) => Float(if b then 1.0 else 0.0)
    case Int(i) => Float(i as real)
    case Arr(x) => Arr(seq(|x|, i requires 0 <= i < |x| => Canon(x[i])))
    case Obj(x) => Obj(map k | k in x :: Canon(x[k]))
    case _ => v
  }

  /** Equality of two elements of containers. */
  predicate ItemEq(a: Value, b: Value) {
    Canon(a) == Canon(b)
  }

  /** The operator `==` applied directly to two values. */
  predicate PyEq(a: Value, b: Value) {
    !a.NaN? && ItemEq(a, b)
  }

  /** `ItemEq` is comparison as the language reference defines it: numbers by value across the
      numeric types, containers element by element and key by key, anything else by identity of
      type and content. */
  lemma ItemEqMeaning(a: Value, b: Value)
    ensures IsNumber(a) && IsNumber(b) ==> (ItemEq(a, b) <==> NumberOf(a) == NumberOf(b))
    ensures a.Arr? && b.Arr? ==>
              (ItemEq(a, b) <==>
                 |a.items| == |b.items| && forall i | 0 <= i < |a.items| :: ItemEq(a.items[i], b.items[i]))
    ensures a.Obj? && b.Obj? ==>
              (ItemEq(a, b) <==>
                 a.fields.Keys == b.fields.Keys && forall k | k in a.fields :: ItemEq(a.fields[k], b.fields[k]))
    ensures !(IsNumber(a) && IsNumber(b)) && !(a.Arr? && b.Arr?) && !(a.Obj? && b.Obj?) ==> (ItemEq(a, b) <==> a == b)
  {
    if a.Arr? && b.Arr? {
      var x, y := Canon(a).items, Canon(b).items;
      assert |x| == |a.items| && |y| == |b.items|;
      if ItemEq(a, b) {
        forall i | 0 <= i < |a.items| ensures ItemEq(a.items[i], b.items[i]) {
          assert x[i] == y[i];
        }
      }
      if |a.items| == |b.items| && forall i | 0 <= i < |a.items| :: ItemEq(a.items[i], b.items[i]) {
        assert x == y;
      }
    }
    if a.Obj? && b.Obj? {
      var x, y := Canon(a).fields, Canon(b).fields;
      assert x.Keys == a.fields.Keys && y.Keys == b.fields.Keys;
      if ItemEq(a, b) {
        forall k | k in a.fields ensures ItemEq(a.fields[k], b.fields[k]) {
          assert x[k] == y[k];
        }
      }
      if a.fields.Keys == b.fields.Keys && forall k | k in a.fields :: ItemEq(a.fields[k], b.fields[k]) {
        assert x == y;
      }
    }
  }

  /** A value equals at most one integer. */
  lemma EqualsOneInteger(v: Value, a: int, b: int)
    requires PyEq(v, Int(a)) && PyEq(v, Int(b))
    ensures a == b
  {
    assert a as real == b as real;
  }
}
