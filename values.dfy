/**
  The values a memj document holds, the document type itself, and the errors the
  store reports.

  A document is a Go `map[string]interface{}` decoded from JSON. Its values are
  null, booleans, numbers (float64, here `real`), strings, nested objects and
  arrays. Go gives a map no iteration order, but `range` over a map does visit
  its entries in SOME order, and the matcher and the update loop depend on it.
  So an object is represented here as the sequence of its entries in the order
  in which `range` visits them. A lookup takes the first entry with the key; an
  assignment replaces that entry in place or appends a new one.
 */
module Values {

  datatype Option<+T> = None | Some(value: T)

  /** The error values of memj.go, one per distinct message. */
  datatype Error =
    | NotFound               // "Not found"
    | InvalidFieldPath       // "Invalid field path"
    | InvalidLogicalSyntax   // "Logical operator query has invalid syntax.  Expected a list of queries."
    | InvalidComparisonType  // "Invalid type for comparison"
    | MismatchedTypes        // "Cannot compare values of different types"

  /** Go's `(value, error)` pairs where the value is meaningless on error. */
  datatype Result<+T> = Ok(value: T) | Err(error: Error)

  /** A JSON value as `encoding/json` decodes it into an `interface{}`. */
  datatype Value =
    | Null
    | Bool(b: bool)
    | Num(n: real)
    | Str(s: string)
    | Obj(fields: seq<(string, Value)>)
    | Arr(items: seq<Value>)

  /** A document (or any object): its entries in iteration order. */
  type Fields = seq<(string, Value)>

  /** Values Go's `==` on interfaces can compare without panicking. */
  predicate IsScalar(v: Value)
  {
    v.Null? || v.Bool? || v.Num? || v.Str?
  }

  /** The keys of an object. */
  function Keys(fs: Fields): set<string>
  {
    set i | 0 <= i < |fs| :: fs[i].0
  }

  /** No key occurs twice, as in every Go map. */
  predicate DistinctKeys(fs: Fields)
  {
    forall i, j | 0 <= i < j < |fs| :: fs[i].0 != fs[j].0
  }

  /** The position of the first entry whose key is `k`. */
  function KeyIndex(fs: Fields, k: string): (r: Option<nat>)
    ensures r.None? <==> k !in Keys(fs)
    ensures r.Some? ==> r.value < |fs| && fs[r.value].0 == k
    ensures r.Some? ==> forall i | 0 <= i < r.value :: fs[i].0 != k
  {
    if fs == [] then None
    else if fs[0].0 == k then Some(0)
    else
      var r := KeyIndex(fs[1..], k);
      assert Keys(fs) == {fs[0].0} + Keys(fs[1..]) by {
        forall x | x in Keys(fs) ensures x in {fs[0].0} + Keys(fs[1..]) {
          var i :| 0 <= i < |fs| && fs[i].0 == x;
          if i > 0 { assert fs[1..][i - 1].0 == x; }
        }
      }
      match r
      case None => None
      case Some(i) => Some(i + 1)
  }

  /** Go's `m[k]`: the value stored under `k`, or nil (`Null`) when `k` is absent. */
  function Get(fs: Fields, k: string): (r: Value)
    ensures k !in Keys(fs) ==> r == Null
    ensures DistinctKeys(fs) ==> forall i | 0 <= i < |fs| && fs[i].0 == k :: r == fs[i].1
  {
    match KeyIndex(fs, k)
    case None => Null
    case Some(i) => fs[i].1
  }

  /** Go's `m[k] = v`: overwrite the entry for `k` in place, or add it at the end. */
  function Set(fs: Fields, k: string, v: Value): (r: Fields)
    ensures Get(r, k) == v
    ensures forall j | j != k :: Get(r, j) == Get(fs, j)
    ensures Keys(r) == Keys(fs) + {k}
    ensures DistinctKeys(fs) ==> DistinctKeys(r)
    ensures |r| == if k in Keys(fs) then |fs| else |fs| + 1
  {
    match KeyIndex(fs, k)
    case Some(i) =>
      var r := fs[i := (k, v)];
      assert Keys(r) == Keys(fs) by {
        forall x | x in Keys(fs) ensures x in Keys(r) {
          var t :| 0 <= t < |fs| && fs[t].0 == x;
          assert r[t].0 == x;
        }
      }
      forall j | j != k ensures Get(r, j) == Get(fs, j) {
        KeyIndexUnderOtherKey(fs, r, j);
      }
      assert KeyIndex(r, k) == Some(i) by {
        assert r[i].0 == k;
        assert k in Keys(r);
        assert forall t | 0 <= t < i :: r[t] == fs[t];
      }
      r
    case None =>
      var r := fs + [(k, v)];
      assert Keys(r) == Keys(fs) + {k} by {
        assert r[|fs|].0 == k;
        forall x | x in Keys(fs) ensures x in Keys(r) {
          var t :| 0 <= t < |fs| && fs[t].0 == x;
          assert r[t].0 == x;
        }
      }
      forall j | j != k ensures Get(r, j) == Get(fs, j) {
        KeyIndexUnderOtherKey(fs, r, j);
      }
      assert KeyIndex(r, k) == Some(|fs|) by {
        assert forall t | 0 <= t < |fs| :: r[t] == fs[t] && fs[t].0 in Keys(fs);
        assert r[|fs|].0 == k;
      }
      r
  }

  /** Changing or adding entries whose keys are not `j` does not move `j`'s entry. */
  lemma KeyIndexUnderOtherKey(fs: Fields, r: Fields, j: string)
    requires |fs| <= |r|
    requires forall t | 0 <= t < |fs| :: fs[t].0 == j <==> r[t].0 == j
    requires forall t | 0 <= t < |fs| && fs[t].0 == j :: r[t] == fs[t]
    requires forall t | |fs| <= t < |r| :: r[t].0 != j
    ensures Get(r, j) == Get(fs, j)
  {
    match KeyIndex(fs, j)
    case Some(i) =>
      var ri := KeyIndex(r, j);
      assert ri.Some? && ri.value == i by {
        assert j in Keys(r) by { assert r[i].0 == j; }
      }
    case None =>
      assert j !in Keys(r);
  }
}
