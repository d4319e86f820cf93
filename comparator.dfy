/**
  The comparator: recognising a comparison operator map such as
  `{"$gt": 50}` (`isComparisonOperator`) and evaluating it against a document
  value (`performComperisonOp`, `compareFloats`, `compareStrings`).

  Go orders strings byte by byte on their UTF-8 encoding. Here a string is a
  sequence of Unicode code points, ordered lexicographically by `StrLess`;
  UTF-8 encoding preserves code-point order, so the two orders agree.
  Dafny's own `<` on sequences means "proper prefix", so the order is spelt out.
 */
module Comparator {
  import opened Values

  const EQ: string := "$eq"
  const GT: string := "$gt"
  const GTE: string := "$gte"
  const LT: string := "$lt"
  const LTE: string := "$lte"
  const NE: string := "$ne"
  /** Reserved in memj.go but not implemented; such maps are not operators. */
  const IN: string := "$in"
  const NIN: string := "$nin"

  /** The operator names `isComparisonOperator` recognises. */
  predicate IsComparisonOp(k: string)
  {
    k == EQ || k == GT || k == GTE || k == LT || k == LTE || k == NE
  }

  /** Lexicographic "strictly before" on strings, Go's `a < b`. */
  predicate StrLess(a: string, b: string)
  {
    if a == [] then b != []
    else if b == [] then false
    else a[0] < b[0] || (a[0] == b[0] && StrLess(a[1..], b[1..]))
  }

  /** `a` and `b` first differ at position `i`, or one ends there and is shorter. */
  predicate LessAt(a: string, b: string, i: nat)
  {
    && i <= |a| && i <= |b| && a[..i] == b[..i]
    && ((i == |a| && i < |b|) || (i < |a| && i < |b| && a[i] < b[i]))
  }

  /** `StrLess` is the textbook lexicographic order: a common prefix, then a smaller code point or the end of `a`. */
  lemma {:induction false} StrLessIff(a: string, b: string)
    ensures StrLess(a, b) <==> exists i: nat :: LessAt(a, b, i)
  {
    if a == [] || b == [] {
      if StrLess(a, b) { assert LessAt(a, b, 0); }
    } else if a[0] != b[0] {
      if StrLess(a, b) { assert LessAt(a, b, 0); }
      assert forall i: nat | 0 < i <= |a| && i <= |b| :: a[..i][0] == a[0] && b[..i][0] == b[0];
    } else {
      StrLessIff(a[1..], b[1..]);
      if StrLess(a, b) {
        var i: nat :| LessAt(a[1..], b[1..], i);
        assert a[..i + 1] == [a[0]] + a[1..][..i];
        assert b[..i + 1] == [b[0]] + b[1..][..i];
        assert LessAt(a, b, i + 1);
      }
      if i: nat :| LessAt(a, b, i) {
        assert i > 0;
        assert a[1..][..i - 1] == a[..i][1..];
        assert b[1..][..i - 1] == b[..i][1..];
        assert LessAt(a[1..], b[1..], i - 1);
      }
    }
  }

  lemma {:induction false} StrLessIrreflexive(a: string)
    ensures !StrLess(a, a)
  {
    if a != [] { StrLessIrreflexive(a[1..]); }
  }

  lemma {:induction false} StrLessTransitive(a: string, b: string, c: string)
    requires StrLess(a, b) && StrLess(b, c)
    ensures StrLess(a, c)
  {
    if a != [] && b != [] && c != [] && a[0] == b[0] == c[0] {
      StrLessTransitive(a[1..], b[1..], c[1..]);
    }
  }

  /** Of two strings, exactly one is before the other, or they are equal. */
  lemma {:induction false} StrLessTrichotomy(a: string, b: string)
    ensures StrLess(a, b) || a == b || StrLess(b, a)
    ensures !(StrLess(a, b) && StrLess(b, a))
  {
    if a != [] && b != [] && a[0] == b[0] {
      StrLessTrichotomy(a[1..], b[1..]);
      if a[1..] == b[1..] {
        assert a == [a[0]] + a[1..] && b == [b[0]] + b[1..];
      }
    }
  }

  /** `compareFloats`: unknown operators yield false. */
  function CompareNumbers(op: string, x: real, y: real): bool
  {
    if op == GT then x > y
    else if op == GTE then x >= y
    else if op == LT then x < y
    else if op == LTE then x <= y
    else if op == NE then x != y
    else if op == EQ then x == y
    else false
  }

  /** `compareStrings`: Go's `>=` on strings is "not `<`", and `<=` is "not `>`". */
  function CompareStrings(op: string, a: string, b: string): bool
  {
    if op == GT then StrLess(b, a)
    else if op == GTE then !StrLess(a, b)
    else if op == LT then StrLess(a, b)
    else if op == LTE then !StrLess(b, a)
    else if op == NE then a != b
    else if op == EQ then a == b
    else false
  }

  /**
    The six operators on strings are the orderings they name: `$gte` is `$gt`
    or `$eq`, `$lte` is `$lt` or `$eq`, `$ne` is not `$eq`, `$gt` is `$lt`
    with the operands swapped, and exactly one of `$lt`, `$eq`, `$gt` holds.
   */
  lemma StringOperators(a: string, b: string)
    ensures CompareStrings(GTE, a, b) <==> CompareStrings(GT, a, b) || CompareStrings(EQ, a, b)
    ensures CompareStrings(LTE, a, b) <==> CompareStrings(LT, a, b) || CompareStrings(EQ, a, b)
    ensures CompareStrings(NE, a, b) <==> !CompareStrings(EQ, a, b)
    ensures CompareStrings(GT, a, b) <==> CompareStrings(LT, b, a)
    ensures CompareStrings(LT, a, b) || CompareStrings(EQ, a, b) || CompareStrings(GT, a, b)
    ensures !(CompareStrings(LT, a, b) && CompareStrings(GT, a, b))
    ensures !(CompareStrings(EQ, a, b) && (CompareStrings(LT, a, b) || CompareStrings(GT, a, b)))
  {
    StrLessTrichotomy(a, b);
    StrLessIrreflexive(a);
  }

  /**
    `isComparisonOperator`: `Ok(Some((op, operand)))` when `v` is a one-entry
    map naming a supported operator with a number or string operand;
    `Err(InvalidComparisonType)` when the operator is supported but the operand
    is of another type; `Ok(None)` (not an operator map) otherwise, including
    the reserved `$in` and `$nin`.
   */
  function ComparisonOperator(v: Value): (r: Result<Option<(string, Value)>>)
    ensures r.Ok? && r.value.Some? ==>
      && v == Obj([r.value.value])
      && IsComparisonOp(r.value.value.0)
      && (r.value.value.1.Num? || r.value.value.1.Str?)
    ensures r.Err? <==> v.Obj? && |v.fields| == 1 && IsComparisonOp(v.fields[0].0)
                        && !(v.fields[0].1.Num? || v.fields[0].1.Str?)
    ensures r.Err? ==> r.error == InvalidComparisonType
    ensures r == Ok(None) <==> !(v.Obj? && |v.fields| == 1 && IsComparisonOp(v.fields[0].0))
    ensures v.Obj? && |v.fields| == 1 && (v.fields[0].0 == IN || v.fields[0].0 == NIN) ==> r == Ok(None)
  {
    match v
    case Obj(entries) =>
      if |entries| == 0 || |entries| > 1 then Ok(None)
      else
        var (k, operand) := entries[0];
        assert entries == [(k, operand)];
        if IsComparisonOp(k) then
          if operand.Num? || operand.Str? then Ok(Some((k, operand)))
          else Err(InvalidComparisonType)
        else Ok(None)
    case _ => Ok(None)
  }

  /** Go's `reflect.TypeOf(a) == reflect.TypeOf(b)` on decoded JSON values. */
  predicate SameType(a: Value, b: Value)
  {
    match (a, b)
    case (Null, Null) => true
    case (Bool(_), Bool(_)) => true
    case (Num(_), Num(_)) => true
    case (Str(_), Str(_)) => true
    case (Obj(_), Obj(_)) => true
    case (Arr(_), Arr(_)) => true
    case _ => false
  }

  /**
    `performComperisonOp(op, docValue, operand)`: operands of different types
    are an error; two strings or two numbers are compared; two values of any
    other common type compare as false.
   */
  function PerformComparison(op: string, docValue: Value, operand: Value): (r: Result<bool>)
    ensures r.Err? <==> !SameType(docValue, operand)
    ensures r.Err? ==> r.error == MismatchedTypes
  {
    if !SameType(docValue, operand) then Err(MismatchedTypes)
    else match (docValue, operand)
      case (Str(a), Str(b)) => Ok(CompareStrings(op, a, b))
      case (Num(x), Num(y)) => Ok(CompareNumbers(op, x, y))
      case _ => Ok(false)
  }

  /**
    With a number or string operand, a comparison succeeds exactly when the
    document value has the operand's type, and then means the ordering the
    operator names; an absent field (`Null`) is a type mismatch.
   */
  lemma ComparisonMeaning(op: string, docValue: Value, operand: Value)
    requires operand.Num? || operand.Str?
    ensures PerformComparison(op, docValue, operand).Ok? <==>
      (docValue.Num? && operand.Num?) || (docValue.Str? && operand.Str?)
    ensures docValue.Num? && operand.Num? ==>
      var x, y := docValue.n, operand.n;
      PerformComparison(op, docValue, operand).value ==
        ((op == GT && x > y) || (op == GTE && x >= y) || (op == LT && x < y) ||
         (op == LTE && x <= y) || (op == NE && x != y) || (op == EQ && x == y))
    ensures docValue.Str? && operand.Str? ==>
      var a, b := docValue.s, operand.s;
      PerformComparison(op, docValue, operand).value ==
        ((op == GT && StrLess(b, a)) || (op == GTE && (StrLess(b, a) || a == b)) ||
         (op == LT && StrLess(a, b)) || (op == LTE && (StrLess(a, b) || a == b)) ||
         (op == NE && a != b) || (op == EQ && a == b))
  {
    if docValue.Str? && operand.Str? {
      StringOperators(docValue.s, operand.s);
    }
  }
}
