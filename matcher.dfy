/**
  The query matcher: `performMatchQuery`, `performLogicalOp`, `all`, `any`
  and `isLogicalOperator`.

  A query is an object whose entries are visited in `range` order. The loop
  keeps a flag that starts false. A `$and`/`$or` key or a comparison key
  (`{"field": {"$gt": 5}}`) decides the whole result the moment it is visited;
  a literal key (`{"field": 5}` or `{"a.b": 5}`) that matches sets the flag and
  moves on, and one that does not match ends the loop with false. So the
  result depends on the visiting order unless every key is literal.
 */
module Matcher {
  import opened Values
  import opened Paths
  import opened Comparator

  const AND: string := "$and"
  const OR: string := "$or"

  /** `isLogicalOperator`. */
  predicate IsLogicalOperator(k: string)
  {
    k == OR || k == AND
  }

  /** `all`: every flag is set (true on the empty list). */
  function All(bs: seq<bool>): (r: bool)
    ensures r <==> forall i | 0 <= i < |bs| :: bs[i]
  {
    if bs == [] then true
    else if !bs[0] then false
    else
      var r := All(bs[1..]);
      assert forall i | 1 <= i < |bs| :: bs[i] == bs[1..][i - 1];
      r
  }

  /** `any`: some flag is set (false on the empty list). */
  function Any(bs: seq<bool>): (r: bool)
    ensures r <==> exists i | 0 <= i < |bs| :: bs[i]
  {
    if bs == [] then false
    else if bs[0] then true
    else
      var r := Any(bs[1..]);
      assert forall i | 1 <= i < |bs| :: bs[i] == bs[1..][i - 1];
      r
  }

  /** A one-entry map naming a comparison operator, whatever its operand. */
  predicate IsOperatorMap(v: Value)
  {
    v.Obj? && |v.fields| == 1 && IsComparisonOp(v.fields[0].0)
  }

  /**
    Queries on which Go's interface `==` never panics: every value compared
    literally is a scalar. A plain key may also hold an operator map; a
    `$and`/`$or` key may hold anything, and the objects in its list must be
    such queries in turn.
   */
  predicate SafeQuery(q: Fields)
    decreases Obj(q), 1
  {
    forall i | 0 <= i < |q| :: SafeEntry(q[i].0, q[i].1)
  }

  predicate SafeEntry(k: string, v: Value)
    decreases v, 1
  {
    if |Split(k)| == 1 && IsLogicalOperator(k) then
      v.Arr? ==> SafeItems(v.items)
    else if |Split(k)| == 1 then IsScalar(v) || IsOperatorMap(v)
    else IsScalar(v)
  }

  predicate SafeItems(items: seq<Value>)
    decreases Arr(items), 0
  {
    forall j | 0 <= j < |items| :: items[j].Obj? ==> SafeQuery(items[j].fields)
  }

  /** `performMatchQuery(query, document)`. */
  function Match(q: Fields, doc: Fields): Result<bool>
    requires SafeQuery(q)
    decreases Obj(q), 2
  {
    MatchFrom(q, 0, doc, false)
  }

  /** The loop of `performMatchQuery` from the `i`-th key on, with `found` the flag so far. */
  function MatchFrom(q: Fields, i: nat, doc: Fields, found: bool): Result<bool>
    requires i <= |q| && SafeQuery(q)
    decreases Obj(q), 1, |q| - i
  {
    if i == |q| then Ok(found)
    else
      var k, v := q[i].0, q[i].1;
      var path := Split(k);
      assert SafeEntry(k, v);
      if |path| == 1 then
        if IsLogicalOperator(k) then
          if v.Arr? then Logical(k, v.items, doc) else Err(InvalidLogicalSyntax)
        else
          match ComparisonOperator(v)
          case Err(e) => Err(e)
          case Ok(Some(c)) => PerformComparison(c.0, Get(doc, k), c.1)
          case Ok(None) => if v == Get(doc, k) then MatchFrom(q, i + 1, doc, true) else Ok(false)
      else
        if v == Resolve(path, doc) then MatchFrom(q, i + 1, doc, true) else Ok(false)
  }

  /** `performLogicalOp`: evaluate every listed query, then combine with `any` or `all`. */
  function Logical(op: string, items: seq<Value>, doc: Fields): Result<bool>
    requires SafeItems(items)
    decreases Arr(items), 2
  {
    match EvalList(items, 0, doc)
    case Err(e) => Err(e)
    case Ok(bs) => Ok(if op == OR then Any(bs) else if op == AND then All(bs) else false)
  }

  /** The loop of `performLogicalOp` that builds `opSuccessList`; the first error aborts it. */
  function EvalList(items: seq<Value>, j: nat, doc: Fields): Result<seq<bool>>
    requires j <= |items| && SafeItems(items)
    decreases Arr(items), 1, |items| - j
  {
    if j == |items| then Ok([])
    else
      match MatchItem(items[j], doc)
      case Err(e) => Err(e)
      case Ok(b) =>
        match EvalList(items, j + 1, doc)
        case Err(e) => Err(e)
        case Ok(bs) => Ok([b] + bs)
  }

  /** One listed query; an element that is not an object is read as a nil map, the empty query. */
  function MatchItem(item: Value, doc: Fields): Result<bool>
    requires item.Obj? ==> SafeQuery(item.fields)
    decreases item, 3
  {
    if item.Obj? then Match(item.fields, doc) else Ok(false)
  }

  // ---------------------------------------------------------------------------
  // The literal fragment
  // ---------------------------------------------------------------------------

  /** The value a literal key is compared with: `document[k]`, or the resolved dotted path. */
  function FieldValue(k: string, doc: Fields): (r: Value)
    ensures Separator !in k ==> r == Get(doc, k)
  {
    Resolve(Split(k), doc)
  }

  /** A key compared literally: not `$and`/`$or`, and a scalar value. */
  predicate IsLiteralEntry(e: (string, Value))
  {
    !IsLogicalOperator(e.0) && IsScalar(e.1)
  }

  predicate LiteralQuery(q: Fields)
  {
    forall i | 0 <= i < |q| :: IsLiteralEntry(q[i])
  }

  /** The literal key `e` holds of `doc`. */
  predicate Holds(e: (string, Value), doc: Fields)
  {
    e.1 == FieldValue(e.0, doc)
  }

  lemma LiteralQueryIsSafe(q: Fields)
    requires LiteralQuery(q)
    ensures SafeQuery(q)
  {
    forall i | 0 <= i < |q| ensures SafeEntry(q[i].0, q[i].1) {
      assert IsLiteralEntry(q[i]);
    }
  }

  lemma {:induction false} LiteralMatchFrom(q: Fields, i: nat, doc: Fields, found: bool)
    requires i <= |q| && LiteralQuery(q) && SafeQuery(q)
    ensures MatchFrom(q, i, doc, found) ==
      Ok((found || i < |q|) && forall j | i <= j < |q| :: Holds(q[j], doc))
    decreases |q| - i
  {
    if i < |q| {
      assert MatchFrom(q, i, doc, found) ==
        if Holds(q[i], doc) then MatchFrom(q, i + 1, doc, true) else Ok(false)
      by {
        assert IsLiteralEntry(q[i]);
        var k, v := q[i].0, q[i].1;
        if |Split(k)| == 1 {
          assert ComparisonOperator(v) == Ok(None);
          assert Get(doc, k) == FieldValue(k, doc);
        }
      }
      if Holds(q[i], doc) { LiteralMatchFrom(q, i + 1, doc, true); }
    }
  }

  /**
    A query made only of literal keys matches a document iff it is not empty
    and every key's value equals the document's value at that key or dotted
    path (an absent field or unresolved path being `Null`).
   */
  lemma LiteralMatch(q: Fields, doc: Fields)
    requires LiteralQuery(q)
    ensures SafeQuery(q)
    ensures Match(q, doc) == Ok(q != [] && forall j | 0 <= j < |q| :: Holds(q[j], doc))
  {
    LiteralQueryIsSafe(q);
    LiteralMatchFrom(q, 0, doc, false);
  }

  /** For literal queries the visiting order does not matter. */
  lemma LiteralOrderIndependent(q1: Fields, q2: Fields, doc: Fields)
    requires LiteralQuery(q1)
    requires multiset(q1) == multiset(q2)
    ensures LiteralQuery(q2) && SafeQuery(q1) && SafeQuery(q2)
    ensures Match(q1, doc) == Match(q2, doc)
  {
    forall i | 0 <= i < |q2| ensures IsLiteralEntry(q2[i]) {
      assert q2[i] in multiset(q1);
    }
    LiteralMatch(q1, doc);
    LiteralMatch(q2, doc);
    assert |q1| == |multiset(q1)| == |multiset(q2)| == |q2|;
    assert (forall j | 0 <= j < |q1| :: Holds(q1[j], doc)) <==> (forall j | 0 <= j < |q2| :: Holds(q2[j], doc)) by {
      if forall j | 0 <= j < |q1| :: Holds(q1[j], doc) {
        forall j | 0 <= j < |q2| ensures Holds(q2[j], doc) {
          assert q2[j] in multiset(q1);
        }
      }
      if forall j | 0 <= j < |q2| :: Holds(q2[j], doc) {
        forall j | 0 <= j < |q1| ensures Holds(q1[j], doc) {
          assert q1[j] in multiset(q2);
        }
      }
    }
  }

  /** Sibling literal keys combine by AND: `{a: 1, b: 2}` matches iff `{a: 1}` and `{b: 2}` both do. */
  lemma LiteralConjunction(q1: Fields, q2: Fields, doc: Fields)
    requires LiteralQuery(q1) && LiteralQuery(q2) && q1 != [] && q2 != []
    ensures LiteralQuery(q1 + q2) && SafeQuery(q1) && SafeQuery(q2) && SafeQuery(q1 + q2)
    ensures Match(q1, doc).Ok? && Match(q2, doc).Ok?
    ensures Match(q1 + q2, doc) == Ok(Match(q1, doc).value && Match(q2, doc).value)
  {
    var q := q1 + q2;
    assert forall i | 0 <= i < |q| :: q[i] == if i < |q1| then q1[i] else q2[i - |q1|];
    LiteralMatch(q1, doc);
    LiteralMatch(q2, doc);
    LiteralMatch(q, doc);
    if (forall j | 0 <= j < |q1| :: Holds(q1[j], doc)) && (forall j | 0 <= j < |q2| :: Holds(q2[j], doc)) {
      forall j | 0 <= j < |q| ensures Holds(q[j], doc) {
        if j >= |q1| { assert Holds(q2[j - |q1|], doc); }
      }
    }
    if forall j | 0 <= j < |q| :: Holds(q[j], doc) {
      forall j | 0 <= j < |q2| ensures Holds(q2[j], doc) {
        assert q[j + |q1|] == q2[j];
      }
    }
  }

  /** A dotted path whose walk meets a non-object before its last step resolves to `Null`. */
  lemma {:induction false} ResolveUnwalkable(path: seq<string>, doc: Fields)
    requires |path| >= 1 && !Walkable(path, doc)
    ensures Resolve(path, doc) == Null
  {
    var i :| 1 <= i < |path| && !Resolve(path[..i], doc).Obj?;
    var v := Get(doc, path[0]);
    assert Resolve(path[..1], doc) == v;
    if v.Obj? {
      assert i >= 2;
      assert path[..i][1..] == path[1..][..i - 1];
      assert Resolve(path[..i], doc) == Resolve(path[1..][..i - 1], v.fields);
      ResolveUnwalkable(path[1..], v.fields);
    }
  }

  /**
    A one-key dotted query `{"a.b": v}` with a scalar `v` matches iff the path
    resolves to `v`; when a step before the last is missing or not an object it
    does not match (unless `v` is `null`) and reports no error.
   */
  lemma NestedPathQuery(k: string, v: Value, doc: Fields)
    requires Separator in k && IsScalar(v)
    ensures SafeQuery([(k, v)])
    ensures Match([(k, v)], doc) == Ok(v == Resolve(Split(k), doc))
    ensures !Walkable(Split(k), doc) ==> Match([(k, v)], doc) == Ok(v == Null)
  {
    assert IsLiteralEntry((k, v));
    LiteralMatch([(k, v)], doc);
    if !Walkable(Split(k), doc) { ResolveUnwalkable(Split(k), doc); }
  }

  // ---------------------------------------------------------------------------
  // Keys that decide the whole result
  // ---------------------------------------------------------------------------

  lemma {:induction false} MatchedPrefix(q: Fields, i: nat, doc: Fields)
    requires i <= |q| && SafeQuery(q)
    requires forall j | 0 <= j < i :: IsLiteralEntry(q[j]) && Holds(q[j], doc)
    ensures Match(q, doc) == MatchFrom(q, i, doc, i > 0)
  {
    if i > 0 {
      MatchedPrefix(q, i - 1, doc);
      var k, v := q[i - 1].0, q[i - 1].1;
      assert IsLiteralEntry(q[i - 1]) && Holds(q[i - 1], doc);
      if |Split(k)| == 1 {
        assert ComparisonOperator(v) == Ok(None);
        assert Get(doc, k) == FieldValue(k, doc);
      }
    }
  }

  /**
    Once the loop reaches a `$and`/`$or` key or a comparison key, that key alone
    decides the result: the keys visited after it are never examined. A
    `$and`/`$or` value that is not a list is a syntax error; a comparison map
    whose operand is neither a number nor a string is a type error.
   */
  lemma DecidingKey(q: Fields, i: nat, doc: Fields)
    requires i < |q| && SafeQuery(q)
    requires forall j | 0 <= j < i :: IsLiteralEntry(q[j]) && Holds(q[j], doc)
    requires Separator !in q[i].0
    ensures IsLogicalOperator(q[i].0) && !q[i].1.Arr? ==>
      Match(q, doc) == Err(InvalidLogicalSyntax)
    ensures IsLogicalOperator(q[i].0) && q[i].1.Arr? ==>
      SafeItems(q[i].1.items) && Match(q, doc) == Logical(q[i].0, q[i].1.items, doc)
    ensures !IsLogicalOperator(q[i].0) && IsOperatorMap(q[i].1) ==>
      var op, operand := q[i].1.fields[0].0, q[i].1.fields[0].1;
      Match(q, doc) ==
        if operand.Num? || operand.Str? then PerformComparison(op, Get(doc, q[i].0), operand)
        else Err(InvalidComparisonType)
  {
    MatchedPrefix(q, i, doc);
    assert SafeEntry(q[i].0, q[i].1);
    if IsOperatorMap(q[i].1) {
      assert q[i].1 == Obj([q[i].1.fields[0]]);
    }
  }

  /**
    The third early exit: once the loop reaches a literal key (plain or dotted)
    whose value differs from the document's, the result is false, whatever keys
    come after it.
   */
  lemma LiteralMismatch(q: Fields, i: nat, doc: Fields)
    requires i < |q| && SafeQuery(q)
    requires forall j | 0 <= j < i :: IsLiteralEntry(q[j]) && Holds(q[j], doc)
    requires IsLiteralEntry(q[i]) && !Holds(q[i], doc)
    ensures Match(q, doc) == Ok(false)
  {
    MatchedPrefix(q, i, doc);
    var k, v := q[i].0, q[i].1;
    if |Split(k)| == 1 {
      assert ComparisonOperator(v) == Ok(None);
      assert Get(doc, k) == FieldValue(k, doc);
    }
  }

  /**
    The order dependence the early exits cause: the same two keys, visited in
    the two possible orders, give different answers for the same document.
   */
  lemma OrderMatters()
    ensures
      var greater := ("a", Obj([(GT, Num(5.0))]));
      var literal := ("b", Str("x"));
      var doc := [("a", Num(10.0)), ("b", Str("y"))];
      && SafeQuery([greater, literal]) && SafeQuery([literal, greater])
      && Match([greater, literal], doc) == Ok(true)
      && Match([literal, greater], doc) == Ok(false)
  {
    var greater := ("a", Obj([(GT, Num(5.0))]));
    var literal := ("b", Str("x"));
    var doc := [("a", Num(10.0)), ("b", Str("y"))];
    SplitNoSeparator("a");
    SplitNoSeparator("b");
    assert SafeQuery([greater, literal]) && SafeQuery([literal, greater]) by {
      assert SafeEntry(greater.0, greater.1) && SafeEntry(literal.0, literal.1);
    }
    assert Get(doc, "a") == Num(10.0) by { assert doc[0].0 == "a"; }
    assert Get(doc, "b") == Str("y") by { assert doc[1].0 == "b" && doc[0].0 != "b"; }
    assert MatchFrom([greater, literal], 0, doc, false) == Ok(true) by {
      assert ComparisonOperator(greater.1) == Ok(Some((GT, Num(5.0))));
      assert PerformComparison(GT, Num(10.0), Num(5.0)) == Ok(true);
    }
    assert MatchFrom([literal, greater], 0, doc, false) == Ok(false) by {
      assert ComparisonOperator(literal.1) == Ok(None);
    }
  }

  // ---------------------------------------------------------------------------
  // $and / $or
  // ---------------------------------------------------------------------------

  lemma {:induction false} EvalListMeaning(items: seq<Value>, j: nat, doc: Fields)
    requires j <= |items| && SafeItems(items)
    ensures EvalList(items, j, doc).Ok? <==> forall t | j <= t < |items| :: MatchItem(items[t], doc).Ok?
    ensures EvalList(items, j, doc).Ok? ==>
      var bs := EvalList(items, j, doc).value;
      |bs| == |items| - j && forall t | j <= t < |items| :: bs[t - j] == MatchItem(items[t], doc).value
    ensures EvalList(items, j, doc).Err? ==>
      exists t | j <= t < |items| ::
        && MatchItem(items[t], doc) == Err(EvalList(items, j, doc).error)
        && forall u | j <= u < t :: MatchItem(items[u], doc).Ok?
    decreases |items| - j
  {
    if j < |items| {
      EvalListMeaning(items, j + 1, doc);
      if MatchItem(items[j], doc).Err? {
        assert MatchItem(items[j], doc) == Err(EvalList(items, j, doc).error);
      } else if EvalList(items, j + 1, doc).Err? {
        var t :| j + 1 <= t < |items| &&
          MatchItem(items[t], doc) == Err(EvalList(items, j + 1, doc).error) &&
          forall u | j + 1 <= u < t :: MatchItem(items[u], doc).Ok?;
        assert forall u | j <= u < t :: MatchItem(items[u], doc).Ok?;
      }
    }
  }

  /**
    `$and` holds iff every listed query matches (true for an empty list), and
    `$or` iff some does (false for an empty list). Every listed query is
    evaluated; the first one that fails makes the whole evaluation fail with its
    error. A listed element that is not an object counts as the empty query,
    which does not match.
   */
  lemma LogicalMeaning(op: string, items: seq<Value>, doc: Fields)
    requires IsLogicalOperator(op) && SafeItems(items)
    ensures Logical(op, items, doc).Ok? <==> forall t | 0 <= t < |items| :: MatchItem(items[t], doc).Ok?
    ensures Logical(op, items, doc).Ok? && op == AND ==>
      (Logical(op, items, doc).value <==> forall t | 0 <= t < |items| :: MatchItem(items[t], doc).value)
    ensures Logical(op, items, doc).Ok? && op == OR ==>
      (Logical(op, items, doc).value <==> exists t | 0 <= t < |items| :: MatchItem(items[t], doc).value)
    ensures Logical(op, items, doc).Err? ==>
      exists t | 0 <= t < |items| ::
        && MatchItem(items[t], doc) == Err(Logical(op, items, doc).error)
        && forall u | 0 <= u < t :: MatchItem(items[u], doc).Ok?
    ensures forall t | 0 <= t < |items| && !items[t].Obj? :: MatchItem(items[t], doc) == Match([], doc)
  {
    EvalListMeaning(items, 0, doc);
    var r := EvalList(items, 0, doc);
    if r.Ok? {
      var bs := r.value;
      assert forall t | 0 <= t < |items| :: bs[t] == MatchItem(items[t], doc).value;
      if op == OR {
        if Any(bs) {
          var t :| 0 <= t < |bs| && bs[t];
          assert MatchItem(items[t], doc).value;
        }
      }
    }
  }
}
