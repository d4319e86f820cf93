/**
  The field path resolver and the dotted-path half of the mutation engine.

  A key such as "Order.OrderID" is split on '.' (Go's `strings.Split(k, ".")`)
  into the segments of a path. Reading a path (`getNestedQueryValue`) walks the
  nested objects and yields nil (`Null`) as soon as a step lands on something
  that is not an object; it never fails. Writing a path (the inner loop of
  `updateFields`) requires every step but the last to land on an existing
  object, and fails with "Invalid field path" otherwise.
 */
module Paths {
  import opened Values

  const Separator: char := '.'

  /** Go's `strings.Split(s, ".")`: the pieces between the dots, at least one. */
  function Split(s: string): (parts: seq<string>)
    ensures |parts| >= 1
    ensures forall i | 0 <= i < |parts| :: Separator !in parts[i]
    ensures |parts| == 1 <==> Separator !in s
    ensures Separator !in s ==> parts == [s]
  {
    if s == [] then [""]
    else
      var rest := Split(s[1..]);
      assert s == [s[0]] + s[1..];
      if s[0] == Separator then
        var parts := [""] + rest;
        assert parts[1..] == rest;
        parts
      else
        var parts := [[s[0]] + rest[0]] + rest[1..];
        assert forall i | 1 <= i < |parts| :: parts[i] == rest[i];
        parts
  }

  /** `strings.Join(parts, ".")`: the inverse of `Split`. */
  function Join(parts: seq<string>): string
    requires |parts| >= 1
  {
    if |parts| == 1 then parts[0] else parts[0] + [Separator] + Join(parts[1..])
  }

  /** Joining the segments gives back the key. */
  lemma {:induction false} JoinSplit(s: string)
    ensures Join(Split(s)) == s
  {
    if s != [] {
      JoinSplit(s[1..]);
      var rest := Split(s[1..]);
      assert s == [s[0]] + s[1..];
      if s[0] != Separator && |rest| > 1 {
        var parts := Split(s);
        assert parts[1..] == rest[1..];
        assert Join(rest) == rest[0] + [Separator] + Join(rest[1..]);
      } else if s[0] == Separator {
        assert Split(s)[1..] == rest;
      }
    }
  }

  /** Splitting a joined path gives back its segments, provided no segment has a dot. */
  lemma {:induction false} SplitJoin(parts: seq<string>)
    requires |parts| >= 1
    requires forall i | 0 <= i < |parts| :: Separator !in parts[i]
    ensures Split(Join(parts)) == parts
  {
    if |parts| == 1 {
      SplitNoSeparator(parts[0]);
    } else {
      SplitJoin(parts[1..]);
      SplitAfterSegment(parts[0], Join(parts[1..]));
      assert parts == [parts[0]] + parts[1..];
    }
  }

  /** A string without dots is a path of one segment. */
  lemma {:induction false} SplitNoSeparator(a: string)
    requires Separator !in a
    ensures Split(a) == [a]
  {
  }

  /** A dot after a dot-free segment starts a new segment. */
  lemma {:induction false} SplitAfterSegment(a: string, t: string)
    requires Separator !in a
    ensures Split(a + [Separator] + t) == [a] + Split(t)
  {
    var s := a + [Separator] + t;
    if a == [] {
      assert s == [Separator] + t;
      assert s[1..] == t;
    } else {
      assert s[0] == a[0];
      assert s[1..] == a[1..] + [Separator] + t;
      SplitAfterSegment(a[1..], t);
      assert [a[0]] + a[1..] == a;
    }
  }

  /**
    `getNestedQueryValue`: walk `path` through nested objects. The result is the
    value at the end of the walk, or `Null` (Go's nil) when a key is absent or a
    step before the last lands on something other than an object.
   */
  function Resolve(path: seq<string>, doc: Fields): Value
  {
    if path == [] then Null
    else
      var v := Get(doc, path[0]);
      if |path| == 1 then v
      else match v
        case Obj(sub) => Resolve(path[1..], sub)
        case _ => Null
  }

  /** Every step of `path` before the last lands on an object. */
  predicate Walkable(path: seq<string>, doc: Fields)
  {
    forall i | 1 <= i < |path| :: Resolve(path[..i], doc).Obj?
  }

  /**
    The dotted branch of `updateFields` for one payload entry: walk all but the
    last segment through existing objects, then assign the last segment on the
    innermost object. Nothing is written when a step fails.
   */
  function SetPath(doc: Fields, path: seq<string>, v: Value): (r: Result<Fields>)
    requires |path| >= 1
    ensures r.Err? ==> r.error == InvalidFieldPath
    ensures r.Ok? <==> Walkable(path, doc)
    ensures r.Ok? ==> Resolve(path, r.value) == v
    ensures r.Ok? ==> forall k | k != path[0] :: Get(r.value, k) == Get(doc, k)
    ensures r.Ok? ==> Keys(r.value) == Keys(doc) + {path[0]}
    decreases |path|
  {
    if |path| == 1 then Ok(Set(doc, path[0], v))
    else
      WalkableStep(path, doc);
      match Get(doc, path[0])
      case Obj(sub) =>
        (match SetPath(sub, path[1..], v)
         case Ok(sub') => Ok(Set(doc, path[0], Obj(sub')))
         case Err(e) => Err(e))
      case _ => Err(InvalidFieldPath)
  }

  /** A path of two or more segments is walkable iff its first step is an object in which the rest is walkable. */
  lemma WalkableStep(path: seq<string>, doc: Fields)
    requires |path| >= 2
    ensures Walkable(path, doc) <==>
      (Get(doc, path[0]).Obj? && Walkable(path[1..], Get(doc, path[0]).fields))
  {
    var v := Get(doc, path[0]);
    assert Resolve(path[..1], doc) == v;
    if v.Obj? {
      forall i | 2 <= i < |path| ensures Resolve(path[..i], doc) == Resolve(path[1..][..i - 1], v.fields) {
        assert path[..i][1..] == path[1..][..i - 1];
      }
      if Walkable(path[1..], v.fields) {
        forall i | 1 <= i < |path| ensures Resolve(path[..i], doc).Obj? {
          if i >= 2 { assert Resolve(path[1..][..i - 1], v.fields).Obj?; }
        }
      }
      if Walkable(path, doc) {
        forall i | 1 <= i < |path[1..]| ensures Resolve(path[1..][..i], v.fields).Obj? {
          assert Resolve(path[..i + 1], doc).Obj?;
        }
      }
    }
  }

  /** The paths `p` and `q` part ways at some segment. */
  predicate Diverge(p: seq<string>, q: seq<string>)
  {
    exists i | 0 <= i < |p| && i < |q| :: p[i] != q[i]
  }

  /** Writing one path leaves every path that parts ways with it as it was. */
  lemma {:induction false} SetPathFrame(doc: Fields, path: seq<string>, v: Value, p: seq<string>)
    requires |path| >= 1 && SetPath(doc, path, v).Ok?
    requires Diverge(p, path)
    ensures Resolve(p, SetPath(doc, path, v).value) == Resolve(p, doc)
    decreases |path|
  {
    var d' := SetPath(doc, path, v).value;
    if p[0] != path[0] {
      assert Get(d', p[0]) == Get(doc, p[0]);
    } else {
      var i :| 0 <= i < |p| && i < |path| && p[i] != path[i];
      assert i >= 1;
      var sub := Get(doc, path[0]).fields;
      var sub' := SetPath(sub, path[1..], v).value;
      assert Get(d', p[0]) == Obj(sub');
      assert p[1..][i - 1] != path[1..][i - 1];
      SetPathFrame(sub, path[1..], v, p[1..]);
    }
  }
}
