/**
  What the store's operations do to one collection, stated on the collection's
  sequence of documents: finding a document by its identifier, removing it,
  the scan of `Query` and the scan of `QueryAndUpdate`. The store class
  (module Store) is proved to compute exactly these.
 */
module Collections {
  import opened Values
  import opened Matcher
  import opened Mutation

  /** The reserved field holding a document's identifier. */
  const ObjectIdKey: string := "objectid"

  /** Go's `value["objectid"] == objectID`: the field holds the string `id`. */
  predicate HasId(doc: Fields, id: string)
  {
    Get(doc, ObjectIdKey) == Str(id)
  }

  /** No document of the collection carries `id` yet. */
  predicate Fresh(docs: seq<Fields>, id: string)
  {
    forall i | 0 <= i < |docs| :: !HasId(docs[i], id)
  }

  /** The position of the first document carrying `id`: the scan of `Find`, `Update` and `Delete`. */
  function IndexOf(docs: seq<Fields>, id: string): (r: Option<nat>)
    ensures r.None? <==> Fresh(docs, id)
    ensures r.Some? ==> r.value < |docs| && HasId(docs[r.value], id)
    ensures r.Some? ==> forall i | 0 <= i < r.value :: !HasId(docs[i], id)
  {
    if docs == [] then None
    else if HasId(docs[0], id) then Some(0)
    else
      match IndexOf(docs[1..], id)
      case None =>
        assert forall i | 1 <= i < |docs| :: docs[i] == docs[1..][i - 1];
        None
      case Some(i) =>
        assert docs[1..][i] == docs[i + 1];
        Some(i + 1)
  }

  /** A document carrying `id` with none before it is where the scan stops. */
  lemma IndexOfFirst(docs: seq<Fields>, id: string, i: nat)
    requires i < |docs| && HasId(docs[i], id)
    requires forall j | 0 <= j < i :: !HasId(docs[j], id)
    ensures IndexOf(docs, id) == Some(i)
  {
  }

  /** The document `Insert` stores: the payload with its identifier field set. */
  function Stamp(payload: Fields, id: string): (doc: Fields)
    ensures HasId(doc, id)
    ensures forall k | k != ObjectIdKey :: Get(doc, k) == Get(payload, k)
  {
    Set(payload, ObjectIdKey, Str(id))
  }

  /** Inserting under a fresh identifier makes the new document the one `Find` returns. */
  lemma FindAfterInsert(docs: seq<Fields>, payload: Fields, id: string)
    requires Fresh(docs, id)
    ensures IndexOf(docs + [Stamp(payload, id)], id) == Some(|docs|)
  {
    var all := docs + [Stamp(payload, id)];
    assert forall i | 0 <= i < |docs| :: all[i] == docs[i];
    assert HasId(all[|docs|], id);
  }

  /** Every identifier names at most one document of the collection. */
  predicate UniqueIds(docs: seq<Fields>)
  {
    forall i, j | 0 <= i < |docs| && 0 <= j < |docs| && Get(docs[i], ObjectIdKey).Str? &&
      Get(docs[i], ObjectIdKey) == Get(docs[j], ObjectIdKey) :: i == j
  }

  /** The collection without its `i`-th document, the others in their order (Go's `append(s[:i], s[i+1:]...)`). */
  function Remove(docs: seq<Fields>, i: nat): (r: seq<Fields>)
    requires i < |docs|
    ensures |r| == |docs| - 1
    ensures forall j | 0 <= j < i :: r[j] == docs[j]
    ensures forall j | i <= j < |r| :: r[j] == docs[j + 1]
    ensures multiset(r) + multiset{docs[i]} == multiset(docs)
  {
    assert docs == docs[..i] + [docs[i]] + docs[i + 1..];
    docs[..i] + docs[i + 1..]
  }

  /** Inserting under a fresh identifier keeps identifiers unique. */
  lemma InsertKeepsIdsUnique(docs: seq<Fields>, payload: Fields, id: string)
    requires UniqueIds(docs) && Fresh(docs, id)
    ensures UniqueIds(docs + [Stamp(payload, id)])
  {
    var all := docs + [Stamp(payload, id)];
    assert forall i | 0 <= i < |docs| :: all[i] == docs[i];
    assert forall i | 0 <= i < |docs| :: Get(all[i], ObjectIdKey) != Str(id);
  }

  /** Once the only document carrying `id` is removed, `Find` no longer finds `id`. */
  lemma FindAfterDelete(docs: seq<Fields>, id: string)
    requires UniqueIds(docs) && IndexOf(docs, id).Some?
    ensures UniqueIds(Remove(docs, IndexOf(docs, id).value))
    ensures IndexOf(Remove(docs, IndexOf(docs, id).value), id) == None
  {
    var i := IndexOf(docs, id).value;
    var r := Remove(docs, i);
    forall j | 0 <= j < |r| ensures !HasId(r[j], id) {
      if j < i { assert r[j] == docs[j]; } else { assert r[j] == docs[j + 1]; }
    }
    forall a, b | 0 <= a < |r| && 0 <= b < |r| && Get(r[a], ObjectIdKey).Str? &&
      Get(r[a], ObjectIdKey) == Get(r[b], ObjectIdKey)
      ensures a == b
    {
      var a' := if a < i then a else a + 1;
      var b' := if b < i then b else b + 1;
      assert r[a] == docs[a'] && r[b] == docs[b'];
    }
  }

  // ---------------------------------------------------------------------------
  // Query
  // ---------------------------------------------------------------------------

  /** The matcher's verdict on each document of the collection, in order. */
  function Verdicts(docs: seq<Fields>, q: Fields): (vs: seq<Result<bool>>)
    requires SafeQuery(q)
    ensures |vs| == |docs|
  {
    if docs == [] then [] else [Match(q, docs[0])] + Verdicts(docs[1..], q)
  }

  /** The `i`-th verdict is the matcher's answer on the `i`-th document. */
  lemma {:induction false} VerdictAt(docs: seq<Fields>, q: Fields, i: nat)
    requires SafeQuery(q) && i < |docs|
    ensures Verdicts(docs, q)[i] == Match(q, docs[i])
  {
    if i > 0 {
      VerdictAt(docs[1..], q, i - 1);
    }
  }

  /** The `limit` of `Query` and `QueryAndUpdate` that puts no bound on the matches. */
  const NoLimit: int := 0

  /**
    Go's stopping test after a scan has kept `count` matches: with a limit, the
    counter is bumped on every match and the scan stops once it reaches the limit.
   */
  predicate Stops(count: nat, limit: int)
  {
    limit != NoLimit && count >= limit
  }

  /**
    How many matches a scan may keep: 0 for no limit. The scan stops right
    after keeping its `n`-th match exactly when `n` reaches the cap, so a
    negative limit keeps one.
   */
  function Cap(limit: int): (cap: nat)
    ensures limit == NoLimit <==> cap == 0
    ensures forall n: nat | n >= 1 :: Stops(n, limit) <==> (cap != 0 && n >= cap)
    ensures limit > 0 ==> cap == limit
    ensures limit < 0 ==> cap == 1
  {
    if limit == NoLimit then 0 else if limit < 0 then 1 else limit
  }

  /** The first `cap` elements of `s`, or all of `s` when `cap` is 0. */
  function Take(s: seq<Fields>, cap: nat): (r: seq<Fields>)
    ensures |r| == if cap == 0 || |s| <= cap then |s| else cap
    ensures r == s[..|r|]
  {
    if cap == 0 || |s| <= cap then s else s[..cap]
  }

  /** The documents whose verdict is a match, in collection order; a matcher error counts as no match. */
  function Matching(docs: seq<Fields>, vs: seq<Result<bool>>): (r: seq<Fields>)
    requires |vs| == |docs|
    ensures |r| <= |docs|
  {
    if docs == [] then [] else (if vs[0] == Ok(true) then [docs[0]] else []) + Matching(docs[1..], vs[1..])
  }

  /**
    `Matching` keeps exactly the matched documents: every document it keeps was
    matched, every matched document is kept, it keeps no document more often
    than the collection holds it, and it keeps one document per matching
    position.
   */
  lemma MatchingMembers(docs: seq<Fields>, vs: seq<Result<bool>>)
    requires |vs| == |docs|
    ensures multiset(Matching(docs, vs)) <= multiset(docs)
    ensures forall d | d in Matching(docs, vs) :: exists i | 0 <= i < |docs| :: docs[i] == d && vs[i] == Ok(true)
    ensures forall i | 0 <= i < |docs| && vs[i] == Ok(true) :: docs[i] in Matching(docs, vs)
    ensures |Matching(docs, vs)| == |set i | 0 <= i < |docs| && vs[i] == Ok(true)|
  {
    MatchingKeeps(docs, vs);
    MatchingCount(docs, vs, |docs|);
    assert docs[..|docs|] == docs && vs[..|docs|] == vs;
  }

  lemma {:induction false} MatchingKeeps(docs: seq<Fields>, vs: seq<Result<bool>>)
    requires |vs| == |docs|
    ensures multiset(Matching(docs, vs)) <= multiset(docs)
    ensures forall d | d in Matching(docs, vs) :: exists i | 0 <= i < |docs| :: docs[i] == d && vs[i] == Ok(true)
    ensures forall i | 0 <= i < |docs| && vs[i] == Ok(true) :: docs[i] in Matching(docs, vs)
  {
    if docs != [] {
      MatchingKeeps(docs[1..], vs[1..]);
      var rest := Matching(docs[1..], vs[1..]);
      assert docs == [docs[0]] + docs[1..];
      forall d | d in Matching(docs, vs) ensures exists i | 0 <= i < |docs| :: docs[i] == d && vs[i] == Ok(true) {
        if d in rest {
          var i :| 0 <= i < |docs[1..]| && docs[1..][i] == d && vs[1..][i] == Ok(true);
          assert docs[i + 1] == d && vs[i + 1] == Ok(true);
        } else {
          assert docs[0] == d && vs[0] == Ok(true);
        }
      }
      forall i | 0 <= i < |docs| && vs[i] == Ok(true) ensures docs[i] in Matching(docs, vs) {
        if i > 0 {
          assert docs[1..][i - 1] == docs[i] && vs[1..][i - 1] == vs[i];
        }
      }
    }
  }

  /** `Matching` on the suffix from `i`, one document at a time. */
  lemma MatchingStep(docs: seq<Fields>, vs: seq<Result<bool>>, i: nat)
    requires |vs| == |docs| && i < |docs|
    ensures Matching(docs[i..], vs[i..]) ==
      (if vs[i] == Ok(true) then [docs[i]] else []) + Matching(docs[i + 1..], vs[i + 1..])
  {
    assert docs[i..][1..] == docs[i + 1..] && vs[i..][1..] == vs[i + 1..];
    assert docs[i..][0] == docs[i] && vs[i..][0] == vs[i];
  }

  /** Filtering a concatenation filters each part: `Matching` keeps the order of the collection. */
  lemma {:induction false} MatchingAppend(d1: seq<Fields>, v1: seq<Result<bool>>, d2: seq<Fields>, v2: seq<Result<bool>>)
    requires |v1| == |d1| && |v2| == |d2|
    ensures Matching(d1 + d2, v1 + v2) == Matching(d1, v1) + Matching(d2, v2)
  {
    if d1 == [] {
      assert d1 + d2 == d2 && v1 + v2 == v2;
    } else {
      MatchingAppend(d1[1..], v1[1..], d2, v2);
      assert (d1 + d2)[1..] == d1[1..] + d2 && (v1 + v2)[1..] == v1[1..] + v2;
      assert (d1 + d2)[0] == d1[0] && (v1 + v2)[0] == v1[0];
    }
  }

  /** The matches among the first `j + 1` documents: those among the first `j`, then the `j`-th if it matched. */
  lemma MatchingSnoc(docs: seq<Fields>, vs: seq<Result<bool>>, j: nat)
    requires |vs| == |docs| && j < |docs|
    ensures Matching(docs[..j + 1], vs[..j + 1]) ==
      Matching(docs[..j], vs[..j]) + (if vs[j] == Ok(true) then [docs[j]] else [])
  {
    assert docs[..j + 1] == docs[..j] + [docs[j]] && vs[..j + 1] == vs[..j] + [vs[j]];
    MatchingAppend(docs[..j], vs[..j], [docs[j]], [vs[j]]);
    assert Matching([docs[j]], [vs[j]]) == (if vs[j] == Ok(true) then [docs[j]] else []) + Matching([], []);
  }

  /** Among the first `n` documents, `Matching` keeps one document per matching position. */
  lemma {:induction false} MatchingCount(docs: seq<Fields>, vs: seq<Result<bool>>, n: nat)
    requires |vs| == |docs| && n <= |docs|
    ensures |Matching(docs[..n], vs[..n])| == |set i | 0 <= i < n && vs[i] == Ok(true)|
  {
    if n > 0 {
      MatchingCount(docs, vs, n - 1);
      MatchingSnoc(docs, vs, n - 1);
      var before := set i | 0 <= i < n - 1 && vs[i] == Ok(true);
      if vs[n - 1] == Ok(true) {
        assert (set i | 0 <= i < n && vs[i] == Ok(true)) == before + {n - 1};
      } else {
        assert (set i | 0 <= i < n && vs[i] == Ok(true)) == before;
      }
    }
  }

  /**
    A scan that keeps at most `cap` matches (0: no limit) is still running when
    it comes to the `j`-th document: fewer than `cap` matches lie before it.
   */
  predicate Reaches(docs: seq<Fields>, vs: seq<Result<bool>>, cap: nat, j: nat)
    requires |vs| == |docs| && j <= |docs|
  {
    cap == 0 || |Matching(docs[..j], vs[..j])| < cap
  }

  /** There are at least as many matches before `j2` as before `j1 <= j2`, and one more past a match at `j1`. */
  lemma MatchesGrow(docs: seq<Fields>, vs: seq<Result<bool>>, j1: nat, j2: nat)
    requires |vs| == |docs| && j1 <= j2 <= |docs|
    ensures |Matching(docs[..j1], vs[..j1])| <= |Matching(docs[..j2], vs[..j2])|
    ensures j1 < j2 && vs[j1] == Ok(true) ==>
      |Matching(docs[..j1], vs[..j1])| < |Matching(docs[..j2], vs[..j2])|
  {
    assert docs[..j2] == docs[..j1] + docs[j1..j2] && vs[..j2] == vs[..j1] + vs[j1..j2];
    MatchingAppend(docs[..j1], vs[..j1], docs[j1..j2], vs[j1..j2]);
    if j1 < j2 && vs[j1] == Ok(true) {
      assert docs[j1..j2][0] == docs[j1] && vs[j1..j2][0] == vs[j1];
    }
  }

  /** `Err` propagates; otherwise `acc` goes in front. */
  function Prepend(acc: seq<Fields>, r: Result<seq<Fields>>): Result<seq<Fields>>
  {
    match r
    case Ok(s) => Ok(acc + s)
    case Err(e) => Err(e)
  }

  /**
    The scan of `Query` over the matcher's verdicts: keep matching documents in
    collection order, stop after `cap` of them (never when `cap` is 0), and
    abort on the first matcher error met before stopping.
   */
  function Scan(docs: seq<Fields>, vs: seq<Result<bool>>, cap: nat): Result<seq<Fields>>
    requires |vs| == |docs|
  {
    if docs == [] then Ok([])
    else
      match vs[0]
      case Err(e) => Err(e)
      case Ok(found) =>
        if !found then Scan(docs[1..], vs[1..], cap)
        else if cap == 1 then Ok([docs[0]])
        else Prepend([docs[0]], Scan(docs[1..], vs[1..], if cap == 0 then 0 else cap - 1))
  }

  /**
    The matches among the first `i + 1` documents: the first document if it
    matched, then the matches among the next `i`.
   */
  lemma MatchingShift(docs: seq<Fields>, vs: seq<Result<bool>>, i: nat)
    requires |vs| == |docs| && i < |docs|
    ensures Matching(docs[..i + 1], vs[..i + 1]) ==
      (if vs[0] == Ok(true) then [docs[0]] else []) + Matching(docs[1..][..i], vs[1..][..i])
  {
    assert docs[..i + 1][1..] == docs[1..][..i] && vs[..i + 1][1..] == vs[1..][..i];
    assert docs[..i + 1][0] == docs[0] && vs[..i + 1][0] == vs[0];
  }

  /**
    The scan that goes on after the first document, with the matches still
    allowed, reaches the `i`-th of the remaining documents exactly when the
    whole scan reaches the `(i + 1)`-th document.
   */
  lemma ReachesShift(docs: seq<Fields>, vs: seq<Result<bool>>, cap: nat, i: nat)
    requires |vs| == |docs| && i < |docs| - 1
    requires vs[0] != Ok(true) || cap != 1
    ensures Reaches(docs[1..], vs[1..], if vs[0] == Ok(true) && cap != 0 then cap - 1 else cap, i) <==>
      Reaches(docs, vs, cap, i + 1)
  {
    MatchingShift(docs, vs, i);
  }

  /** No document that a scan keeping at most `cap` matches reaches makes the matcher fail. */
  predicate ReachedWithoutError(docs: seq<Fields>, vs: seq<Result<bool>>, cap: nat)
    requires |vs| == |docs|
  {
    forall i | 0 <= i < |vs| && Reaches(docs, vs, cap, i) :: vs[i].Ok?
  }

  /**
    When no document the scan reaches makes the matcher fail, `Query` returns
    the matching documents in collection order: all of them with no limit,
    otherwise the first `min(cap, number of matches)`. A matcher error past the
    `cap`-th match is never met.
   */
  lemma {:induction false} ScanWithoutErrors(docs: seq<Fields>, vs: seq<Result<bool>>, cap: nat)
    requires |vs| == |docs|
    requires ReachedWithoutError(docs, vs, cap)
    ensures Scan(docs, vs, cap) == Ok(Take(Matching(docs, vs), cap))
  {
    if docs != [] {
      assert docs[..0] == [] && vs[..0] == [];
      assert Reaches(docs, vs, cap, 0);
      var m := Matching(docs[1..], vs[1..]);
      if vs[0] == Ok(true) && cap == 1 {
        assert Matching(docs, vs) == [docs[0]] + m;
      } else {
        var cap' := if vs[0] == Ok(true) && cap != 0 then cap - 1 else cap;
        forall i | 0 <= i < |vs[1..]| && Reaches(docs[1..], vs[1..], cap', i) ensures vs[1..][i].Ok? {
          ReachesShift(docs, vs, cap, i);
        }
        ScanWithoutErrors(docs[1..], vs[1..], cap');
        if vs[0] == Ok(true) {
          assert Matching(docs, vs) == [docs[0]] + m;
          TakeCons(docs[0], m, cap);
        } else {
          assert Matching(docs, vs) == [] + m == m;
        }
      }
    }
  }

  /**
    A failing `Query` reports the error of a document the scan reached: every
    document before it was evaluated without error, and fewer than `cap`
    matches lie before it. With no limit, `Query` fails exactly when some
    document makes the matcher fail.
   */
  lemma {:induction false} ScanError(docs: seq<Fields>, vs: seq<Result<bool>>, cap: nat)
    requires |vs| == |docs|
    ensures Scan(docs, vs, cap).Err? ==>
      exists i | 0 <= i < |vs| ::
        && vs[i] == Err(Scan(docs, vs, cap).error)
        && (forall j | 0 <= j < i :: vs[j].Ok?)
        && Reaches(docs, vs, cap, i)
    ensures cap == 0 ==> (Scan(docs, vs, 0).Err? <==> exists i | 0 <= i < |vs| :: vs[i].Err?)
    ensures (exists i | 0 <= i < |vs| :: vs[i].Err? && (forall j | 0 <= j < i :: vs[j].Ok?) && Reaches(docs, vs, cap, i)) ==>
      Scan(docs, vs, cap).Err?
  {
    if i :| 0 <= i < |vs| && vs[i].Err? && (forall j | 0 <= j < i :: vs[j].Ok?) && Reaches(docs, vs, cap, i) {
      ScanAborts(docs, vs, cap, i);
    }
    if docs != [] {
      assert docs[..0] == [] && vs[..0] == [];
      assert Reaches(docs, vs, cap, 0);
      assert forall i | 0 <= i < |vs[1..]| :: vs[1..][i] == vs[i + 1];
      var r := Scan(docs, vs, cap);
      if vs[0].Ok? && (vs[0] != Ok(true) || cap != 1) {
        var cap' := if vs[0] == Ok(true) && cap != 0 then cap - 1 else cap;
        ScanError(docs[1..], vs[1..], cap');
        if r.Err? {
          var i :| 0 <= i < |vs[1..]| && vs[1..][i] == Err(r.error) && (forall j | 0 <= j < i :: vs[1..][j].Ok?)
            && Reaches(docs[1..], vs[1..], cap', i);
          ReachesShift(docs, vs, cap, i);
          assert vs[i + 1] == Err(r.error);
        }
        if cap == 0 && (exists i | 0 <= i < |vs| :: vs[i].Err?) {
          var i :| 0 <= i < |vs| && vs[i].Err?;
          assert vs[1..][i - 1].Err?;
        }
      }
    }
  }

  /**
    A matcher error on a document the scan reaches, with no error before it,
    aborts `Query` with that error, whatever matches come after it.
   */
  lemma {:induction false} ScanAborts(docs: seq<Fields>, vs: seq<Result<bool>>, cap: nat, i: nat)
    requires |vs| == |docs| && i < |docs| && vs[i].Err?
    requires forall j | 0 <= j < i :: vs[j].Ok?
    requires Reaches(docs, vs, cap, i)
    ensures Scan(docs, vs, cap) == Err(vs[i].error)
  {
    if i > 0 {
      var cap' := if vs[0] == Ok(true) && cap != 0 then cap - 1 else cap;
      assert docs[..i][1..] == docs[1..][..i - 1] && vs[..i][1..] == vs[1..][..i - 1];
      assert docs[..i][0] == docs[0] && vs[..i][0] == vs[0];
      assert forall j | 0 <= j < i - 1 :: vs[1..][j] == vs[j + 1];
      ScanAborts(docs[1..], vs[1..], cap', i - 1);
    }
  }

  /** One step of the `Query` loop: the scan from position `i` after `acc` was collected. */
  lemma ScanStep(acc: seq<Fields>, docs: seq<Fields>, vs: seq<Result<bool>>, i: nat, k: nat)
    requires |vs| == |docs| && i < |docs|
    ensures Prepend(acc, Scan(docs[i..], vs[i..], k)) ==
      match vs[i]
      case Err(e) => Err(e)
      case Ok(found) =>
        if !found then Prepend(acc, Scan(docs[i + 1..], vs[i + 1..], k))
        else if k == 1 then Ok(acc + [docs[i]])
        else Prepend(acc + [docs[i]], Scan(docs[i + 1..], vs[i + 1..], if k == 0 then 0 else k - 1))
  {
    assert docs[i..][1..] == docs[i + 1..] && vs[i..][1..] == vs[i + 1..];
    assert docs[i..][0] == docs[i] && vs[i..][0] == vs[i];
    match Scan(docs[i + 1..], vs[i + 1..], if k == 0 then 0 else k - 1)
    case Ok(t) => assert acc + ([docs[i]] + t) == (acc + [docs[i]]) + t;
    case Err(_) =>
  }

  // ---------------------------------------------------------------------------
  // QueryAndUpdate
  // ---------------------------------------------------------------------------

  /** The collection after a `QueryAndUpdate` scan, the documents it returns, and its error. */
  datatype Sweep = Sweep(docs: seq<Fields>, results: seq<Fields>, err: Option<Error>)

  /** What the payload does to each document of the collection, in order. */
  function Outcomes(docs: seq<Fields>, payload: Fields): (outs: seq<Applied>)
    ensures |outs| == |docs|
  {
    if docs == [] then [] else [ApplyPayload(docs[0], payload)] + Outcomes(docs[1..], payload)
  }

  /** The `i`-th outcome is the payload applied to the `i`-th document. */
  lemma {:induction false} OutcomeAt(docs: seq<Fields>, payload: Fields, i: nat)
    requires i < |docs|
    ensures Outcomes(docs, payload)[i] == ApplyPayload(docs[i], payload)
  {
    if i > 0 {
      OutcomeAt(docs[1..], payload, i - 1);
    }
  }

  /** A payload that fails on a document fails with "Invalid field path". */
  lemma OutcomeErrors(docs: seq<Fields>, payload: Fields)
    ensures forall i | 0 <= i < |docs| ::
      Outcomes(docs, payload)[i].err.Some? ==> Outcomes(docs, payload)[i].err == Some(InvalidFieldPath)
  {
    forall i | 0 <= i < |docs|
      ensures Outcomes(docs, payload)[i].err.Some? ==> Outcomes(docs, payload)[i].err == Some(InvalidFieldPath)
    {
      OutcomeAt(docs, payload, i);
      ApplyPayloadOutcome(docs[i], payload);
    }
  }

  /** The documents as the payload leaves them. */
  function Post(outs: seq<Applied>): (r: seq<Fields>)
    ensures |r| == |outs|
    ensures forall i | 0 <= i < |outs| :: r[i] == outs[i].doc
  {
    seq(|outs|, i requires 0 <= i < |outs| => outs[i].doc)
  }

  /**
    The loop of `QueryAndUpdate` from position `i` on, given the matcher's
    verdict `vs[j]` and the payload's outcome `outs[j]` on each document, with
    `cur` the collection as updated so far, `results` the documents returned
    so far and `k` the matches still allowed (0: no limit). A matcher error
    counts as no match; a match is replaced at once by its updated form and
    returned; the scan stops after the last allowed match; a failing update
    stops it with that error, leaving the failing document as the payload
    left it.
   */
  function SweepFrom(docs: seq<Fields>, vs: seq<Result<bool>>, outs: seq<Applied>, i: nat,
                     cur: seq<Fields>, results: seq<Fields>, k: nat): Sweep
    requires |vs| == |docs| && |outs| == |docs| && |cur| == |docs| && i <= |docs|
    decreases |docs| - i
  {
    if i == |docs| then Sweep(cur, results, None)
    else if vs[i] != Ok(true) then SweepFrom(docs, vs, outs, i + 1, cur, results, k)
    else if outs[i].err.Some? then Sweep(cur[i := outs[i].doc], results, outs[i].err)
    else if k == 1 then Sweep(cur[i := outs[i].doc], results + [outs[i].doc], None)
    else SweepFrom(docs, vs, outs, i + 1, cur[i := outs[i].doc], results + [outs[i].doc], if k == 0 then 0 else k - 1)
  }

  /** The whole `QueryAndUpdate` scan over a collection, keeping at most `cap` matches (0: no limit). */
  function SweepUpdate(docs: seq<Fields>, vs: seq<Result<bool>>, outs: seq<Applied>, cap: nat): Sweep
    requires |vs| == |docs| && |outs| == |docs|
  {
    SweepFrom(docs, vs, outs, 0, docs, [], cap)
  }

  /**
    The state of the `QueryAndUpdate` loop on reaching position `i` of a scan
    that keeps at most `cap` matches: every match before `i` is updated and
    none of those updates failed, the matches before `i` are returned in their
    updated form, the scan has not stopped, and `k` matches are still allowed.
   */
  predicate Sweeping(docs: seq<Fields>, vs: seq<Result<bool>>, outs: seq<Applied>, cap: nat, i: nat,
                     cur: seq<Fields>, results: seq<Fields>, k: nat)
    requires |vs| == |docs| && |outs| == |docs| && i <= |docs|
  {
    && |cur| == |docs|
    && (forall j | 0 <= j < |docs| :: cur[j] == if j < i && vs[j] == Ok(true) then outs[j].doc else docs[j])
    && (forall j | 0 <= j < i && vs[j] == Ok(true) :: outs[j].err.None?)
    && results == Matching(Post(outs)[..i], vs[..i])
    && Reaches(docs, vs, cap, i)
    && k == if cap == 0 then 0 else cap - |Matching(docs[..i], vs[..i])|
  }

  lemma SweepStart(docs: seq<Fields>, vs: seq<Result<bool>>, outs: seq<Applied>, cap: nat)
    requires |vs| == |docs| && |outs| == |docs|
    ensures Sweeping(docs, vs, outs, cap, 0, docs, [], cap)
  {
    assert docs[..0] == [] && vs[..0] == [] && Post(outs)[..0] == [];
  }

  /** One step of the loop that neither stops nor fails keeps `Sweeping`. */
  lemma SweepingStep(docs: seq<Fields>, vs: seq<Result<bool>>, outs: seq<Applied>, cap: nat, i: nat,
                     cur: seq<Fields>, results: seq<Fields>, k: nat)
    requires |vs| == |docs| && |outs| == |docs| && i < |docs|
    requires Sweeping(docs, vs, outs, cap, i, cur, results, k)
    requires vs[i] != Ok(true) || (outs[i].err.None? && k != 1)
    ensures var hit := vs[i] == Ok(true);
      Sweeping(docs, vs, outs, cap, i + 1,
               if hit then cur[i := outs[i].doc] else cur,
               if hit then results + [outs[i].doc] else results,
               if hit && k != 0 then k - 1 else k)
  {
    MatchingSnoc(docs, vs, i);
    MatchingSnoc(Post(outs), vs, i);
  }

  /** The failing document of a failed sweep `s`, as `SweepFailure` describes it. */
  predicate FailsAt(docs: seq<Fields>, vs: seq<Result<bool>>, outs: seq<Applied>, cap: nat, s: Sweep, f: nat)
    requires |vs| == |docs| && |outs| == |docs| && f < |docs|
  {
    && |s.docs| == |docs|
    && vs[f] == Ok(true)
    && Reaches(docs, vs, cap, f)
    && outs[f] == Applied(s.docs[f], s.err)
    && (forall j | 0 <= j < f && vs[j] == Ok(true) :: outs[j].err.None?)
    && s.results == Matching(Post(outs)[..f], vs[..f])
    && (forall j | 0 <= j < |docs| :: s.docs[j] == if j < f && vs[j] == Ok(true) then outs[j].doc else if j == f then outs[f].doc else docs[j])
  }

  lemma {:induction false} SweepFromFails(docs: seq<Fields>, vs: seq<Result<bool>>, outs: seq<Applied>, cap: nat, i: nat,
                                          cur: seq<Fields>, results: seq<Fields>, k: nat)
    requires |vs| == |docs| && |outs| == |docs| && i <= |docs|
    requires Sweeping(docs, vs, outs, cap, i, cur, results, k)
    ensures var s := SweepFrom(docs, vs, outs, i, cur, results, k);
      s.err.Some? ==> exists f | i <= f < |docs| :: FailsAt(docs, vs, outs, cap, s, f)
    decreases |docs| - i
  {
    var s := SweepFrom(docs, vs, outs, i, cur, results, k);
    if i < |docs| && s.err.Some? {
      if vs[i] == Ok(true) && outs[i].err.Some? {
        assert FailsAt(docs, vs, outs, cap, s, i);
      } else {
        SweepingStep(docs, vs, outs, cap, i, cur, results, k);
        var hit := vs[i] == Ok(true);
        SweepFromFails(docs, vs, outs, cap, i + 1,
                       if hit then cur[i := outs[i].doc] else cur,
                       if hit then results + [outs[i].doc] else results,
                       if hit && k != 0 then k - 1 else k);
      }
    }
  }

  /** A scan that runs to the end has updated every match, each reached, and none of those updates failed. */
  lemma SweepEnd(docs: seq<Fields>, vs: seq<Result<bool>>, outs: seq<Applied>, cap: nat,
                 cur: seq<Fields>, results: seq<Fields>, k: nat)
    requires |vs| == |docs| && |outs| == |docs|
    requires Sweeping(docs, vs, outs, cap, |docs|, cur, results, k)
    ensures forall j | 0 <= j < |docs| ::
      cur[j] == if vs[j] == Ok(true) && Reaches(docs, vs, cap, j) then outs[j].doc else docs[j]
    ensures forall j | 0 <= j < |docs| && vs[j] == Ok(true) && Reaches(docs, vs, cap, j) :: outs[j].err.None?
  {
    forall j | 0 <= j < |docs| ensures Reaches(docs, vs, cap, j) {
      MatchesGrow(docs, vs, j, |docs|);
    }
  }

  /**
    A scan that stops at the last allowed match `i` has updated exactly the
    matches up to `i`, the ones it reached; when the update at `i` succeeds,
    no update of a reached match failed.
   */
  lemma SweepStop(docs: seq<Fields>, vs: seq<Result<bool>>, outs: seq<Applied>, cap: nat, i: nat,
                  cur: seq<Fields>, results: seq<Fields>, k: nat)
    requires |vs| == |docs| && |outs| == |docs| && i < |docs|
    requires Sweeping(docs, vs, outs, cap, i, cur, results, k)
    requires vs[i] == Ok(true) && k == 1
    ensures forall j | 0 <= j < |docs| ::
      cur[i := outs[i].doc][j] == if vs[j] == Ok(true) && Reaches(docs, vs, cap, j) then outs[j].doc else docs[j]
    ensures outs[i].err.None? ==>
      forall j | 0 <= j < |docs| && vs[j] == Ok(true) && Reaches(docs, vs, cap, j) :: outs[j].err.None?
  {
    forall j | 0 <= j < |docs|
      ensures cur[i := outs[i].doc][j] == if vs[j] == Ok(true) && Reaches(docs, vs, cap, j) then outs[j].doc else docs[j]
      ensures j > i ==> !Reaches(docs, vs, cap, j)
    {
      if j < i {
        MatchesGrow(docs, vs, j, i);
      } else if j > i {
        MatchesGrow(docs, vs, i, j);
      }
    }
  }

  lemma {:induction false} SweepFromDone(docs: seq<Fields>, vs: seq<Result<bool>>, outs: seq<Applied>, cap: nat, i: nat,
                                         cur: seq<Fields>, results: seq<Fields>, k: nat)
    requires |vs| == |docs| && |outs| == |docs| && i <= |docs|
    requires Sweeping(docs, vs, outs, cap, i, cur, results, k)
    ensures var s := SweepFrom(docs, vs, outs, i, cur, results, k);
      s.err.None? ==>
        && |s.docs| == |docs|
        && (forall j | 0 <= j < |docs| ::
             s.docs[j] == if vs[j] == Ok(true) && Reaches(docs, vs, cap, j) then outs[j].doc else docs[j])
        && (forall j | 0 <= j < |docs| && vs[j] == Ok(true) && Reaches(docs, vs, cap, j) :: outs[j].err.None?)
    decreases |docs| - i
  {
    if i == |docs| {
      SweepEnd(docs, vs, outs, cap, cur, results, k);
    } else if vs[i] != Ok(true) || (outs[i].err.None? && k != 1) {
      SweepingStep(docs, vs, outs, cap, i, cur, results, k);
      var hit := vs[i] == Ok(true);
      SweepFromDone(docs, vs, outs, cap, i + 1,
                    if hit then cur[i := outs[i].doc] else cur,
                    if hit then results + [outs[i].doc] else results,
                    if hit && k != 0 then k - 1 else k);
    } else if outs[i].err.None? {
      SweepStop(docs, vs, outs, cap, i, cur, results, k);
    }
  }

  lemma {:induction false} SweepFromShape(docs: seq<Fields>, vs: seq<Result<bool>>, outs: seq<Applied>, i: nat,
                                          cur: seq<Fields>, results: seq<Fields>, k: nat)
    requires |vs| == |docs| && |outs| == |docs| && |cur| == |docs| && i <= |docs|
    ensures var s := SweepFrom(docs, vs, outs, i, cur, results, k);
      && |s.docs| == |docs|
      && (forall j | 0 <= j < i :: s.docs[j] == cur[j])
      && (forall j | i <= j < |docs| :: s.docs[j] == cur[j] || (vs[j] == Ok(true) && s.docs[j] == outs[j].doc))
      && (k > 0 ==> |s.results| <= |results| + k)
    decreases |docs| - i
  {
    if i < |docs| && (vs[i] != Ok(true) || (outs[i].err.None? && k != 1)) {
      var cur' := if vs[i] != Ok(true) then cur else cur[i := outs[i].doc];
      var results' := if vs[i] != Ok(true) then results else results + [outs[i].doc];
      var k' := if vs[i] != Ok(true) || k == 0 then k else k - 1;
      SweepFromShape(docs, vs, outs, i + 1, cur', results', k');
    }
  }

  lemma {:induction false} SweepFromResults(docs: seq<Fields>, vs: seq<Result<bool>>, outs: seq<Applied>, i: nat,
                                            cur: seq<Fields>, results: seq<Fields>, k: nat)
    requires |vs| == |docs| && |outs| == |docs| && |cur| == |docs| && i <= |docs|
    ensures var s := SweepFrom(docs, vs, outs, i, cur, results, k);
      s.err.None? ==> s.results == results + Take(Matching(Post(outs)[i..], vs[i..]), k)
    decreases |docs| - i
  {
    var s := SweepFrom(docs, vs, outs, i, cur, results, k);
    var post := Post(outs);
    if i == |docs| {
      assert post[i..] == [] && vs[i..] == [];
      assert results + [] == results;
    } else if s.err.None? {
      MatchingStep(post, vs, i);
      var m := Matching(post[i + 1..], vs[i + 1..]);
      if vs[i] != Ok(true) {
        SweepFromResults(docs, vs, outs, i + 1, cur, results, k);
        assert [] + m == m;
      } else if k == 1 {
        assert Take([outs[i].doc] + m, 1) == [outs[i].doc];
      } else {
        var k' := if k == 0 then 0 else k - 1;
        SweepFromResults(docs, vs, outs, i + 1, cur[i := outs[i].doc], results + [outs[i].doc], k');
        TakeCons(outs[i].doc, m, k);
        assert results + [outs[i].doc] + Take(m, k') == results + ([outs[i].doc] + Take(m, k'));
      }
    }
  }

  /**
    `QueryAndUpdate` keeps the collection's length, changes no document it did
    not match (a matched one is either updated or, past the stopping point,
    left alone), and returns at most `cap` documents.
   */
  lemma SweepShape(docs: seq<Fields>, vs: seq<Result<bool>>, outs: seq<Applied>, cap: nat)
    requires |vs| == |docs| && |outs| == |docs|
    ensures var s := SweepUpdate(docs, vs, outs, cap);
      && |s.docs| == |docs|
      && (forall i | 0 <= i < |docs| :: s.docs[i] == docs[i] || (vs[i] == Ok(true) && s.docs[i] == outs[i].doc))
      && (cap > 0 ==> |s.results| <= cap)
  {
    SweepFromShape(docs, vs, outs, 0, docs, [], cap);
  }

  /**
    The scan fails exactly when the update of some match it reaches fails.
    The failing document is the first such match. It is left as the payload
    left it (the entries before the failing one applied) and the error is the
    payload's. Every match before it stays updated and is what the scan
    returns, and every document after it is untouched.
   */
  lemma SweepFailure(docs: seq<Fields>, vs: seq<Result<bool>>, outs: seq<Applied>, cap: nat)
    requires |vs| == |docs| && |outs| == |docs|
    ensures var s := SweepUpdate(docs, vs, outs, cap);
      s.err.Some? ==>
        && |s.docs| == |docs|
        && exists i | 0 <= i < |docs| ::
             && vs[i] == Ok(true)
             && Reaches(docs, vs, cap, i)
             && outs[i] == Applied(s.docs[i], s.err)
             && (forall j | 0 <= j < i && vs[j] == Ok(true) :: outs[j].err.None?)
             && s.results == Matching(Post(outs)[..i], vs[..i])
             && (forall j | 0 <= j < i :: s.docs[j] == if vs[j] == Ok(true) then outs[j].doc else docs[j])
             && s.docs[i + 1..] == docs[i + 1..]
    ensures var s := SweepUpdate(docs, vs, outs, cap);
      (exists i | 0 <= i < |docs| :: vs[i] == Ok(true) && Reaches(docs, vs, cap, i) && outs[i].err.Some?) ==>
        s.err.Some?
  {
    SweepStart(docs, vs, outs, cap);
    SweepFromFails(docs, vs, outs, cap, 0, docs, [], cap);
    SweepFromDone(docs, vs, outs, cap, 0, docs, [], cap);
    var s := SweepUpdate(docs, vs, outs, cap);
    if s.err.Some? {
      var i :| 0 <= i < |docs| && FailsAt(docs, vs, outs, cap, s, i);
      assert s.docs[i + 1..] == docs[i + 1..];
    }
  }

  /**
    A `QueryAndUpdate` whose updates all succeed returns, updated, the first
    `cap` documents the query matches (all of them with no limit).
   */
  lemma SweepResults(docs: seq<Fields>, vs: seq<Result<bool>>, outs: seq<Applied>, cap: nat)
    requires |vs| == |docs| && |outs| == |docs|
    ensures var s := SweepUpdate(docs, vs, outs, cap);
      s.err.None? ==> s.results == Take(Matching(Post(outs), vs), cap)
  {
    SweepFromResults(docs, vs, outs, 0, docs, [], cap);
    assert Post(outs)[0..] == Post(outs) && vs[0..] == vs;
  }

  lemma TakeCons(d: Fields, m: seq<Fields>, cap: nat)
    requires cap != 1
    ensures Take([d] + m, cap) == [d] + Take(m, if cap == 0 then 0 else cap - 1)
  {
    if cap > 1 && |m| + 1 > cap {
      assert ([d] + m)[..cap] == [d] + m[..cap - 1];
    }
  }

  /**
    With no failing update, the scan updates exactly the matching documents it
    reaches (every one with no limit, the first `cap` otherwise) and leaves every
    other document as it was.
   */
  lemma SweepAll(docs: seq<Fields>, vs: seq<Result<bool>>, outs: seq<Applied>, cap: nat)
    requires |vs| == |docs| && |outs| == |docs|
    ensures var s := SweepUpdate(docs, vs, outs, cap);
      s.err.None? ==>
        && |s.docs| == |docs|
        && forall i | 0 <= i < |docs| ::
             s.docs[i] == if vs[i] == Ok(true) && Reaches(docs, vs, cap, i) then outs[i].doc else docs[i]
  {
    SweepStart(docs, vs, outs, cap);
    SweepFromDone(docs, vs, outs, cap, 0, docs, [], cap);
  }
}
