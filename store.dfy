/**
  The store: a `MemJ` instance holds named collections, each an ordered list
  of documents, and offers insert, find, update, delete, query and
  query-and-update on them. A collection that was never written to reads as
  empty. Each method is proved to compute the collection-level definition of
  module Collections.
 */
module Store {
  import opened Values
  import opened Paths
  import opened Matcher
  import opened Mutation
  import opened Collections

  class MemJ {
    var data: map<string, seq<Fields>>

    /** `New`: an instance with no collections. */
    constructor ()
      ensures data == map[]
    {
      data := map[];
    }

    /** The documents of `c` in insertion order; Go's nil slice for an unknown collection. */
    function Collection(c: string): seq<Fields>
      reads this
    {
      if c in data then data[c] else []
    }

    /**
      `Insert`: store the payload with its "objectid" field set to `id` at the
      end of the collection, creating the collection if needed. The identifier
      is Go's fresh UUID, passed in here; being fresh, no document holds it yet.
     */
    method Insert(c: string, payload: Fields, id: string) returns (objectId: string)
      requires Fresh(Collection(c), id)
      modifies this
      ensures objectId == id
      ensures data == old(data)[c := old(Collection(c)) + [Stamp(payload, id)]]
      ensures IndexOf(Collection(c), id) == Some(|Collection(c)| - 1)
    {
      var doc := Set(payload, ObjectIdKey, Str(id));
      FindAfterInsert(Collection(c), payload, id);
      data := data[c := Collection(c) + [doc]];
      objectId := id;
    }

    /** `Find`: the first document of `c` whose "objectid" is `id`, or "Not found". */
    method Find(c: string, id: string) returns (r: Result<Fields>)
      ensures IndexOf(Collection(c), id).None? ==> r == Err(NotFound)
      ensures IndexOf(Collection(c), id).Some? ==> r == Ok(Collection(c)[IndexOf(Collection(c), id).value])
    {
      var docs := Collection(c);
      var i := 0;
      while i < |docs|
        invariant 0 <= i <= |docs|
        invariant forall j | 0 <= j < i :: !HasId(docs[j], id)
      {
        if Get(docs[i], ObjectIdKey) == Str(id) {
          return Ok(docs[i]);
        }
        i := i + 1;
      }
      return Err(NotFound);
    }

    /** `FindAll`: every document of `c`, in insertion order (none for an unknown collection). */
    method FindAll(c: string) returns (docs: seq<Fields>)
      ensures docs == Collection(c)
      ensures c !in data ==> docs == []
    {
      docs := Collection(c);
    }

    /**
      `updateFields`: apply the payload's entries one by one to the document at
      `index`, writing each step back into the store, and stop at the first
      entry whose path cannot be walked.
     */
    method UpdateFields(c: string, index: nat, payload: Fields) returns (ok: bool, err: Option<Error>)
      requires c in data && index < |data[c]|
      modifies this
      ensures var a := ApplyPayload(old(data[c][index]), payload);
        && data == old(data)[c := old(data[c])[index := a.doc]]
        && err == a.err
        && ok == a.err.None?
    {
      ghost var store0 := data;
      ghost var docs0 := data[c];
      var document := data[c][index];
      assert docs0[index := document] == docs0;
      assert store0[c := docs0] == store0;
      var i := 0;
      while i < |payload|
        invariant 0 <= i <= |payload|
        invariant data == store0[c := docs0[index := document]]
        invariant ApplyPayload(document, payload[i..]) == ApplyPayload(docs0[index], payload)
      {
        var (k, v) := payload[i];
        ApplyPayloadStep(document, payload, i);
        var written := SetField(document, k, v);
        if written.Err? {
          return false, Some(written.error);
        }
        document := written.value;
        assert data[c := data[c][index := document]] == store0[c := docs0[index := document]] by {
          assert data[c][index := document] == docs0[index := document];
          OverwriteTwice(store0, c, data[c], docs0[index := document]);
        }
        data := data[c := data[c][index := document]];
        i := i + 1;
      }
      return true, None;
    }

    /**
      `Update`: apply the payload to the first document carrying `id`; "Not
      found" leaves the store as it was, and a failing entry leaves the entries
      before it applied.
     */
    method Update(c: string, id: string, payload: Fields) returns (r: Result<bool>)
      modifies this
      ensures IndexOf(old(Collection(c)), id).None? ==> data == old(data) && r == Err(NotFound)
      ensures IndexOf(old(Collection(c)), id).Some? ==>
        var i := IndexOf(old(Collection(c)), id).value;
        var a := ApplyPayload(old(Collection(c))[i], payload);
        && data == old(data)[c := old(Collection(c))[i := a.doc]]
        && r == (if a.err.None? then Ok(true) else Err(a.err.value))
    {
      var docs := Collection(c);
      var i := 0;
      while i < |docs|
        invariant 0 <= i <= |docs|
        invariant forall j | 0 <= j < i :: !HasId(docs[j], id)
      {
        if Get(docs[i], ObjectIdKey) == Str(id) {
          IndexOfFirst(docs, id, i);
          var ok, err := UpdateFields(c, i, payload);
          if !ok {
            return Err(err.value);
          }
          return Ok(true);
        }
        i := i + 1;
      }
      return Err(NotFound);
    }

    /** `Delete`: remove the first document carrying `id`, keeping the others in order, or report "Not found". */
    method Delete(c: string, id: string) returns (r: Result<bool>)
      modifies this
      ensures IndexOf(old(Collection(c)), id).None? ==> data == old(data) && r == Err(NotFound)
      ensures IndexOf(old(Collection(c)), id).Some? ==>
        && data == old(data)[c := Remove(old(Collection(c)), IndexOf(old(Collection(c)), id).value)]
        && r == Ok(true)
    {
      var docs := Collection(c);
      var i := 0;
      while i < |docs|
        invariant 0 <= i <= |docs|
        invariant forall j | 0 <= j < i :: !HasId(docs[j], id)
      {
        if Get(docs[i], ObjectIdKey) == Str(id) {
          data := data[c := docs[..i] + docs[i + 1..]];
          return Ok(true);
        }
        i := i + 1;
      }
      return Err(NotFound);
    }

    /**
      `Query`: the documents of `c` that `q` matches, in collection order,
      stopping after `limit` matches (0 means no limit); the first matcher error
      aborts the query. When no document the scan reaches makes the matcher
      fail (an error past the last allowed match is never met), the result is
      the first `Cap(limit)` matches (all of them for no limit).
     */
    method Query(c: string, q: Fields, limit: int) returns (r: Result<seq<Fields>>)
      requires SafeQuery(q)
      ensures r == Scan(Collection(c), Verdicts(Collection(c), q), Cap(limit))
      ensures ReachedWithoutError(Collection(c), Verdicts(Collection(c), q), Cap(limit)) ==>
        r == Ok(Take(Matching(Collection(c), Verdicts(Collection(c), q)), Cap(limit)))
    {
      var docs := Collection(c);
      ghost var vs := Verdicts(docs, q);
      ghost var cap := Cap(limit);
      var maxLimit := 0;
      var result: seq<Fields> := [];
      assert docs[0..] == docs && vs[0..] == vs;
      assert Prepend([], Scan(docs, vs, cap)) == Scan(docs, vs, cap) by {
        match Scan(docs, vs, cap)
        case Ok(t) => assert [] + t == t;
        case Err(_) =>
      }
      var i := 0;
      while i < |docs|
        invariant 0 <= i <= |docs|
        invariant limit == 0 ==> maxLimit == 0
        invariant limit != 0 ==> maxLimit == |result| < cap
        invariant Scan(docs, vs, cap) == Prepend(result, Scan(docs[i..], vs[i..], if cap == 0 then 0 else cap - |result|))
      {
        ScanStep(result, docs, vs, i, if cap == 0 then 0 else cap - |result|);
        var m := Match(q, docs[i]);
        VerdictAt(docs, q, i);
        if m.Err? {
          ScanClean(docs, vs, cap);
          return Err(m.error);
        }
        if m.value {
          result := result + [docs[i]];
          if limit != 0 {
            maxLimit := maxLimit + 1;
            if maxLimit >= limit {
              ScanClean(docs, vs, cap);
              return Ok(result);
            }
          }
        }
        i := i + 1;
      }
      assert result + [] == result;
      ScanClean(docs, vs, cap);
      return Ok(result);
    }

    /**
      `QueryAndUpdate`: scan `c` like `Query`, but treat a matcher error as no
      match, apply the payload to each matching document at once, and return
      the updated documents. The flag says whether the last update ran (and so
      whether anything was updated); a failing update stops the scan with its
      error, keeping the documents returned so far and every update already made.
     */
    method QueryAndUpdate(c: string, q: Fields, payload: Fields, limit: int)
      returns (results: seq<Fields>, updated: bool, err: Option<Error>)
      requires SafeQuery(q)
      modifies this
      ensures var s := SweepUpdate(old(Collection(c)), Verdicts(old(Collection(c)), q),
                                   Outcomes(old(Collection(c)), payload), Cap(limit));
        && results == s.results
        && err == s.err
        && updated == (s.err.None? && s.results != [])
        && data == (if c in old(data) then old(data)[c := s.docs] else old(data))
    {
      var docs := Collection(c);
      ghost var vs := Verdicts(docs, q);
      ghost var outs := Outcomes(docs, payload);
      ghost var cap := Cap(limit);
      ghost var goal := SweepUpdate(docs, vs, outs, cap);
      ghost var cur := docs;
      var maxLimit := 0;
      results := [];
      updated := false;
      err := None;
      assert data == (if c in old(data) then old(data)[c := cur] else old(data));
      var i := 0;
      while i < |docs|
        invariant 0 <= i <= |docs|
        invariant docs != [] ==> c in old(data)
        invariant data == (if c in old(data) then old(data)[c := cur] else old(data))
        invariant |cur| == |docs| && cur[i..] == docs[i..]
        invariant updated == (results != [])
        invariant limit == 0 ==> maxLimit == 0
        invariant limit != 0 ==> maxLimit == |results| < cap
        invariant goal == SweepFrom(docs, vs, outs, i, cur, results, if cap == 0 then 0 else cap - |results|)
      {
        assert cur[i] == docs[i];
        var isFound := Match(q, docs[i]) == Ok(true);
        VerdictAt(docs, q, i);
        if isFound {
          OutcomeAt(docs, payload, i);
          OverwriteTwice(old(data), c, cur, cur[i := outs[i].doc]);
          var ok, e := UpdateFields(c, i, payload);
          cur := cur[i := outs[i].doc];
          if e.Some? {
            return results, false, e;
          }
          updated := ok;
          results := results + [data[c][i]];
          if limit != 0 {
            maxLimit := maxLimit + 1;
            if maxLimit >= limit {
              return results, true, None;
            }
          }
        }
        i := i + 1;
      }
      return results, updated, None;
    }
  }

  /** Writing a collection twice leaves the second write. */
  lemma OverwriteTwice(m: map<string, seq<Fields>>, c: string, a: seq<Fields>, b: seq<Fields>)
    ensures m[c := a][c := b] == m[c := b]
  {
  }

  /** With no matcher error on a document the scan reaches, the scan of `Query` is the first `cap` matches. */
  lemma ScanClean(docs: seq<Fields>, vs: seq<Result<bool>>, cap: nat)
    requires |vs| == |docs|
    ensures ReachedWithoutError(docs, vs, cap) ==> Scan(docs, vs, cap) == Ok(Take(Matching(docs, vs), cap))
  {
    if ReachedWithoutError(docs, vs, cap) {
      ScanWithoutErrors(docs, vs, cap);
    }
  }
}
