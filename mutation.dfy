/**
  The mutation engine: what `updateFields` does to one document.

  The payload's entries are applied in `range` order. A key without a dot
  overwrites (or adds) that field; a dotted key is written on the innermost
  object of its path, every step before the last having to be an existing
  object. The first entry that fails stops the loop with "Invalid field path",
  and the entries applied before it stay applied.
 */
module Mutation {
  import opened Values
  import opened Paths

  /** One payload entry: `document[k] = v` for a plain key, the path walk for a dotted one. */
  function SetField(doc: Fields, k: string, v: Value): (r: Result<Fields>)
    ensures r == SetPath(doc, Split(k), v)
    ensures Separator !in k ==> r == Ok(Set(doc, k, v))
  {
    var parts := Split(k);
    if |parts| == 1 then Ok(Set(doc, k, v)) else SetPath(doc, parts, v)
  }

  /** The document after the payload loop, and the error that stopped it, if any. */
  datatype Applied = Applied(doc: Fields, err: Option<Error>)

  /** The loop of `updateFields` over the payload's entries, on one document. */
  function ApplyPayload(doc: Fields, payload: Fields): Applied
    decreases |payload|
  {
    if payload == [] then Applied(doc, None)
    else
      match SetField(doc, payload[0].0, payload[0].1)
      case Err(e) => Applied(doc, Some(e))
      case Ok(d) => ApplyPayload(d, payload[1..])
  }

  /**
    A failing payload leaves behind exactly the entries before the failing one
    applied: the result is the document as the first `i` entries left it, the
    `i`-th entry's path cannot be walked there, and the error is "Invalid
    field path". A payload that does not fail has every entry applied.
   */
  lemma {:induction false} ApplyPayloadOutcome(doc: Fields, payload: Fields)
    ensures var r := ApplyPayload(doc, payload);
      r.err.Some? ==>
        && r.err == Some(InvalidFieldPath)
        && exists i | 0 <= i < |payload| ::
             && ApplyPayload(doc, payload[..i]) == Applied(r.doc, None)
             && SetField(r.doc, payload[i].0, payload[i].1).Err?
    ensures var r := ApplyPayload(doc, payload);
      r.err.None? <==>
        forall i | 0 <= i < |payload| ::
          SetField(ApplyPayload(doc, payload[..i]).doc, payload[i].0, payload[i].1).Ok? &&
          ApplyPayload(doc, payload[..i]).err.None?
    decreases |payload|
  {
    if payload != [] {
      assert payload[..0] == [];
      match SetField(doc, payload[0].0, payload[0].1)
      case Err(e) =>
      case Ok(d) =>
        ApplyPayloadOutcome(d, payload[1..]);
        forall i | 0 <= i < |payload[1..]|
          ensures ApplyPayload(doc, payload[..i + 1]) == ApplyPayload(d, payload[1..][..i])
        {
          assert payload[..i + 1][1..] == payload[1..][..i];
        }
        var r := ApplyPayload(doc, payload);
        if r.err.Some? {
          var i :| 0 <= i < |payload[1..]| &&
            ApplyPayload(d, payload[1..][..i]) == Applied(r.doc, None) &&
            SetField(r.doc, payload[1..][i].0, payload[1..][i].1).Err?;
          assert ApplyPayload(doc, payload[..i + 1]) == Applied(r.doc, None);
        } else {
          forall i | 0 <= i < |payload|
            ensures SetField(ApplyPayload(doc, payload[..i]).doc, payload[i].0, payload[i].1).Ok?
            ensures ApplyPayload(doc, payload[..i]).err.None?
          {
            if i > 0 { assert payload[i] == payload[1..][i - 1]; }
          }
        }
    }
  }

  /** Every path that parts ways with all the payload's paths reads the same before and after, error or not. */
  lemma {:induction false} ApplyPayloadPreserves(doc: Fields, payload: Fields, p: seq<string>)
    requires forall j | 0 <= j < |payload| :: Diverge(p, Split(payload[j].0))
    ensures Resolve(p, ApplyPayload(doc, payload).doc) == Resolve(p, doc)
    decreases |payload|
  {
    if payload != [] {
      match SetField(doc, payload[0].0, payload[0].1)
      case Err(_) =>
      case Ok(d) =>
        assert Diverge(p, Split(payload[0].0));
        SetPathFrame(doc, Split(payload[0].0), payload[0].1, p);
        ApplyPayloadPreserves(d, payload[1..], p);
    }
  }

  /**
    After a payload that did not fail, an entry's path holds the entry's value,
    unless a later entry wrote on the same path, inside it or above it.
   */
  lemma {:induction false} ApplyPayloadWrites(doc: Fields, payload: Fields, i: nat)
    requires ApplyPayload(doc, payload).err.None?
    requires i < |payload|
    requires forall j | i < j < |payload| :: Diverge(Split(payload[i].0), Split(payload[j].0))
    ensures Resolve(Split(payload[i].0), ApplyPayload(doc, payload).doc) == payload[i].1
    decreases |payload|
  {
    var d := SetField(doc, payload[0].0, payload[0].1).value;
    if i == 0 {
      forall j | 0 <= j < |payload[1..]| ensures Diverge(Split(payload[0].0), Split(payload[1..][j].0)) {
        assert payload[1..][j] == payload[j + 1];
      }
      ApplyPayloadPreserves(d, payload[1..], Split(payload[0].0));
    } else {
      forall j | i - 1 < j < |payload[1..]| ensures Diverge(Split(payload[1..][i - 1].0), Split(payload[1..][j].0)) {
        assert payload[1..][j] == payload[j + 1];
      }
      ApplyPayloadWrites(d, payload[1..], i - 1);
    }
  }

  /** Plain keys never fail: writing a top-level field needs no walk. */
  lemma {:induction false} PlainPayloadSucceeds(doc: Fields, payload: Fields)
    requires forall j | 0 <= j < |payload| :: Separator !in payload[j].0
    ensures ApplyPayload(doc, payload).err.None?
    decreases |payload|
  {
    if payload != [] {
      PlainPayloadSucceeds(Set(doc, payload[0].0, payload[0].1), payload[1..]);
    }
  }

  /**
    A payload of plain keys (a Go map, so no key twice) never fails; afterwards
    each of its fields holds the payload's value and every other field is as
    before.
   */
  lemma PlainPayload(doc: Fields, payload: Fields)
    requires DistinctKeys(payload)
    requires forall j | 0 <= j < |payload| :: Separator !in payload[j].0
    ensures ApplyPayload(doc, payload).err.None?
    ensures forall j | 0 <= j < |payload| :: Get(ApplyPayload(doc, payload).doc, payload[j].0) == payload[j].1
    ensures forall k | k !in Keys(payload) :: Get(ApplyPayload(doc, payload).doc, k) == Get(doc, k)
  {
    PlainPayloadSucceeds(doc, payload);
    forall j | 0 <= j < |payload| ensures Get(ApplyPayload(doc, payload).doc, payload[j].0) == payload[j].1 {
      PlainEntryWritten(doc, payload, j);
    }
    forall k | k !in Keys(payload) ensures Get(ApplyPayload(doc, payload).doc, k) == Get(doc, k) {
      PlainKeyUntouched(doc, payload, k);
    }
  }

  lemma PlainEntryWritten(doc: Fields, payload: Fields, j: nat)
    requires DistinctKeys(payload) && j < |payload|
    requires forall t | 0 <= t < |payload| :: Separator !in payload[t].0
    requires ApplyPayload(doc, payload).err.None?
    ensures Get(ApplyPayload(doc, payload).doc, payload[j].0) == payload[j].1
  {
    var k := payload[j].0;
    SplitNoSeparator(k);
    forall t | j < t < |payload| ensures Diverge(Split(k), Split(payload[t].0)) {
      SplitNoSeparator(payload[t].0);
      assert Split(k)[0] != Split(payload[t].0)[0];
    }
    ApplyPayloadWrites(doc, payload, j);
  }

  lemma PlainKeyUntouched(doc: Fields, payload: Fields, k: string)
    requires k !in Keys(payload)
    requires forall t | 0 <= t < |payload| :: Separator !in payload[t].0
    ensures Get(ApplyPayload(doc, payload).doc, k) == Get(doc, k)
  {
    forall t | 0 <= t < |payload| ensures Diverge([k], Split(payload[t].0)) {
      SplitNoSeparator(payload[t].0);
      assert payload[t].0 in Keys(payload);
      assert [k][0] != Split(payload[t].0)[0];
    }
    ApplyPayloadPreserves(doc, payload, [k]);
  }

  /** One step of the payload loop: the entries from position `i` on, applied to `doc`. */
  lemma ApplyPayloadStep(doc: Fields, payload: Fields, i: nat)
    requires i < |payload|
    ensures var r := SetField(doc, payload[i].0, payload[i].1);
      ApplyPayload(doc, payload[i..]) ==
        if r.Err? then Applied(doc, Some(r.error)) else ApplyPayload(r.value, payload[i + 1..])
  {
    assert payload[i..][0] == payload[i];
    assert payload[i..][1..] == payload[i + 1..];
  }
}
