# memj in Dafny

A model of memj, an in-process document store written in Go (`memj.go`),
and proofs about it. A `MemJ` instance holds named collections. Each
collection is an insertion-ordered list of JSON documents. The store offers:

- `Insert`, which stores a document under a generated identifier, and
  `Find`, `Update` and `Delete` by that identifier;
- `FindAll`, which returns every document of a collection;
- `Query`, which scans a collection with a Mongo-style query language (literal
  equality, `$eq`/`$ne`/`$gt`/`$gte`/`$lt`/`$lte` comparisons, `$and`/`$or`,
  and dotted paths into nested documents);
- `QueryAndUpdate`, which applies a partial-update payload to every matching
  document.

The project has one Dafny module per part of the store:

- `Values` (`values.dfy`) holds JSON values and documents. A Go map's
  entries are kept as a sequence in the order `range` visits them, because
  that order decides what the matcher and the update loop do. A lookup takes
  the first entry with the key and yields `Null` (Go's nil) when there is
  none. An assignment replaces that entry or appends a new one.
- `Paths` (`paths.dfy`) holds `strings.Split`/`Join` on '.', path reading
  (`getNestedQueryValue`) and path writing (the dotted branch of
  `updateFields`).
- `Comparator` (`comparator.dfy`) holds `isComparisonOperator`,
  `performComperisonOp`, `compareFloats` and `compareStrings`.
- `Matcher` (`matcher.dfy`) holds `performMatchQuery`, `performLogicalOp`,
  `all`, `any` and `isLogicalOperator`.
- `Mutation` (`mutation.dfy`) holds what `updateFields` does to one document.
- `Collections` (`collections.dfy`) holds collection-level definitions. Each
  store method is specified by one of them: identifier lookup, the limit, the
  matches of a query, the scan of `Query`, and the update sweep of
  `QueryAndUpdate`.
- `Store` (`store.dfy`) holds the class `MemJ`. Its field
  `data: map<string, seq<Fields>>` is updated in place by methods with loops,
  and each method is proved to compute the definition in `Collections`.

Where the code does not behave as the store's intended contract describes,
the model follows the code:

- The matcher visits a query's keys in order. A `$and`/`$or` key or a
  comparison key decides the whole answer the moment it is visited, so later
  sibling keys are never checked. Only a query made purely of literal keys is
  an order-independent conjunction.
- An element of a `$and`/`$or` list that is not an object is read as a nil
  map. That is the empty query, and the empty query never matches.
- A dotted path that cannot be resolved reads as nil. So `{"a.b": null}`
  matches a document without `a`, while any non-null value does not.
- `$in` and `$nin` are not recognised as operators: a map naming them is
  not an operator map, and the code would compare it literally.
- A negative `limit` behaves like 1: the scan stops after the first match.
- `QueryAndUpdate` drops matcher errors, treating them as "no match". It
  returns the documents after their update, because Go appends the map that
  `updateFields` has just changed. A failing update keeps every update made
  before it.
- `QueryAndUpdate` takes the read lock although it writes.

## Model

| member | source | states |
|---|---|---|
| Values.Get | memj.go:205 | an absent key reads as nil; with distinct keys the value stored under the key |
| Values.Set | memj.go:115 | afterwards the key reads as the new value, every other key reads as before, the key set gains the key, distinct keys stay distinct, and the length grows only for a new key |
| Paths.Split | memj.go:187 | at least one segment, no segment holds a dot, and a single segment exactly when the key has no dot |
| Paths.JoinSplit | memj.go:112 | joining the segments of a key with '.' gives the key back |
| Paths.SplitJoin | memj.go:112 | splitting joined dot-free segments gives the segments back |
| Paths.Resolve | memj.go:382-396 | `getNestedQueryValue`; `ResolveUnwalkable`, `SetPath` and `SetPathFrame` state how it reads a path |
| Paths.SetPath | memj.go:116-128 | the write fails with "Invalid field path" exactly when some step before the last is not an object; on success the path reads as the new value, only the first segment's field changes, and the key set gains it |
| Paths.WalkableStep | memj.go:118-126 | a path of two or more segments is walkable exactly when its first step is an object in which the rest is walkable |
| Paths.SetPathFrame | memj.go:116-128 | writing one path leaves every path that parts ways with it reading as before |
| Comparator.StrLessIff | memj.go:275-296 | Go's `<` on strings is the lexicographic order: a common prefix, then a smaller character or the end of the first string |
| Comparator.StrLessTransitive | memj.go:275-296 | string order is transitive |
| Comparator.StrLessTrichotomy | memj.go:275-296 | of two different strings exactly one is before the other |
| Comparator.StringOperators | memj.go:275-296 | on strings `$gte` is `$gt` or `$eq`, `$lte` is `$lt` or `$eq`, `$ne` is not `$eq`, `$gt` is `$lt` swapped, and exactly one of `$lt`, `$eq`, `$gt` holds |
| Comparator.CompareNumbers | memj.go:251-273 | `compareFloats`; `ComparisonMeaning` states what each operator means on numbers |
| Comparator.CompareStrings | memj.go:275-297 | `compareStrings`; `StringOperators` and `ComparisonMeaning` state what each operator means on strings |
| Comparator.ComparisonOperator | memj.go:327-355 | a one-entry map naming a supported operator with a number or string operand is that operator; with another operand it is "Invalid type for comparison"; anything else, `$in` and `$nin` included, is not an operator |
| Comparator.PerformComparison | memj.go:229-249 | operands of different types are "Cannot compare values of different types", and only they are |
| Comparator.ComparisonMeaning | memj.go:229-296 | with a number or string operand the comparison succeeds exactly for a document value of the same type, and then means the ordering its operator names |
| Matcher.IsLogicalOperator | memj.go:357-362 | `$and` and `$or` are the logical keys; `DecidingKey` and `LogicalMeaning` state what they do |
| Matcher.Match | memj.go:182-227 | `performMatchQuery`; its properties are `LiteralMatch`, `LiteralMismatch`, `MatchedPrefix`, `DecidingKey`, `NestedPathQuery` and `OrderMatters` |
| Matcher.MatchFrom | memj.go:186-226 | the key loop of `performMatchQuery` from a position with the flag so far; `MatchedPrefix` and `LiteralMatch` state it |
| Matcher.Logical | memj.go:299-325 | `performLogicalOp`; its property is `LogicalMeaning` |
| Matcher.EvalList | memj.go:303-313 | the loop building the list of verdicts; its property is `EvalListMeaning` |
| Matcher.MatchItem | memj.go:305-306 | one listed query, a non-object read as the empty query; `LogicalMeaning` states it |
| Matcher.All | memj.go:364-371 | true exactly when every flag is true |
| Matcher.Any | memj.go:373-380 | true exactly when some flag is true |
| Matcher.FieldValue | memj.go:204-215 | a key without a dot is compared with the document's own field |
| Matcher.LiteralMatch | memj.go:182-227 | a query of literal keys matches exactly when it is non-empty and every key equals the document's value at that key or path, an absent value being nil |
| Matcher.LiteralOrderIndependent | memj.go:186 | for literal queries the order in which `range` visits the keys does not change the answer |
| Matcher.LiteralConjunction | memj.go:182-227 | two non-empty literal queries put together match exactly when both match |
| Matcher.ResolveUnwalkable | memj.go:382-396 | a path that steps through a non-object resolves to nil |
| Matcher.NestedPathQuery | memj.go:210-215 | a dotted key compares its value with the resolved path; an unresolvable path compares as nil and raises no error |
| Matcher.MatchedPrefix | memj.go:186-224 | matching literal keys at the front of the query only set the flag, so matching goes on from the first other key |
| Matcher.LiteralMismatch | memj.go:210-222 | after matching literal keys, a literal key whose value differs from the document's ends the match with false, whatever keys follow |
| Matcher.DecidingKey | memj.go:188-209 | after matching literal keys, a `$and`/`$or` key with no list is "invalid syntax", one with a list gives the logical operator's answer, and a comparison key gives the comparison's answer or "Invalid type for comparison" |
| Matcher.OrderMatters | memj.go:182-227 | the same two keys, visited in the two orders, give different answers on the same document |
| Matcher.EvalListMeaning | memj.go:303-313 | evaluating a `$and`/`$or` list succeeds exactly when every element matches without error, and then lists the element verdicts in order; otherwise it reports the first element's error |
| Matcher.LogicalMeaning | memj.go:299-325 | `$and` is every element matching and `$or` some element matching; the first error aborts; a non-object element is the empty query |
| Mutation.ApplyPayload | memj.go:110-131 | the payload loop on one document; its properties are `ApplyPayloadOutcome`, `ApplyPayloadPreserves`, `ApplyPayloadWrites` and `PlainPayload`, and `Store.MemJ.UpdateFields` computes it in place |
| Mutation.SetField | memj.go:112-128 | a plain key is a plain assignment, a dotted key the path write |
| Mutation.ApplyPayloadOutcome | memj.go:109-132 | a failing payload fails with "Invalid field path" at an entry whose path cannot be walked, with the entries before it applied; the payload succeeds exactly when every entry's write succeeds on the document as the entries before it left it |
| Mutation.ApplyPayloadPreserves | memj.go:109-132 | a path that parts ways with every payload key reads the same after the update |
| Mutation.ApplyPayloadWrites | memj.go:109-132 | after a successful update, an entry whose path no later entry touches reads as its value |
| Mutation.PlainPayload | memj.go:111-115 | a payload of distinct plain keys always succeeds, sets every key to its value, and leaves every other field as it was |
| Collections.IndexOf | memj.go:74-80 | the position of the first document carrying the identifier, absent exactly when none does |
| Collections.Stamp | memj.go:61 | the stored document carries the identifier and every other field of the payload |
| Collections.FindAfterInsert | memj.go:54-65 | after inserting with a fresh identifier, looking the identifier up finds the new last document |
| Collections.Remove | memj.go:141-145 | removal keeps the documents before and after the removed one, in order, and removes exactly one document |
| Collections.InsertKeepsIdsUnique | memj.go:54-65 | inserting with a fresh identifier keeps identifiers unique |
| Collections.FindAfterDelete | memj.go:135-149 | with unique identifiers, a deleted identifier is no longer found and the rest stay unique |
| Collections.VerdictAt | memj.go:162-163 | the verdict for each document is the matcher's answer on it |
| Collections.Cap | memj.go:170-175 | zero (`NoLimit`) is no cap; otherwise Go's stop test `Stops` holds after the `n`-th match exactly when `n` reaches the cap, so a positive limit is its own cap and a negative limit stops after one match |
| Collections.Take | memj.go:170-175 | the first `cap` matches, or all of them when there are fewer or no cap |
| Collections.Matching | memj.go:162-171 | the documents `Query` keeps, in collection order; its properties are `MatchingMembers` and `MatchingAppend` |
| Collections.MatchingMembers | memj.go:162-171 | every kept document has a true verdict, every document with a true verdict is kept, and exactly one document is kept per position with a true verdict |
| Collections.MatchingAppend | memj.go:162-171 | keeping the matches of a concatenation keeps the matches of each part, in order |
| Collections.MatchingCount | memj.go:170-172 | the number of matches among the first `n` documents is the number of matching positions below `n`, which is Go's counter `maxLimit` |
| Collections.MatchesGrow | memj.go:170-172 | the count of matches before a position never decreases along the collection, and goes up past a match |
| Collections.ScanWithoutErrors | memj.go:152-180 | when no document the scan reaches (fewer than `cap` matches before it, or no cap) makes the matcher fail, the scan yields the first `cap` matches in collection order; an error after the `cap`-th match is never met |
| Collections.Verdicts | memj.go:162-163 | the matcher's answer on each document, in order (see `VerdictAt`) |
| Collections.Scan | memj.go:162-179 | the `Query` loop over the verdicts; its properties are `ScanWithoutErrors`, `ScanError` and `ScanAborts` |
| Collections.ScanError | memj.go:163-175 | a failing scan reports the first matcher error, on a document it reached before stopping at its cap; any error met before the scan stops aborts it; without a cap it fails exactly when some verdict is an error |
| Collections.ScanAborts | memj.go:163-175 | an error on a document the scan reaches, with none before it, is the scan's result whatever comes after |
| Collections.Outcomes | memj.go:430 | the payload applied to each document, in order (see `OutcomeAt`) |
| Collections.OutcomeAt | memj.go:430 | each document's update outcome is the payload applied to it |
| Collections.OutcomeErrors | memj.go:122-126 | the only update error is "Invalid field path" |
| Collections.SweepShape | memj.go:426-445 | the sweep changes only matching documents, each into its updated form, and returns at most `cap` documents under a cap |
| Collections.SweepFailure | memj.go:426-435 | the sweep fails exactly when the update of some match it reaches fails; it fails at the first such match: that document keeps its partial update, every earlier match stays updated and is returned in updated form, no earlier update failed, and every later document is untouched |
| Collections.SweepResults | memj.go:426-445 | a sweep without failure returns the updated forms of the first `cap` matches |
| Collections.SweepAll | memj.go:426-445 | without failure, a document is replaced by its updated form exactly when it matches and the scan reaches it (fewer than `cap` matches before it, or no cap); every other document is kept |
| Collections.SweepFrom | memj.go:426-445 | the `QueryAndUpdate` loop from a position on; its properties are `SweepShape`, `SweepFailure`, `SweepResults` and `SweepAll` |
| Store.MemJ.constructor | memj.go:44-51 | a new store has no collections |
| Store.MemJ.Insert | memj.go:54-65 | the stamped payload is appended to the collection, which is created if needed; the identifier is returned and now finds the new document |
| Store.MemJ.Find | memj.go:68-81 | the first document carrying the identifier, or "Not found" exactly when none does |
| Store.MemJ.FindAll | memj.go:84-91 | the collection's documents, none for an unknown collection |
| Store.MemJ.UpdateFields | memj.go:109-132 | the document at the index becomes the payload applied to it, and nothing else in the store changes; the error is the payload's error |
| Store.MemJ.Update | memj.go:94-107 | "Not found" with the store unchanged when no document carries the identifier; otherwise the first such document is updated, reporting true or the update's error |
| Store.MemJ.Delete | memj.go:135-149 | "Not found" with the store unchanged, or the first document carrying the identifier removed and the rest kept in order |
| Store.MemJ.Query | memj.go:152-180 | the result is the capped scan of the collection's verdicts; when no document the scan reaches makes the matcher fail, it is the first `Cap(limit)` matching documents in collection order |
| Store.MemJ.QueryAndUpdate | memj.go:415-446 | the returned documents, error, flag and new collection are those of the update sweep over the verdicts and outcomes, whose properties are the `Sweep` lemmas |

## Left out

- Locking (`getCollectionLock`, memj.go:398-412, and the per-collection `sync.RWMutex` every method takes) is left out. The model is sequential, so concurrency and lock order are not modelled.
- Identifier generation (`uuid.New`) is left out. `Insert` takes the identifier as a parameter, with the precondition that no document of the collection carries it yet.
- Numbers are mathematical reals rather than float64, so rounding, NaN and infinities are not modelled.
- Aliasing is not modelled. Go stores the caller's payload map itself, and `Find`, `FindAll` and `Query` return the live maps; here documents are values.
- JSON decoding and the test file are left out. A document is already a decoded value.
- Store.MemJ.Query, Store.MemJ.QueryAndUpdate and the matcher functions require `SafeQuery`: every value compared literally is a scalar. Go's interface `==` panics when both sides are maps or slices, and panics are not modelled. A literal map value, a `$in`/`$nin` map among them, is therefore outside the model.
- The order in which `range` visits a map is an input, given by the order of the entry sequence, rather than a nondeterministic choice.
- One visiting order serves every call. `Collections.Verdicts` matches every document with the query's entries in the same order, and `Collections.Outcomes` applies the payload's entries to every document in the same order. Go draws a fresh order at each `range`, so in Go one `Query` can match a mixed query against different documents in different orders, and one payload such as `{"a": {}, "a.b": 1}` can succeed on one document and fail on another. The model does not capture these combinations.
- The collection-level definitions take the matcher's verdicts and the update outcomes for the original documents. Updating one document never changes another's verdict, so the sweep can precompute them.
- Comparator.StrLessIff: Go compares strings as UTF-8 bytes, while the model compares code points. The two orders agree, and that agreement is not proved here.
- The Go test file calls `Query` with two arguments. The model treats such calls as limit 0.
