# Verified core of fractalengine

A Dafny 4.11 model of the parts of fractalengine whose correctness rests on more than reading one function:
the canonical CBOR codec behind signed and hashed log entries, the frontier and transform-vector codecs built on
it, the keyed rate limiter, the scene WebSocket loop, the GPX export forest, ranged and CSV exports, and the
compare-and-swap protocol on visibility groups. `dafny verify dfyconfig.toml` checks all of it.

## How it is organised

| file | holds |
|---|---|
| `Bytes.dfy`, `KeyedSort.dfy`, `Options.dfy` | bytes, big-endian digits, the byte-lexicographic order, the sort by byte key |
| `Numerals.dfy`, `Doubles.dfy`, `Trimming.dfy`, `Picking.dfy` | decimal text, 64-bit floats with their rounding, trimming, and what is kept of a list |
| `CborValues.dfy`, `CborEncoding.dfy`, `CborParsing.dfy` | the value type, what is written, what is accepted |
| `CborInverse.dfy`, `CborTheorems.dfy`, `CborMeaning.dfy` | the inductions and the theorems about the codec |
| `CborStandard.dfy`, `CborErrors.dfy` | the codec against every encoding section 3 of RFC 8949 allows, and which input gets which error |
| `CborCodec.dfy` | the codec as it runs: an encoder appending to a buffer, a decoder moving a cursor |
| `NanoVectors.dfy`, `Frontier.dfy` | transform vectors and frontiers on top of the bytes |
| `RateLimiter.dfy` | the one-second limiter over whole request traces |
| `SceneSocket.dfy`, `SceneEvents.dfy`, `SceneRuns.dfy` | one connection's loop as a state machine, what its events alone say of it, and what all its runs keep |
| `GpxForest.dfy` | nesting flat rows under the parents they name |
| `ByteRanges.dfy`, `Csv.dfy` | ranged downloads, and CSV read back by a standard reader |
| `VisibilityGroups.dfy` | editing one group, and concurrent clients committing edits |

## What is assumed of the surroundings

- Text is a byte sequence; UTF-8 validity and Unicode NFC are two arbitrary predicates carried by `Unicode`, and every
  theorem holds for any choice of them. `Representable` records what Rust's types guarantee: lengths fit in 64 bits
  and a `String` is UTF-8.
- The entity tag is an arbitrary function of the body; it is taken to be injective only in `StitchingIsFaithful`.
- Authorization, credential checks, snapshot loads, clocks and drain order are inputs of the step that uses them.
- The database step of the group protocol stores the new registry only when the stored one equals the expected one
  (fe-database/src/handlers/visibility_groups.rs:208-280) and may refuse for reasons of its own.
- `hide` statements in proofs only keep definitions out of the solver's way.

## Where the code differs from what is said about it

- `encode_canonical_checked` is described as rejecting the two shapes whose bytes the decoder rejects
  (fe-canonical-log/src/cbor.rs:241). There is a third: nesting deeper than 128. `ExactAcceptance` gives the exact
  condition and `DeepEncodingIsRefused` a family of values that pass the check and are refused.
- The rate limiter reads its instant before it takes the lock (fe-api/src/query_guard.rs:32-33), so callers can take the
  lock out of time order. Eviction is invisible, and windows of a key are apart, exactly while that skew is below nine
  seconds (`EvictionInvisibleExactly`, `WindowsApartExactly`); "twice the limit in any second" holds exactly up to one
  nanosecond of it (`TwiceExactly`), and `SecondBound` says what holds beyond.
- A window can admit more than the limit: its 32-bit count wraps in release builds, and under a zero limit a window
  that begins by a reset lets its first request through. `WindowAdmits` gives the number admitted in every case and
  `WindowBoundExactly` when it is within the limit; `OverflowAdmitsMore` and `ZeroLimitResets` are inputs.
- A range that is not well-formed is promised the full body (fe-api/src/export.rs:519-526), but the decision looks at
  the body's length and the first position before it has read the rest. It answers 416 to a malformed header on an
  empty body, with a first position at or past the end, or with a suffix of `+0` (`RefusedExactly`), and serves part of
  the body where the only defect is a plus sign (`MalformedServedExactly`). A well-formed number of 2^64 or more is
  declined unless it need not be read (`FormSelectsItsBytes`). `PromiseKeptExactly` puts the three together;
  `MalformedRefused`, `PlusServed` and `HugeLastDeclined` are inputs.
- "After the current last" (fe-api/src/visibility.rs:161-162) fails for a defaulted order once the largest order is
  2^53 or more, but for odd multiples of two below 2^54 (`DefaultOrderExactly`, `DefaultOrderSticks`).
- The comment line of a CSV export ends at the first line break, which is the label's own if it holds one
  (`CommentSkippedExactly`).
- A connection that ends between flushes drops its pending transforms; `LossIsPending` says exactly which.

## Model

| member | source | states |
|---|---|---|
| CborTheorems.BytesAreCanonical | fe-canonical-log/src/cbor.rs:343-352 | whatever bytes decode, the value passes validation, is canonical at every level, nests at most 128 deep, and encodes back to exactly those bytes |
| CborTheorems.DecodingIsInjective | fe-canonical-log/src/cbor.rs:343-352 | no two byte strings decode to the same value |
| CborTheorems.ValueRoundTrip | fe-canonical-log/src/cbor.rs:233-352 | decoding the encoding of an encodable value within the depth limit gives its canonical form, which has the same encoding |
| CborTheorems.EncodedParses | fe-canonical-log/src/cbor.rs:283-321 | the encoding of an encodable value is read back as its canonical form at any place in any input |
| CborTheorems.ExactAcceptance | fe-canonical-log/src/cbor.rs:241-281 | the decoder accepts an encoding if and only if validation passes and the nesting fits: non-NFC text, equal encoded keys and depth are the only obstacles at any level |
| CborTheorems.AcceptedItem | fe-canonical-log/src/cbor.rs:452-541 | if an encoding is accepted in place, the value was encodable, not too deep, and exactly its bytes were consumed |
| CborTheorems.DeepEncodingIsRefused | fe-canonical-log/src/cbor.rs:241-245 | every value nested deeper than 128 arrays passes the checked encoder's validation and its bytes are refused by the decoder |
| CborStandard.EncodingIsStandard | fe-canonical-log/src/cbor.rs:283-321 | what the encoder writes is one of the definite-length encodings section 3 of RFC 8949 allows for the value: the right major type, argument and content at every level |
| CborStandard.OneEncodingAccepted | fe-canonical-log/src/cbor.rs:343-541 | of all the encodings the standard allows for a value, with heads of any width and map entries in any order, the decoder accepts exactly the one the encoder writes, and that one exactly when validation passes and the nesting fits |
| CborStandard.EncodingIsShortest | fe-canonical-log/src/cbor.rs:283-340 | no encoding the standard allows for a value is shorter than the one the encoder writes |
| CborStandard.EncodedKeysAscend | fe-canonical-log/src/cbor.rs:306-318 | the encoder writes every entry of a map once; of two different keys first the one whose bytes agree with the other up to where it ends or holds the smaller byte, and entries with equal keys in the order they had |
| CborStandard.DecodedKeysAscend | fe-canonical-log/src/cbor.rs:502-531 | whatever decodes has the encoded keys of every map, at every level, in that ascending byte order |
| CborErrors.FirstByteErrors | fe-canonical-log/src/cbor.rs:385-463 | which error an item gets for its place or its first byte: depth, end of input, cut head, indefinite length, reserved information, tag, unsupported simple value |
| CborErrors.LongHeadNamed | fe-canonical-log/src/cbor.rs:385-450 | a head that spells its argument with more bytes than needed is refused as non-minimal, with that argument, width and offset |
| CborErrors.ContentErrors | fe-canonical-log/src/cbor.rs:464-506 | which error follows a good head: negative integer out of range, declared length or count beyond the input, invalid UTF-8, text that is not NFC |
| CborErrors.BadItemNamed | fe-canonical-log/src/cbor.rs:493-501 | behind good items, an array fails with the error of its first bad item |
| CborErrors.MisplacedKeyNamed | fe-canonical-log/src/cbor.rs:507-531 | of map entries written in any order that does not ascend, the first key out of place is refused at its offset: as a duplicate if it equals the key before it, as unsorted if it precedes it |
| CborErrors.FirstObstacleNamed | fe-canonical-log/src/cbor.rs:247-275 | the check before encoding reports the first of all obstacles a full traversal meets, keys before values and entries before the duplicate test |
| Bytes.LexIsPrecedes | fe-canonical-log/src/cbor.rs:312-312 | the recursive byte order is the one without recursion: agreement up to some place, where one ends or holds the smaller byte |
| Bytes.FirstDigitCountsMost | fe-canonical-log/src/cbor.rs:331-338 | multi-byte arguments are big-endian |
| CborMeaning.EncodingIsMeaning | fe-canonical-log/src/cbor.rs:283-321 | over encodable values of any depth, equal bytes, equal canonical forms and equal meanings (same integers, same map entries in any order, at every level) coincide |
| CborMeaning.EncodingsArePrefixFree | fe-canonical-log/src/cbor.rs:283-340 | no encoding is a proper prefix of another |
| CborMeaning.TrailingBytesRejected | fe-canonical-log/src/cbor.rs:343-352 | accepted bytes followed by anything are rejected with the exact count of extra bytes |
| CborMeaning.StrictPrefixRejected | fe-canonical-log/src/cbor.rs:360-383 | every strict prefix of accepted bytes is rejected because the input ran out, never for another reason |
| CborMeaning.RejectionLocated | fe-canonical-log/src/cbor.rs:30-135 | every rejection counts trailing bytes or names an offset inside the input |
| CborMeaning.MeaningFixesBytes | fe-canonical-log/src/cbor.rs:306-318 | reordering map entries or spelling a non-negative integer either way, at any level, leaves the bytes unchanged |
| CborMeaning.CanonFixesMeaning | fe-canonical-log/src/cbor.rs:283-321 | values with one canonical form mean the same |
| CborInverse.ItemSound | fe-canonical-log/src/cbor.rs:452-541 | an accepted item is canonical, within depth, and encodes to the bytes consumed |
| CborInverse.ItemComplete | fe-canonical-log/src/cbor.rs:452-541 | a canonical value within depth is read back unchanged wherever its encoding stands |
| CborInverse.EntriesSound | fe-canonical-log/src/cbor.rs:502-531 | accepted map entries have strictly ascending key bytes after the previous key |
| CborInverse.HeadSound | fe-canonical-log/src/cbor.rs:385-450 | an accepted head is the encoder's head for the argument it yields |
| CborInverse.HeadComplete | fe-canonical-log/src/cbor.rs:323-340 | the encoder's head is accepted and yields its argument |
| CborInverse.HeadShortest | fe-canonical-log/src/cbor.rs:323-340 | the encoder's head spells its argument, and no other head that does is as short |
| CborInverse.HeadUnique | fe-canonical-log/src/cbor.rs:385-450 | of all heads that spell an argument the decoder accepts exactly the encoder's |
| CborEncoding.ValidateExact | fe-canonical-log/src/cbor.rs:247-275 | validation accepts exactly the values with NFC text and distinct encoded keys at every level |
| CborEncoding.NeighboursAreDuplicates | fe-canonical-log/src/cbor.rs:267-270 | scanning neighbours of the sorted keys finds a duplicate if and only if there is one |
| CborEncoding.CanonSameBytes | fe-canonical-log/src/cbor.rs:283-321 | canonicalising never changes the bytes |
| CborEncoding.CanonIsCanonical | fe-canonical-log/src/cbor.rs:283-321 | the canonical form of an encodable value is one the decoder can return, no deeper than the value |
| CborEncoding.CanonicalIsEncodable | fe-canonical-log/src/cbor.rs:247-275 | a canonical value passes validation and is its own canonical form |
| CborCodec.EncodeArgumentInto | fe-canonical-log/src/cbor.rs:323-340 | appends the shortest head and leaves what was there before |
| CborCodec.EncodeInto | fe-canonical-log/src/cbor.rs:283-321 | appends exactly the encoding of the value |
| CborCodec.EncodeItem | fe-canonical-log/src/cbor.rs:277-281 | returns the encoding of the value |
| CborCodec.ValidateEncodable | fe-canonical-log/src/cbor.rs:248-275 | reports the first obstacle in traversal order, or none |
| CborCodec.EncodeCanonicalChecked | fe-canonical-log/src/cbor.rs:242-245 | succeeds exactly on encodable values, with their encoding, and fails with one of the two value errors |
| CborCodec.Decoder.ReadFixed | fe-canonical-log/src/cbor.rs:360-372 | reads in range and advances, or reports how many bytes are missing and stays |
| CborCodec.Decoder.TakeDeclared | fe-canonical-log/src/cbor.rs:374-383 | takes the declared bytes or rejects a length beyond the input |
| CborCodec.Decoder.ReadArgumentAt | fe-canonical-log/src/cbor.rs:385-450 | yields the argument and position of the specification, or its error |
| CborCodec.Decoder.IsImpossibleContainer | fe-canonical-log/src/cbor.rs:544-558 | detects an item count that cannot fit, so a reservation never exceeds the remaining input |
| CborCodec.Decoder.DecodeItem | fe-canonical-log/src/cbor.rs:452-541 | agrees with the specification in value, position and error, consumes at least a byte per item, reserves exactly the elements of what it accepts, and bounds what a failing run reserved |
| CborCodec.Decoder.DecodeItems | fe-canonical-log/src/cbor.rs:493-501 | the array loop agrees with the specification and its reservation bound |
| CborCodec.Decoder.DecodeEntries | fe-canonical-log/src/cbor.rs:502-531 | the map loop agrees with the specification, including key order errors, and its reservation bound |
| CborCodec.DecodeCanonical | fe-canonical-log/src/cbor.rs:343-352 | decodes as specified; reserves exactly the elements of what it accepts, fewer than the input has bytes, and at most 130 times as many on any run |
| NanoVectors.FromCbor | fe-canonical-log/src/units_codec.rs:43-55 | returns the three axes in order, or the first complaint: not an array, wrong length, first non-`i64` axis |
| NanoVectors.ReadsUnique | fe-canonical-log/src/units_codec.rs:43-55 | every value has exactly one such reading |
| NanoVectors.VectorBytes | fe-canonical-log/src/units_codec.rs:31-41 | a vector's bytes are the head of an array of three, then the integers x, y and z in this order |
| NanoVectors.IntegerRead | fe-canonical-log/src/cbor.rs:165-172 | an axis is read from either integer variant, exactly when it fits in 64 signed bits |
| NanoVectors.VectorRoundTrip | fe-canonical-log/src/units_codec.rs:31-55 | every `i64` triple survives vector, value, bytes, value, vector |
| NanoVectors.VectorBytesReproduced | fe-canonical-log/src/units_codec.rs:31-55 | bytes that decode to a vector are exactly the bytes that vector encodes to |
| Frontier.TryNew | fe-canonical-log/src/frontier.rs:30-42 | a permutation of the input in ascending byte order, or empty, or the repeated ID that precedes every other repeated one |
| Frontier.OutcomeIgnoresOrder | fe-canonical-log/src/frontier.rs:29-42 | the outcome, including which duplicate is named, is the same for every ordering of the input |
| Frontier.SucceedsExactly | fe-canonical-log/src/frontier.rs:29-42 | success exactly on non-empty inputs without duplicates, with the same members |
| Frontier.FeedHasher | fe-canonical-log/src/frontier.rs:60-66 | the hasher is fed the IDs one after another, the one at place `i` at bytes `32 i` to `32 i + 32` |
| Frontier.CommitmentFixesSet | fe-canonical-log/src/frontier.rs:60-66 | two frontiers feed the hasher the same bytes if and only if they are the same set |
| RateLimiter.Limiter.Check | fe-api/src/query_guard.rs:26-49 | sweeps, resets or counts, decides, and leaves only entries younger than ten seconds |
| RateLimiter.EvictionInvisible | fe-api/src/query_guard.rs:35-36 | whenever instants are out of lock order by less than nine seconds, a request with a positive limit gets the same decision as from a table that never evicts |
| RateLimiter.EvictionInvisibleExactly | fe-api/src/query_guard.rs:35-48 | for a common limit and a given skew, eviction is invisible on all traces if and only if the limit is positive and the skew below nine seconds, or the limit is the largest there is |
| RateLimiter.FirstWindow | fe-api/src/query_guard.rs:38-38 | a key's first request opens a window at its instant with count one |
| RateLimiter.NextWindow | fe-api/src/query_guard.rs:39-43 | a later request opens a new window exactly when it comes more than a second after the start of the last one, and otherwise is counted in it |
| RateLimiter.WindowsApart | fe-api/src/query_guard.rs:38-41 | windows of one key coincide or start more than a second apart, in lock order |
| RateLimiter.WindowsApartExactly | fe-api/src/query_guard.rs:35-41 | windows are apart on all traces of a given skew if and only if it is below nine seconds |
| RateLimiter.CountIsRank | fe-api/src/query_guard.rs:42-43 | a window's count is the number of its requests so far modulo 2^32 |
| RateLimiter.AdmittedExactly | fe-api/src/query_guard.rs:38-48 | a request is admitted exactly when its count is within the limit or it resets an older entry no instant since has swept |
| RateLimiter.WindowAdmits | fe-api/src/query_guard.rs:38-48 | exactly how many requests a window admits, for every limit including zero and any number of requests, with the count wrapping at 2^32 |
| RateLimiter.WindowBoundExactly | fe-api/src/query_guard.rs:38-48 | a window stays within its limit if and only if it receives fewer than 2^32 requests and, under a zero limit, did not begin by a reset |
| RateLimiter.SecondBound | fe-api/src/query_guard.rs:38-48 | any closed second admits at most the limit for each window that can reach into it, a number fixed by the skew |
| RateLimiter.TwiceExactly | fe-api/src/query_guard.rs:32-48 | twice the limit bounds every closed second of every trace of a given skew if and only if the skew is at most one nanosecond |
| RateLimiter.OverflowAdmitsMore | fe-api/src/query_guard.rs:43-44 | for every limit, 2^32 requests at one instant admit more than the limit |
| RateLimiter.ZeroLimitResets | fe-api/src/query_guard.rs:39-41 | under a zero limit, a request just over a second after the first is let through |
| SceneSocket.Connection.HandleCommand | fe-api/src/ws.rs:222-361 | one client command changes the loop variables and the log as specified |
| SceneSocket.Connection.SendSceneSnapshots | fe-api/src/ws.rs:638-668 | loads all petals in ascending order before sending; a failed load changes nothing |
| SceneSocket.Connection.Flush | fe-api/src/ws.rs:453-465 | drains the debounce map into persist commands |
| SceneSocket.Connection.Turn | fe-api/src/ws.rs:215-468 | one turn of the loop is one step of the state machine |
| SceneEvents.OpenExactly | fe-api/src/ws.rs:215-468 | the loop runs exactly until the first lapsed credential, closed feed, disconnect, or accepted move whose credential has lapsed |
| SceneEvents.SubscribedExactly | fe-api/src/ws.rs:223-344 | from the events alone, a petal is subscribed exactly when a subscription to it took effect and since then it was not unsubscribed, failed to load, or lost to a lag that could not be made up |
| SceneEvents.CommandAnswered | fe-api/src/ws.rs:222-361 | what each command adds to the log: a scene subscription that loads its snapshot with the next version, a failed one a resync notice, an accepted move nothing, the rest one reply |
| SceneEvents.LagAnswered | fe-api/src/ws.rs:638-693 | what a lag adds to the log: one snapshot per subscribed petal in ascending byte order with consecutive versions, up to the first refused; notices after that or when a load fails |
| SceneRuns.VersionsAscend | fe-api/src/ws.rs:317-344 | on every run the versions sent ascend strictly and never pass the counter |
| SceneRuns.VersionsAccounted | fe-api/src/ws.rs:317-344 | on every run the counter is the number of versions sent plus the number of version-bearing sends refused, by the events alone |
| SceneRuns.VersionsHaveNoGap | fe-api/src/ws.rs:424-429 | the versions sent are 1, 2, 3 and so on up to the counter if and only if no version-bearing send was refused |
| SceneRuns.FreshSnapshotAfterLag | fe-api/src/ws.rs:383-449 | a petal still subscribed after a lag has a snapshot of the nodes read then before any later message in the log |
| SceneRuns.OnlyAuthorizedPetals | fe-api/src/ws.rs:223-238 | on every run only petals from an authorized subscription are subscribed, and no scene message names another |
| SceneRuns.UnsubscribeSilences | fe-api/src/ws.rs:239-243 | after an unsubscription no scene message names the petal until it is subscribed again |
| SceneRuns.FailedLoadSilences | fe-api/src/ws.rs:332-340 | a failed snapshot load consumes no version and sends only a resync notice, and its petals are not mentioned again until they are subscribed again |
| SceneRuns.LapsedCredentialEndsRun | fe-api/src/ws.rs:219-221 | a credential that has lapsed when a turn starts ends the run: one notice, and nothing changes after it |
| SceneRuns.EveryChangeRelayed | fe-api/src/ws.rs:363-431 | on every run the deltas, moves and rollbacks in the log are exactly what the feeds brought for petals subscribed, by the events alone, at that moment, in order, less those whose credential check at sending failed |
| SceneRuns.DebounceRefines | fe-api/src/ws.rs:301-315 | at every point, the store overlaid with what is pending equals the store of immediate persistence, computed from the events alone |
| SceneRuns.FlushCatchesUp | fe-api/src/ws.rs:452-465 | after every flush, in any drain order, the two stores are equal |
| SceneRuns.LossIsPending | fe-api/src/ws.rs:208-213 | the stores differ exactly by pending transforms the store does not already hold |
| GpxForest.Pending.AttachChildren | fe-api/src/gpx.rs:284-294 | takes the node's children out of the shrinking map, recursively, as specified |
| GpxForest.BuildExportTree | fe-api/src/gpx.rs:269-299 | with distinct ids: the roots are exactly the rows without a loaded parent and the children of every node exactly the rows naming it, each in input order; every rooted id once and no other id |
| GpxForest.ForestConserves | fe-api/src/gpx.rs:267-299 | an id occurs once if its parent chain among loaded rows ends at a root, and not at all otherwise |
| GpxForest.ForestAsNamed | fe-api/src/gpx.rs:267-299 | roots and children at every level are found at ascending places of the input, and no row that belongs there is missing |
| GpxForest.NothingLostExactly | fe-api/src/gpx.rs:267-299 | every row is exported exactly once if and only if no row is its own ancestor |
| ByteRanges.ParseSingleByteRange | fe-api/src/export.rs:527-560 | a satisfiable range lies inside the body |
| ByteRanges.FormSelectsItsBytes | fe-api/src/export.rs:519-560 | every first-last, open and suffix form of section 2.1 of RFC 7233, with digit strings of any length, selects exactly the bytes it asks for if and only if the body is empty, the start is already past the end, or every number read fits in 64 bits; otherwise the full body is served |
| ByteRanges.MalformedServedExactly | fe-api/src/export.rs:536-559 | a malformed header gets part of the body if and only if its only defect is a plus sign before a number, and then the bytes meant |
| ByteRanges.RefusedExactly | fe-api/src/export.rs:532-549 | a header is answered 416 if and only if the body is empty, the start reads as a number at or past the end whatever follows, or the suffix reads as zero |
| ByteRanges.PromiseKeptExactly | fe-api/src/export.rs:519-526 | exactly which headers get what is promised: bytes or 416 for a well-formed range, the full body for a malformed one |
| ByteRanges.MalformedRefused | fe-api/src/export.rs:532-549 | `9-zz` and `5-2` on three bytes and `zz-` on none are malformed and answered 416 |
| ByteRanges.PlusServed | fe-api/src/export.rs:545-559 | `+0-+1` is malformed and served in part |
| ByteRanges.HugeLastDeclined | fe-api/src/export.rs:550-554 | a well-formed last position of 2^64 is declined on every non-empty body |
| ByteRanges.StatusCarries | fe-api/src/export.rs:458-472 | 200 carries the whole body, 416 nothing, 206 exactly the bytes its content range names |
| ByteRanges.UnconsideredGetsBody | fe-api/src/export.rs:451-454 | without a range, or under a validator that is not the current tag, the whole body is served |
| ByteRanges.WellFormedGetsBytes | fe-api/src/export.rs:451-472 | a well-formed range with no validator or a matching one gets exactly the bytes it asks for, or 416 when there are none, if its numbers can be read, and the whole body otherwise |
| ByteRanges.MalformedGetsStatus | fe-api/src/export.rs:451-472 | which malformed ranges get 206 and which 416; the others get the whole body |
| Trimming.TrimExact | fe-api/src/export.rs:452-452 | trimming removes the blanks on either side, however many, and nothing else |
| ByteRanges.StitchingIsFaithful | fe-api/src/export.rs:433-477 | across a run in which the body changes, parts under one validator that cover a length reassemble exactly the body with that tag, and each of them was answered from that body |
| ByteRanges.UnconditionalPartsTear | fe-api/src/export.rs:451-454 | without If-Range two partial bodies can come from two different bodies |
| Csv.TextRoundTrip | fe-api/src/export.rs:721-728 | a standard reader returns every field of every record unchanged, whatever the fields hold |
| Csv.QuotedExactly | fe-api/src/export.rs:721-728 | a field is quoted exactly when it holds a comma, a quote, a carriage return or a line feed |
| Csv.CommentSkippedExactly | fe-api/src/export.rs:653-654 | a reader that drops the first line gets exactly the records written if and only if the label holds no line break |
| Csv.SnapshotsToCsv | fe-api/src/export.rs:642-682 | after the comment line, a reader gets back the header and every snapshot with each value under its column name, in both coordinate modes, exactly when the label holds no line break |
| Csv.SnapshotsDetermined | fe-api/src/export.rs:642-682 | two exports with the same text were made from the same snapshots, numbers included |
| Numerals.ShowReads | fe-api/src/export.rs:665-678 | a float is written as its sign, the digits of its whole part and its fraction after a point, or as `NaN` or `inf` |
| Numerals.ShowIntReads | fe-api/src/export.rs:676-676 | an integer is written as a minus sign if need be and the digits of its magnitude |
| Csv.ReadingsToCsv | fe-api/src/export.rs:687-719 | after the comment line, a reader gets back the header and every reading with each value under its column name, in both coordinate modes, exactly when the label holds no line break |
| Csv.MeasurementsDetermined | fe-api/src/export.rs:687-719 | two exports with the same text were made from the same readings, numbers and missing anchors included |
| VisibilityGroups.ValidateGroups | fe-database/src/handlers/visibility_groups.rs:117-147 | accepts exactly the registries of at most 256 groups with distinct ids of at most 64 characters that are not all blank, names of 1 to 80 characters once trimmed, and finite orders |
| VisibilityGroups.UpsertGroup | fe-api/src/visibility.rs:163-191 | patches the group in place or appends it as specified |
| VisibilityGroups.UpsertEffect | fe-api/src/visibility.rs:163-191 | fails exactly when a new group has no name; touches only its own group; keeps ids distinct |
| VisibilityGroups.UpsertFields | fe-api/src/visibility.rs:168-189 | patched fields take effect, others keep their value or default, and a defaulted order comes after all existing ones if and only if there is room at the end |
| VisibilityGroups.DefaultOrderValue | fe-api/src/visibility.rs:183-183 | a defaulted order is the double nearest to one more than the largest order, or to zero if none exceeds minus one |
| Doubles.RoundNearest | fe-api/src/visibility.rs:183-183 | rounding gives a nearest double: none is closer to the exact sum |
| VisibilityGroups.DefaultOrderExactly | fe-api/src/visibility.rs:183-183 | one more than the largest order, rounded to 64 bits, comes after every order if and only if none is `NaN` or infinite and the largest is below 2^53, or below 2^54 and an odd multiple of two |
| VisibilityGroups.DefaultOrderSticks | fe-api/src/visibility.rs:183-183 | after a group at 2^53 a defaulted order does not come after it |
| VisibilityGroups.RemoveGroup | fe-api/src/visibility.rs:194-204 | keeps the other groups in order as specified |
| VisibilityGroups.RemoveEffect | fe-api/src/visibility.rs:194-204 | fails exactly on an unknown id; otherwise the id is gone and nothing else is |
| VisibilityGroups.RemoveKeepsOrder | fe-api/src/visibility.rs:199-199 | a removal that succeeds leaves exactly the other groups, in the order they had |
| VisibilityGroups.RemoveUndoesUpsert | fe-api/src/visibility.rs:163-204 | removing a group just created gives back the registry |
| VisibilityGroups.Server.Fetch | fe-api/src/visibility.rs:213-213 | a client starts its edit from the registry stored at that moment |
| VisibilityGroups.Server.CompareAndSwap | fe-api/src/visibility.rs:207-227 | writes the edited registry and records it exactly when the write is permitted, the registry is what was read, the edit applies and the result is valid; otherwise writes nothing |
| VisibilityGroups.CommitExactly | fe-api/src/visibility.rs:207-227 | in every interleaving, a commit writes exactly when it is permitted, the registry is what its client read, the edit applies to it and the result is valid; otherwise nothing is written |
| VisibilityGroups.UndisturbedCommits | fe-api/src/visibility.rs:207-227 | a client nobody writes past between its read and its permitted commit gets its valid edit of what it read, and one new entry in the history |
| VisibilityGroups.CommitNeedsRead | fe-api/src/visibility.rs:207-227 | a commit without an edit under way writes nothing: a finished or abandoned edit cannot come back |
| VisibilityGroups.ReplaceExactly | fe-api/src/visibility.rs:134-152 | a whole registry is written exactly when it is valid and permitted |
| VisibilityGroups.NoLostUpdate | fe-api/src/visibility.rs:206-227 | in every interleaving the registry is the successful writes applied in commit order, every reply is the registry at its commit, and a valid registry stays valid |

## Left out

- Unicode normalisation and UTF-8 tables, BLAKE3, Ed25519: library code; arbitrary functions where they matter.
- `CborValue::text` and the accessors: single matches over the value type.
- fe-canonical-log/src/did_key.rs and the envelope: the substance is in crates that are not part of this model.
- The standard library's sorts: specified by `KeyedSort.Sort` and its lemmas, not re-implemented.
- Bit operations on head bytes: shifts and masks are written as division and remainder by 32.
- SceneSocket.Connection.Turn: does not model wrap-around of the 64-bit version counter, which `VersionsAccounted` puts 2^64 version-bearing messages away, nor the opening handshake or frames lost on a closed socket.
- SceneRuns.FreshSnapshotAfterLag: says nothing of a petal re-joined by a plain subscription, because the code sends no snapshot then.
- ByteRanges.StitchingIsFaithful: does not model headers other than the tag and the content range; caching and disposition headers are constants.
- Csv.SnapshotsDetermined: a float is the decimal that Rust's `Display` writes for it; how those digits are found is library code.
- GpxForest.BuildExportTree: does not model the decoding of database rows; a row's other columns are one opaque value.
- VisibilityGroups.UpsertFields: the two zeros of 64-bit floats are one value.
- RateLimiter.CountIsRank: does not speak of instants nine seconds or more out of lock order, where windows of a key overlap (`WindowsApartExactly`).
- SQL guarding, scope parsing, policy evaluation, REST plumbing, multipart reading: request plumbing with no law of its own.
- Terrain, vision, screenshot, simulation and QA endpoints: request and reply wrappers over a host outside this model.
