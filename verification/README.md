# Merovingian: verified in-memory indexes, codecs and protocols

A Dafny 4.11 model of the parts of the Merovingian Matrix homeserver where fast code has to agree with
a simple meaning over every input and every run. `dafny verify dfyconfig.toml` checks all of it.

## What is modelled

**Event store** (`EventIndex`, `EventInsert`, `EventBulk`, `EventErase`, `EventModify`, `EventRuns`,
`EventRows`, `EventBulkLoops`, `EventLoops`, `EventQueries`, `EventSearch`, `EventTable`, `RelationPrefilter`). One
list of rows and six derived structures: the id map, the global stream order, each room's stream order, each room's
time order, the relation children and each room's latest timestamp. What each structure must hold is stated
over the rows alone. Every operation keeps all six exact; bulk insertion leaves the table that inserting one
by one leaves; a table is the one built afresh from its rows exactly when its lists are in the order added,
after removal and at the end of every run. The class updates its fields in place with the source's loops
(append, stable sort of the tail, merge; mark, compact, renumber each list). What its queries answer is stated over the rows' own fields, without any index (`EventSearch`).

**Canonical JSON** (`CanonicalJson`, `Serializer`, `CanonicalReader`, `CanonicalEquivalence`, `CanonicalSpelling`,
`Signable`, `Parser`, `Converter`, `Utf8`, `Decimal`, `TopLevelInteger`). The strict serializer, with a small reader
written as a specification to prove that the text determines the value; the validator of UTF-8; the
restricted integer grammar; conversion of parsed documents; the signing view; and the hand-written scan that
finds a top-level integer in stored text.

**Substring matcher** (`FoldedSubstringMatcher`). Failure table, search, greedy count and step bound.

**Login failure table** (`FailureWindow`, `FailureRuns`, `FailureWindowTable`). The list and index as they are
changed, against one machine per key, over whole runs.

**Handshake and key caches** (`IpcHandshake`, `KeyCache`). Interleaved steps; cryptography is a parameter.

**Smaller codecs** (`RegistrationYaml`, `Identity`, `SpecialUseBlocks`, `QueryParams`, `MasqueradeToken`).

`Prelude`, `SortedLists`, `ByteOrder` and `Substrings` hold what the others share.

## Two claims that do not hold as written

* The header of the event table says a room's rows come in the order the whole-table walk visits them, rows of
  equal stream ordering in the order they were added
  (`include/merovingian/database/EventTable.hpp:123-126` and `417-418`). `modify` places a row it moves to another
  room behind every row of equal stream ordering, also behind those added after it. `ModifyRowOrder` gives the
  exact condition under which the order added survives a change (relation lists included), `MovedRowWalk` the
  exact condition for one room, and `MovedRowBreaksWalk` a family of tables where it fails. Every other operation
  keeps the order, and removal can restore it. `RunIsRebuildIffAsAdded` says of every run that its table equals
  the one built afresh exactly when the order is kept at its end.
* The masquerade decoder accepts texts the encoder never writes, and `DecodedIsEncodedIffPlain` says exactly which
  accepted tokens are the encoder's own. `PaddedTokenDecodes` gives another token for every identity. More
  seriously, the guard on a field's end (`src/appservice/masquerade_token.cpp:36-42`) is computed in `size_t`: an
  end past 2^64 wraps, the field is accepted and the cursor moves backwards. `DeclaredFieldAccepted` and
  `FieldIsDeclared` say exactly when a field is accepted and when it is the declared number of bytes, and
  `WrappingTokenDecodes` gives, for every four-byte user, an accepted token whose fields overlap.

## Conventions

Bytes are integers from 0 to 255; text is a sequence of bytes, and `Ascii` gives the bytes of a literal. Laws about
names, separators, escapes and limits spell them out as literals instead of naming the model's constants. Mask tests
on bytes are written as ranges or divisions, justified by `MasksAreRanges` and `MasksTestBits`. `size_t` wrap-around
is written out where the source's arithmetic can reach it (`MasqueradeToken`). Clocks, file reads, oracles for failing
system calls, key derivation, tags and session keys are parameters.

The handshake assumes of its tags that, over the four messages its ends can authenticate and their two keys, equal
tags mean the same key and the same message; `VerifiedMeansTagsAgree` needs no assumption. The cache results assume
that a file identity determines the file's content.

## Model

| member | source | states |
|---|---|---|
| EventIndex.IndexDetermined | include/merovingian/database/EventTable.hpp:34-58 | the rows determine all six structures: two tables over the same rows, both exact and in the order added, are equal |
| EventInsert.AddRowKeeps | src/database/EventTable.cpp:392-427 | storing a new row keeps every structure exact over the rows, and keeps the order added |
| EventInsert.InsertRowsKeeps | src/database/EventTable.cpp:392-427 | any sequence of insertions, repeated ids included, keeps every structure exact and in the order added |
| EventBulk.BulkStreamIsInserts | src/database/EventTable.cpp:449-479 | one stable sort of the new tail and one merge give the stream lists that inserting the rows one by one gives |
| EventBulk.BulkTimeIsInserts | src/database/EventTable.cpp:481-501 | the same for each room's time list |
| EventBulk.BulkChildrenIsInserts | src/database/EventTable.cpp:502-508 | the same for the relation lists |
| EventBulkLoops.MergeStreamOrder | src/database/EventTable.cpp:449-461 | the append, sort and merge loop computes the bulk stream order |
| EventBulkLoops.MergeRoomStreams | src/database/EventTable.cpp:466-479 | every room's list is the bulk merge of what it held and what was added, and no bucket is empty |
| EventBulkLoops.MergeRoomTimes | src/database/EventTable.cpp:483-501 | the same for time entries; rows without an entry are passed over |
| EventBulkLoops.IndexRelations | src/database/EventTable.cpp:502-508 | the relation lists after the added rows are appended in order |
| EventErase.RemapKept | src/database/EventTable.cpp:512-540 | a surviving row's new position is its place among the survivors, and removed rows have none |
| EventErase.EraseRowsKeeps | src/database/EventTable.cpp:512-609 | removal with renumbering keeps every structure exact over the survivors, and keeps the order added |
| EventErase.RebuiltIffAsAdded | include/merovingian/database/EventTable.hpp:34-58 | an exact table is the one that inserting its rows into an empty one builds if and only if it is in the order added |
| EventErase.EraseIsRebuild | src/database/EventTable.cpp:512-609 | removal leaves the table that inserting the survivors, in order, into an empty one builds if and only if the survivors were in the order added, which they are whenever all rows were |
| EventLoops.CompactRows | src/database/EventTable.cpp:525-540 | the compaction loop leaves the survivors in order and the old-to-new position map |
| EventLoops.RenumberIds | src/database/EventTable.cpp:542-548 | the id map keeps exactly the survivors' ids, at their new positions |
| EventLoops.RenumberList | src/database/EventTable.cpp:552-558 | erasing what is gone and renumbering the rest leaves the survivors in their order |
| EventLoops.RenumberRooms | src/database/EventTable.cpp:561-585 | every room's list is renumbered and a room left without rows loses its bucket |
| EventLoops.RenumberTargets | src/database/EventTable.cpp:588-603 | the lists of every target are renumbered and a target left without children is dropped |
| EventLoops.RecomputeLatest | src/database/EventTable.cpp:372-390 | the room's entry becomes the greatest positive timestamp of its rows, or none |
| EventLoops.RoomsLosingRows | src/database/EventTable.cpp:517-524 | exactly the rooms of removed rows |
| EventLoops.UntouchedLatest | src/database/EventTable.cpp:604-607 | a room that loses no row needs no recomputation |
| EventLoops.EraseFromStream | src/database/EventTable.cpp:317-337 | finding the row among those of its stream ordering and erasing it removes exactly that row |
| EventLoops.EraseFromTimes | src/database/EventTable.cpp:277-298 | erasing at the lower bound removes exactly the row's entry |
| EventLoops.InsertInStream | src/database/EventTable.cpp:300-315 | insertion at the upper bound is the stable merge of the list and the row |
| EventLoops.InsertInTimes | src/database/EventTable.cpp:260-275 | insertion of a time entry is the merge of the list and the entry |
| EventLoops.Reindex | include/merovingian/database/EventTable.hpp:325-351 | moving a changed row only in the structures it may have moved in gives the changed table |
| EventModify.ModifyRowKeeps | include/merovingian/database/EventTable.hpp:309-352 | changing a row in place keeps every structure exact |
| EventModify.ModifyRowOrder | include/merovingian/database/EventTable.hpp:309-352 | the order added survives a change if and only if no row of the new room with its stream ordering, and no row of the new relation, was added after it |
| EventRuns.RunsStayConsistent | src/database/EventTable.cpp:392-627 | after every step of every run of insertions, bulk insertions, removals, changes and clears, every structure is exact |
| EventRuns.RunIsRebuildIffAsAdded | src/database/EventTable.cpp:392-627 | at the end of every run the table is the one built afresh from its rows if and only if it is in the order added there, whatever the changes on the way did |
| EventRuns.SafeRunIsRebuild | src/database/EventTable.cpp:392-627 | in particular a run whose changes all keep the order ends in the table built afresh |
| EventRuns.RemovalRestoresOrder | src/database/EventTable.cpp:512-609 | a run that ends with a removal ends in the table built afresh if and only if what it kept was in the order added, also when an earlier change broke the order |
| RelationPrefilter.PrefilterLosesNothing | src/database/EventTable.cpp:169-202 | on canonical text, with any parser whose values have the text it was given, looking for the quoted member name before parsing gives exactly the relation that parsing every event would |
| RelationPrefilter.StoredRelationFound | src/database/EventTable.cpp:169-202 | with the reference reader as parser, the lookup in the text of every accepted event finds the event's own relation |
| EventQueries.RoomOrderIsWalk | include/merovingian/database/EventTable.hpp:123-135 | a room's list is what the whole-table walk visits of it if and only if its ties are in the order added |
| EventQueries.MovedRowWalk | include/merovingian/database/EventTable.hpp:325-329 | after a move to another room, that room's list is the walk if and only if no row there with the same stream ordering was added later |
| EventQueries.MovedRowBreaksWalk | include/merovingian/database/EventTable.hpp:123-126 | for every two rows of equal stream ordering in different rooms, moving the first to the second's room breaks it |
| EventQueries.Nearest | include/merovingian/database/EventTable.hpp:141-200 | the two loops over the time index answer the nearest accepted entry on the asked side, none, or none for the cap |
| EventQueries.SearchDetermined | include/merovingian/database/EventTable.hpp:141-200 | for every table, timestamp, direction, filter and cap the search has exactly one possible answer |
| EventTable.EventTable.constructor | include/merovingian/database/EventTable.hpp:412-426 | a new table is empty and exact |
| EventTable.EventTable.Insert | src/database/EventTable.cpp:392-427 | adds the row exactly when its id is new, and the whole table is the specified insertion |
| EventTable.EventTable.InsertAll | src/database/EventTable.cpp:429-510 | the whole table equals inserting the events one by one, repeats within the batch included, and the count is exact |
| EventTable.EventTable.EraseMarked | src/database/EventTable.cpp:512-609 | the rows are the unmarked ones in order, the whole table is the specified removal, and the count is exact |
| EventTable.EventTable.EraseIf | include/merovingian/database/EventTable.hpp:290-303 | removes exactly the accepted rows, also when none is |
| EventTable.EventTable.Clear | src/database/EventTable.cpp:618-627 | no row and no entry is left |
| EventTable.EventTable.Extract | src/database/EventTable.cpp:611-616 | returns every row in order and leaves the empty table |
| EventTable.EventTable.Modify | include/merovingian/database/EventTable.hpp:305-352 | the row has its old id and stream ordering and the mutation's every other field, no other row changes, and the whole table is the specified change |
| EventTable.EventTable.Find | src/database/EventTable.cpp:339-347 | finds the row with the id exactly when there is one |
| EventTable.EventTable.FindInRoom | src/database/EventTable.cpp:360-364 | finds the row exactly when the id is held in that room |
| EventTable.EventTable.RoomInStreamOrder | include/merovingian/database/EventTable.hpp:123-135 | each row of the room once, by ascending stream ordering, and the whole-table walk of the room when the order added is kept |
| EventTable.EventTable.RoomLatestOriginServerTs | src/database/EventTable.cpp:636-640 | the greatest positive `origin_server_ts` in the text of the room's rows, or 0 |
| EventTable.EventTable.RelationChildCount | src/database/EventTable.cpp:240-244 | the number of rows whose parsed `content.m.relates_to` names the target and the kind's `rel_type`, the target being 1 to 255 bytes |
| EventTable.EventTable.NearestEvent | include/merovingian/database/EventTable.hpp:141-200 | over the rows' own fields: the nearest row of the room on the asked side by (timestamp, depth, stream ordering, position) that is accepted and has fewer than `cap` nearer ones; `outlier`, `rejected` and `soft_failed` rows never count; `truncated` exactly when none is found and more than `cap` are asked for |
| EventSearch.SearchMeans | include/merovingian/database/EventTable.hpp:141-200 | what the search over the time index answers is that answer over the rows |
| EventSearch.OffTimelineIsEmpty | src/database/EventTable.cpp:246-258 | a room of only `outlier`, `rejected` and `soft_failed` rows has no event to answer |
| EventSearch.DeclaredIsSpelt | src/database/EventTable.cpp:169-202 | a parsed event relates to a target by a kind exactly when its first `content`, `m.relates_to`, `event_id` and `rel_type` members spell it |
| EventTable.BulkIsInserts | src/database/EventTable.cpp:429-510 | a table whose lists were merged in bulk is the table that one-by-one insertion gives |
| TopLevelInteger.ScanIsExact | src/database/EventTable.cpp:41-122 | on the text of every accepted object and for every key without escapes, the scan returns n exactly when the top-level member of that name is the integer n |
| TopLevelInteger.PaddedMemberFound | src/database/EventTable.cpp:41-122 | spaces, tabs and line ends around the colon do not hide the member |
| TopLevelInteger.ValueSkipped | src/database/EventTable.cpp:41-122 | any accepted value nested in the event is passed over, whatever it contains |
| TopLevelInteger.Find | src/database/EventTable.cpp:41-122 | the index-advancing loop computes the scan |
| CanonicalJson.SerializeIsText | src/canonicaljson/serializer.cpp:157-291 | strict serialization succeeds exactly on trees without repeated keys, invalid UTF-8, doubles or raw numbers, and then gives the canonical text |
| Serializer.AppendEscapedString | src/canonicaljson/serializer.cpp:46-88 | the escaping loop appends the quoted, escaped string |
| CanonicalReader.EscapeIsShortest | src/canonicaljson/serializer.cpp:46-88 | of all texts without control bytes that read back as the string, the escaped one is the only shortest |
| CanonicalReader.EscapeHasNoControl | src/canonicaljson/serializer.cpp:46-88 | the escaped text holds no byte below 32 |
| CanonicalSpelling.NamedEscapes | src/canonicaljson/serializer.cpp:52-74 | the seven short escapes, spelt |
| CanonicalSpelling.OtherEscapes | src/canonicaljson/serializer.cpp:75-84 | any other control byte is `\u00` and two lower-case digits, and every other byte stands for itself |
| Serializer.ObjectHasDuplicateKeys | src/canonicaljson/serializer.cpp:317-336 | true exactly when two members share a key |
| Serializer.SerializeArray | src/canonicaljson/serializer.cpp:157-180 | the array loop gives the text or the first error from the left |
| Serializer.SerializeEach | src/canonicaljson/serializer.cpp:189-203 | the member loop gives the entries in order or the first error, a bad key before the value behind it |
| Serializer.SerializeObject | src/canonicaljson/serializer.cpp:182-227 | duplicate check, member loop, sort and write give the text or the first error |
| Serializer.SerializeValue | src/canonicaljson/serializer.cpp:229-291 | the recursive case split computes the strict serialization |
| CanonicalReader.ValueReadsBack | src/canonicaljson/serializer.cpp:157-291 | reading the text of an accepted value gives that value with members in key order and leaves whatever follows |
| CanonicalEquivalence.EquivalentAcceptance | src/canonicaljson/serializer.cpp:157-291 | values equal up to member order at every level are accepted or refused together |
| CanonicalEquivalence.SameTextIffEquivalent | src/canonicaljson/serializer.cpp:157-291 | a value serializes to the bytes of an accepted one if and only if the two are equal up to member order at every level |
| CanonicalEquivalence.CanonEquivalent | src/canonicaljson/serializer.cpp:157-291 | what reads back from the text of an accepted value is that value up to member order |
| CanonicalEquivalence.KeysInCodePointOrder | src/canonicaljson/serializer.cpp:205-208 | the keys of an accepted object are written strictly increasing by Unicode code point, decided where they first differ |
| CanonicalSpelling.ScalarSpelt | src/canonicaljson/serializer.cpp:229-291 | the literals, numbers and quoted strings, spelt |
| CanonicalSpelling.ArraySpelt | src/canonicaljson/serializer.cpp:157-180 | an array is its items' texts with commas between brackets |
| CanonicalSpelling.ObjectSpelt | src/canonicaljson/serializer.cpp:182-227 | an object is a permutation of its members ascending by code point, each a quoted key, a colon and a text, with commas between braces |
| Signable.SignableUnchanged | src/canonicaljson/signable.cpp:15-33 | whether there are signed bytes, and which, does not change when members are reordered at any level or top-level `signatures` and `unsigned` are added, dropped or changed |
| Signable.SignableReordered | src/canonicaljson/signable.cpp:15-33 | the same for top-level reordering, said of the member lists themselves, repeated keys included |
| Signable.ElidedAnywhere | src/canonicaljson/signable.cpp:24-26 | a member named `signatures` or `unsigned`, with any value and at any place of the top level, leaves the signed bytes as they are |
| Signable.AllElseSigned | src/canonicaljson/signable.cpp:15-33 | a value without those two names is signed as its canonical text |
| Signable.SignableIffEquivalent | src/canonicaljson/signable.cpp:15-33 | an object has the signed bytes of a signable one if and only if their signed members are equivalent |
| Utf8.CheckSequence | src/canonicaljson/parser.cpp:368-418 | one round of the loop recognises the sequence at the index |
| Utf8.IsValid | src/canonicaljson/parser.cpp:363-422 | accepts exactly the byte strings that encode some sequence of scalar values in shortest form |
| Utf8.ValidIsEncoded | src/canonicaljson/parser.cpp:363-422 | the validator's step-by-step meaning is the encoding relation of section 3 of RFC 3629 |
| Utf8.EncodesIsTable | src/canonicaljson/parser.cpp:363-422 | that encoding is the table of section 3 of RFC 3629: the code point's bits in groups of six, surrogates excluded |
| Utf8.ByteOrderIsCodePointOrder | src/canonicaljson/serializer.cpp:205-208 | on accepted strings, byte-wise order is code point order |
| Utf8.MasksAreRanges | src/canonicaljson/parser.cpp:378-411 | the mask tests and bit extractions are the ranges and differences the model uses |
| Decimal.IsCanonicalInt64Token | src/canonicaljson/parser.cpp:88-130 | accepts exactly the canonical integer shape |
| Decimal.CanonicalIsPrinted | src/canonicaljson/parser.cpp:88-130 | a token has that shape exactly when it is the decimal printing of an integer |
| Decimal.RawNumberIsPrinted | src/canonicaljson/parser.cpp:132-158 | a raw number is accepted with value n exactly when it is the printing of n and n lies within 2^53-1 either side of zero |
| Decimal.RawNumberErrors | src/canonicaljson/parser.cpp:132-158 | a printed integer outside that range is out of range, and anything not printed is no number |
| Decimal.PrintedText | src/canonicaljson/serializer.cpp:240-243 | the printed form is the decimal one, digit by digit, behind a minus sign |
| Decimal.PrintedReadsBack | src/canonicaljson/serializer.cpp:240-243 | a printed 64-bit integer reads back, whatever follows it that is not a digit |
| Parser.DocumentConverts | src/canonicaljson/parser.cpp:163-324 | conversion succeeds exactly on canonical documents and the value represents the document node by node |
| Parser.ConvertedIsAcceptable | src/canonicaljson/parser.cpp:163-324 | every converted value serializes strictly, is at most 64 levels deep and holds only safe integers |
| Parser.RawPreserved | src/canonicaljson/parser.cpp:181-194 | preserving numbers, no token is refused: printed safe integers become integers and all else stays as it is |
| Parser.RawRefused | src/canonicaljson/parser.cpp:181-194 | otherwise a printed integer outside the range is too large and anything else is no number |
| Converter.ConvertArray | src/canonicaljson/parser.cpp:216-249 | the array callback fills the array or stops at the first error |
| Converter.ConvertObject | src/canonicaljson/parser.cpp:250-316 | the object callback with its seen-key set fills the object or stops at the first duplicate or error |
| Converter.ConvertValue | src/canonicaljson/parser.cpp:163-324 | the recursive conversion computes the specified result, errors included |
| FoldedSubstringMatcher.BuildFailure | src/core/FoldedSubstringMatcher.cpp:30-43 | every entry is the length of the longest proper border of its prefix |
| FoldedSubstringMatcher.Advance | src/core/FoldedSubstringMatcher.cpp:34-41 | following the failure table finds the longest overlap after the next byte, and each fall is paid for by the overlap lost |
| FoldedSubstringMatcher.Search | src/core/FoldedSubstringMatcher.cpp:46-73 | true exactly when the term occurs in the folded text, in at most two steps per byte |
| FoldedSubstringMatcher.Count | src/core/FoldedSubstringMatcher.cpp:75-103 | the size of the leftmost-greedy choice of occurrences, in at most two steps per byte |
| FoldedSubstringMatcher.GreedyIsMaximum | src/core/FoldedSubstringMatcher.cpp:75-103 | no choice of pairwise disjoint occurrences is larger than the leftmost-greedy one |
| FoldedSubstringMatcher.GreedyIsDisjoint | src/core/FoldedSubstringMatcher.cpp:75-103 | the leftmost-greedy choice is itself pairwise disjoint |
| FoldedSubstringMatcher.Matcher.constructor | src/core/FoldedSubstringMatcher.cpp:23-44 | the matcher is for that term, folded, with its table right |
| FoldedSubstringMatcher.FoldedMatch | src/core/FoldedSubstringMatcher.cpp:16-19 | folding and comparing bytes is matching letter for letter, the ASCII letters in either case and every other byte only itself |
| FoldedSubstringMatcher.Matcher.Contains | src/core/FoldedSubstringMatcher.cpp:46-73 | true exactly when the term matches somewhere in the text, the empty term everywhere, and adds at most twice the text's length to the step counter |
| FoldedSubstringMatcher.Matcher.CountNonOverlapping | src/core/FoldedSubstringMatcher.cpp:75-103 | the greatest number of matches that do not overlap, 0 for the empty term, with the same step bound |
| FailureWindow.ExpiredLane | src/auth/FailureWindowTable.cpp:47-54 | popping the front drops exactly the counters whose window has elapsed |
| FailureWindow.RecordedKeeps | src/auth/FailureWindowTable.cpp:68-98 | a failure keeps one counter per key, the order by window start and the capacity |
| FailureWindow.RecordedLane | src/auth/FailureWindowTable.cpp:68-98 | a failure moves its own key's machine and no other key's, except the evicted one's |
| FailureWindow.EvictsOldest | src/auth/FailureWindowTable.cpp:73-83 | a failure evicts only when its key has no live counter and the live ones fill the table, and then exactly one, of the oldest window |
| FailureWindow.ClearedLane | src/auth/FailureWindowTable.cpp:100-109 | clearing forgets exactly that key |
| FailureRuns.RunKeepsInvariant | src/auth/FailureWindowTable.cpp:47-116 | after every run with a non-decreasing clock the list is ordered by window start, has one counter per key and fits its capacity |
| FailureRuns.AnswersAgree | src/auth/FailureWindowTable.cpp:56-116 | until a key is evicted, both answers about it equal those of a machine that sees only that key's calls |
| FailureRuns.TrippedKeyIsRefused | src/auth/FailureWindowTable.cpp:56-98 | a key tripped at t is refused for exactly t + window - now until then, whatever happens meanwhile short of clearing or eviction, and for zero afterwards |
| FailureRuns.WindowCounts | src/auth/FailureWindowTable.cpp:68-98 | short of the threshold a key's counter is the number of its failures since its window opened, and the window stays where it opened |
| FailureRuns.WindowAnswers | src/auth/FailureWindowTable.cpp:47-116 | the table reports those failures until the opening plus the window, and none from that instant on |
| FailureRuns.WindowReopens | src/auth/FailureWindowTable.cpp:47-98 | a failure at or after that instant opens a new window |
| FailureRuns.CounterSaturates | src/auth/FailureWindowTable.cpp:85-98 | a live counter goes on up to 2^32 - 1 and stays there |
| FailureRuns.ThresholdTrips | src/auth/FailureWindowTable.cpp:85-98 | the failure that completes the threshold within the window trips the key |
| FailureRuns.RefusedOnlyAtThreshold | src/auth/FailureWindowTable.cpp:56-98 | a key with fewer failures than the threshold is never refused |
| FailureRuns.NothingEvictedWithinCapacity | src/auth/FailureWindowTable.cpp:73-83 | a run in which no more keys fail than the table holds evicts none |
| FailureWindowTable.FoundAtPosition | src/auth/FailureWindowTable.cpp:60-61 | the index finds a key exactly where the list holds it |
| FailureWindowTable.IndexedSplice | src/auth/FailureWindowTable.cpp:95-97 | moving a node to the back leaves the index right without touching it |
| FailureWindowTable.BumpNode | src/auth/FailureWindowTable.cpp:85-98 | saturating count, and the tripping failure restarts the window and moves the node to the back |
| FailureWindowTable.FailureWindowTable.constructor | src/auth/FailureWindowTable.cpp:42-45 | empty, with room for at least one counter |
| FailureWindowTable.FailureWindowTable.Expire | src/auth/FailureWindowTable.cpp:47-54 | the popping loop keeps the index exact and leaves the specified list |
| FailureWindowTable.FailureWindowTable.LockoutRemaining | src/auth/FailureWindowTable.cpp:56-66 | expires, then answers from the key's counter in the list |
| FailureWindowTable.FailureWindowTable.RecordFailure | src/auth/FailureWindowTable.cpp:68-98 | the new list is the specified one and the index stays exact |
| FailureWindowTable.FailureWindowTable.Clear | src/auth/FailureWindowTable.cpp:100-109 | removes exactly the key's node and index entry |
| FailureWindowTable.FailureWindowTable.Failures | src/auth/FailureWindowTable.cpp:111-116 | expires, then answers the key's count or 0 |
| IpcHandshake.StepKeeps | src/crypto/IpcStreamCipher.cpp:73-164 | every step of either end keeps it on its script, with what it got a prefix of what the other sent |
| IpcHandshake.VerifiedMeansTagsAgree | src/crypto/IpcStreamCipher.cpp:101-111 | an end past the tag check got exactly the tag it computed for its peer, and each end holds the other's public key |
| IpcHandshake.VerifiedMeansMatched | src/crypto/IpcStreamCipher.cpp:101-111 | an end past the tag check has a peer in the opposite role with the same authentication key, and each holds the other's public key |
| IpcHandshake.NeverStuck | src/crypto/IpcStreamCipher.cpp:73-164 | in every interleaving, whatever the roles and authentication keys, one end can move until both have finished or failed, within twelve steps |
| IpcHandshake.MatchedEndsFinish | src/crypto/IpcStreamCipher.cpp:73-164 | a server and a client with one key always finish, in exactly twelve steps, and each pushes with the key and header the other pulls with |
| IpcHandshake.MismatchedNeverFinish | src/crypto/IpcStreamCipher.cpp:81-111 | two ends in the same role or with different authentication keys: in no interleaving does either get past the tag check |
| IpcHandshake.AgreementMeansMatched | src/crypto/IpcStreamCipher.cpp:81-111 | the role byte separates the messages: agreeing tags mean different roles and one authentication key |
| IpcHandshake.FinishedMeansOpened | src/crypto/IpcStreamCipher.cpp:112-164 | in every interleaving a finished end has a peer in the other role with its authentication key, the session of the two key pairs, and its stream opened on the peer's header |
| KeyCache.IdentityInjective | src/crypto/master_key.cpp:120-132 | equal identities mean the same path and the same status in every field |
| KeyCache.TokenKeyCache.Get | src/crypto/token_key.cpp:99-134 | the static variables and the result after a call are the specified lookup |
| KeyCache.BoxKeyCache.Get | src/crypto/master_key.cpp:157-189 | the same for the box key's cache and its own order of tests |
| KeyCache.EveryRunSound | src/crypto/token_key.cpp:79-135 | in every interleaving of callers and replacements the cached key is the one derived from its identity's material, and each call returns nothing or the key of the file it opened, whose 32 to 4096 bytes are not all zero |
| KeyCache.CallAnswersItsOpen | src/crypto/token_key.cpp:79-135 | whatever other callers and replacements come between, a call returns nothing or the key of the file that was under its path when it opened it, and that key when the file is readable and fit |
| KeyCache.EmptyPathAnswersNothing | src/crypto/token_key.cpp:79-135 | an empty path opens no file and answers nothing |
| KeyCache.NothingWithoutMaterial | src/crypto/master_key.cpp:157-189 | a missing, unreadable or unfit file that is not cached gives nothing and empties the cache |
| KeyCache.ReadableFileAnswers | src/crypto/master_key.cpp:157-189 | a call that opened an acceptable readable file returns the key derived from it, cached or not |
| Identity.ScanSequence | src/auth/identity.cpp:95-165 | this scanner's order of checks recognises the same sequences as the JSON validator |
| Identity.IsFederatedLocalpart | src/auth/identity.cpp:82-170 | accepts exactly what the JSON validator accepts, without NUL and without colon |
| Identity.StrictIsFederated | src/auth/identity.cpp:327-365 | every user id the strict validator accepts, the permissive one accepts |
| Identity.FederatedUserIdShape | src/auth/identity.cpp:347-365 | an at sign, a localpart and a server name parted by a colon are accepted exactly when the localpart is UTF-8 without NUL, the server name valid and the whole at most 255 bytes |
| Identity.StrictUserIdShape | src/auth/identity.cpp:327-344 | the strict validator asks for a non-empty localpart of lower-case letters, digits and `._-=/+` instead |
| Identity.AcceptedHasShape | src/auth/identity.cpp:327-365 | nothing of another shape is accepted |
| SpecialUseBlocks.LeadingBitsMatch | src/config/Config.cpp:652-664 | true exactly when the leading bits agree |
| SpecialUseBlocks.HasHostBits | src/config/Config.cpp:710-717 | true exactly when some bit behind the prefix is set |
| SpecialUseBlocks.PrivateRangeIsAllowable | src/config/Config.cpp:699-723 | true exactly when the range has no host bits and its whole address set lies inside one allowable block |
| SpecialUseBlocks.AllowableIsDisjoint | src/config/Config.cpp:580-587 | no address of an allowable range is in a block that may not be exempted |
| SpecialUseBlocks.TableRanges | src/config/Config.cpp:580-587 | by octets: 10/8, 172.16/12, 192.168/16 and fc00::/7 may be exempted, 127/8 and ::1 may not, and the table holds nothing else |
| SpecialUseBlocks.PrefixBytes | src/config/Config.cpp:652-664 | agreement on a prefix is agreement on its whole bytes and on the leading bits of the next |
| SpecialUseBlocks.MasksTestBits | src/config/Config.cpp:657-658 | the mask tests are the bits the model uses |
| QueryParams.DecodeAll | src/core/query_params.cpp:52-86 | the decoding loop, with plus as space or not, computes the byte-by-byte decoding |
| QueryParams.PercentDecodePathComponent | src/core/query_params.cpp:93-129 | throws exactly when the decoded text would hold NUL, and otherwise returns it |
| QueryParams.NulIsSeenEarly | src/core/query_params.cpp:88-97 | looking for NUL before decoding finds exactly what looking afterwards would |
| QueryParams.PercentEncodePathComponent | src/core/query_params.cpp:131-148 | the encoding loop computes the byte-by-byte encoding |
| QueryParams.DecodeUndoesEncode | src/core/query_params.cpp:52-148 | both decodings undo the encoding on every byte string |
| QueryParams.UnreservedStay | src/core/query_params.cpp:38-42 | a byte is left as it stands exactly when it is a letter, a digit or one of `-._~` |
| QueryParams.ReservedEscape | src/core/query_params.cpp:131-148 | every other byte becomes a percent sign and two upper-case digits |
| QueryParams.HexDigitsRead | src/core/query_params.cpp:21-36 | hexadecimal digits are read in both cases |
| QueryParams.NothingElseIsHex | src/core/query_params.cpp:21-36 | and nothing else is |
| QueryParams.PlusIsSpace | src/core/query_params.cpp:52-86 | a plus is a space in a query and itself in a path |
| MasqueradeToken.DecodeUndoesEncode | src/appservice/masquerade_token.cpp:75-113 | every triple of byte strings comes back from its token |
| MasqueradeToken.TokenText | src/appservice/masquerade_token.cpp:75-82 | the token is the version prefix and, for each field, its decimal length, a colon and its bytes |
| MasqueradeToken.ReadsField | src/appservice/masquerade_token.cpp:17-43 | a field is read back whatever bytes it holds, and the cursor stands behind it |
| MasqueradeToken.DeclaredFieldAccepted | src/appservice/masquerade_token.cpp:35-39 | a field with a readable length is accepted if and only if it ends inside the token or its end wraps past 2^64 |
| MasqueradeToken.FieldIsDeclared | src/appservice/masquerade_token.cpp:35-42 | what is read is the declared number of bytes ending at the new cursor if and only if they are there; otherwise it is the rest of the token and the cursor moves back before the field |
| MasqueradeToken.WrappingTokenDecodes | src/appservice/masquerade_token.cpp:36-42 | for every four-byte user, a token with first length 18446744073709551614 is accepted with the user also inside the application service id |
| MasqueradeToken.PaddedTokenDecodes | src/appservice/masquerade_token.cpp:31-35 | for every identity, a zero before the first length gives another token with the same meaning |
| MasqueradeToken.DecodedIsEncodedIffPlain | src/appservice/masquerade_token.cpp:84-113 | an accepted token is the encoder's own if and only if no length has a leading zero and every length fits in what is left |
| RegistrationYaml.FindCommentStart | src/appservice/registration_yaml.cpp:68-118 | the quote-tracking loop computes the scan the round trip is proved of |
| RegistrationYaml.CommentIsFound | src/appservice/registration_yaml.cpp:68-118 | a hash inside either kind of quotes never starts a comment, and the trailing comment is cut exactly |
| RegistrationYaml.PlainComment | src/appservice/registration_yaml.cpp:68-118 | without quotes the comment starts at the first hash that begins the line or follows a space or a tab |
| RegistrationYaml.Trim | src/appservice/registration_yaml.cpp:120-131 | the two loops drop leading spaces and trailing spaces and carriage returns |
| RegistrationYaml.TrimmedIs | src/appservice/registration_yaml.cpp:120-131 | what is dropped in front is spaces, behind it spaces and carriage returns, and nothing of either is left |
| RegistrationYaml.ParseScalar | src/appservice/registration_yaml.cpp:183-238 | the decoding loops and the error returns compute the specified scalar of a non-empty text |
| RegistrationYaml.ListEntryNotEmpty | src/appservice/registration_yaml.cpp:488-517 | the text of a list entry is never empty, so the reader that does not test for it never decodes an empty scalar |
| RegistrationYaml.ProtocolEntry | src/appservice/registration_yaml.cpp:488-517 | a protocol entry is the scalar of what stands behind the dash, decoded without a test for emptiness |
| RegistrationYaml.KeyedScalar | src/appservice/registration_yaml.cpp:633-663 | a value behind a key is refused when empty, before decoding, and is its scalar otherwise |
| RegistrationYaml.ScalarUndoesQuoted | src/appservice/registration_yaml.cpp:191-231 | decoding a single- or double-quoted text gives back the text |
| RegistrationYaml.QuotesWritten | src/appservice/registration_yaml.cpp:181-231 | in single quotes a quote is doubled, and in double quotes a quote or a backslash follows a backslash |
| RegistrationYaml.ScalarRefused | src/appservice/registration_yaml.cpp:157-238 | exactly the texts that start with one of `&*!>[{%` or a vertical bar, and unclosed quotes, are no scalar; a plain text is itself |
| RegistrationYaml.SplitsAtFirstColon | src/appservice/registration_yaml.cpp:145-155 | key and value are the trimmed parts before and behind the first colon |
| RegistrationYaml.NoColonNoKey | src/appservice/registration_yaml.cpp:145-155 | a text without a colon has no key |
| RegistrationYaml.StripRefuses | src/appservice/registration_yaml.cpp:732-780 | lines over 4096 bytes and lines with a tab are refused |
| RegistrationYaml.StripLeaves | src/appservice/registration_yaml.cpp:732-780 | any other line is dropped when empty, a document marker when `---` or `...`, and kept with its indent otherwise |
| RegistrationYaml.SplitIsWritten | src/appservice/registration_yaml.cpp:145-155 | splitting finds the key and the quoted text, colons inside the quotes notwithstanding |
| RegistrationYaml.QuotedLineRoundTrips | src/appservice/registration_yaml.cpp:732-780 | a quoted line, indented or not, commented or not, ending in a carriage return or not, comes back as its indent, its key and exactly its text |

## Left out

- RegistrationYaml.QuotedLineRoundTrips: one line at a time; cutting the document at newlines and the key-by-key parser behind it are not modelled.
- KeyCache.EveryRunSound: a file overwritten in place between a call's open and its read is outside the assumption that identity determines content.
- FailureRuns.AnswersAgree: says nothing of a key between its eviction and its next clear.
- FailureWindowTable.FailureWindowTable.RecordFailure: list nodes are values with identities rather than heap cells; clock overflow is not modelled.
- MasqueradeToken.DecodeUndoesEncode: for tokens shorter than 2^64 bytes, which is what a size can express.
- IpcHandshake.NeverStuck: pipes are unbounded, so a send never waits.
- Parser.ConvertedIsAcceptable: for documents whose strings are valid UTF-8 and whose numbers are raw text, as the reader delivers them in this mode.
- The third-party JSON reader, libsodium, OpenSSL, inet_pton and std::regex: foreign code, taken as trees, functions or parsed bytes.
- The lenient serializer and double formatting (src/canonicaljson/serializer.cpp:111-153): C library printing.
- The remaining walks of the event table (newest-first room and relation walks, totals over all kinds): easier readers of the same lists.
- server_name_is_valid: a parameter of both user id validators; its grammar is a flat list of character checks.
- The three state-group tables: easier copies of the event store's index pattern.
- Configuration parsing, reload planning, migrations, semaphores, process start-up, networking, logging and allocation failure.
