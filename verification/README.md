# OsterLib verification

A Dafny model of the five parts of OsterLib whose behaviour is hardest to see from the code, with proofs about it.

* **Binary codec and resumable reader** (`Bytes`, `Codec`, `WireFormat`, `CodecSizes`, `ShortestEncoding`,
  `SizeExactness`, `Serializer`, `Reader`, `OneShot`, `PrefixFree`, `Grammar`, `AnyBytes`, `Resume`, `StreamSession`,
  `ResumeFailures`, `OptionalFirst`, `RetryOfItems`, `MultiBuffer`, `StreamSerializer`, `EndToEnd`). Types and values are
  datatypes, `Encode` is the wire format, `Reader.Decode` is what one call of `StreamSerializer::deserialize` does to
  the reader's counters, level and memo. The classes `MultiBufferView` and `StreamSerializer` update their fields in
  place and are proved equal to those functions. The main results: the wire format byte by byte, the round trip over the
  whole type universe, prefix freedom, exact answers on arbitrary bytes, and the exactness of resumed decoding over every
  chunking of a stream of messages.
* **Planar geometry** (`WholeNumbers`, `Segment`, `LineCut`, `CrossingFound`, `Extremes`, `Shoelace`, `Simplicity`,
  `InsertedVertex`, `Polygon`). Coordinates are exact reals. The segment test is proved equivalent to the existence of a
  common point, and that equivalence gives `is_valid` its meaning. `Polygon` is a class with its vertex list, four index lists and caches.
* **Worker command queue** (`Commands`, `WorkerQueue`). Commands as objects with a promise; producers, eventfd counter
  and worker as a state machine; an invariant over every interleaving, and the progress of the worker once all pushes
  are complete.
* **Line editor** (`Terminal`, `Redraw`, `LineEditor`, `History`). The escape sequences of `refreshMultiLine` run on a
  small terminal with deferred wrap; the editor is a class over a character array.
* **Network buffers** (`RingBuffer`, `VectorizedBuffer`). Classes refining a bounded queue and a byte stream.

Where the code does not do what its name or its documentation suggests, the model follows the code:

* Native-order decoding swaps bytes on a big-endian host although encoding does not (`Bytes.NumRoundTripExactly`).
* The maximum size of `std::pair` wraps around (`CodecSizes.PairMaximumWraps`), and an array of such pairs can report too
  small a size (`SizeExactness.SerialSizeExactly`, `SizeExactness.ShortcutLosesBytes`).
* The minimum size of a variant is too small when the minimum of one of its alternatives has wrapped around
  (`ShortestEncoding.MinSizeExactly`, `ShortestEncoding.WrappedAlternative`).
* Decoding "no value" into a `std::optional` that holds one leaves it there (`OneShot.OverwritesExactly`).
* A numeric field is read anew at every retry, an array restarts at its second element and a forward_list counts no
  further than one, so a retry of these recovers the value only for some splits
  (`ResumeFailures.StructResumesExactly`, `RetryOfItems.ArrayResumesExactly`, `RetryOfItems.ForwardListResumesExactly`).
* `cut` keeps the wrong piece when the first end is on the cutting line and the second is right of it
  (`LineCut.CutExactly`, `LineCut.SidesSwapped`).
* `is_clockwise` caches "clockwise" for a polygon that lies on a coordinate axis (`PolygonClass.ClockwiseIsTheSign`).
* `is_valid` accepts a segment stored with a repeated first vertex, and overlooks a crossing closing edge behind a
  repeated last vertex (`Simplicity.AcceptsExactly`).
* `Polygon::insert` compares with the vertex after the one it pushes back, so it can keep an area, an orientation and a
  validity that are no longer right (`PolygonClass.Polygon.InsertVertex`, `PolygonClass.StaleArea`), and `area` returns
  no value for a valid polygon (`PolygonClass.Polygon.Area`).
* An `AddConnection` that has its socket but gets no connection object never sets its promise
  (`Commands.OnlyLostConnectionsStayUnset`).
* The multi-line redraw leaves the cursor one row too high for an empty line after a prompt that ends at the right
  margin (`Redraw.RefreshExactly`), and its first refresh presumes a prompt shorter than a row (`Redraw.StartSyncs`).
* A history entry that does not fit the buffer is truncated when it is visited (`LineEditor.LineState.EditHistoryNext`).
* `RingBuffer::data` of an empty buffer is the whole array twice (`RingBufferClass.RingBuffer.Data`).

`dafny verify dfyconfig.toml` checks the project.

## Model

| member | source | states |
|---|---|---|
| `Bytes.NumRoundTrip` | include/OsterLib/serialization.h:158-176 | a numeric survives writing and reading in network order on any host and in native order on a little-endian host |
| `Bytes.NumRoundTripExactly` | include/OsterLib/serialization/multi_buffer.h:16-51 | all values of a width round trip if and only if the order is network, the host is little-endian, or the width is one byte |
| `Bytes.NumBytesSpell` | include/OsterLib/serialization.h:158-176 | what is written for a numeric, byte by byte: byte i is the base-256 digit counted from the most significant end in network order on either host, and from the least significant end in a little-endian host's own order |
| `Bytes.FourBytes` | include/OsterLib/serialization.h:166-172 | the four bytes of a 32-bit number in network order, on either host |
| `WireFormat.EncodingIsLaidOut` | include/OsterLib/serialization.h:155-210 | a string is the encoding of a value if and only if it is laid out as the format says: digits of numerics, one byte 0 for no value, one byte 1 before a held value, eight bytes of count or index, and parts in order |
| `WireFormat.ItemsInARow` | include/OsterLib/serialization.h:665-682 | items stand one behind the other, first item first |
| `WireFormat.FieldsInARow` | include/OsterLib/serialization.h:908-918 | so do the fields of a struct |
| `Serializer.Serialize` | include/OsterLib/serialization.h:155-210 | Serialize appends exactly the encoding of the value to whatever the buffer holds, and what it appends is laid out byte for byte as the wire format says |
| `Serializer.SerializeItems` | include/OsterLib/serialization.h:665-682 | the range loop appends the items' encodings in order |
| `Serializer.SerializeArray` | include/OsterLib/serialization.h:458-479 | the block copy of byte arrays and the item loop append the same bytes |
| `Serializer.SerializeFields` | include/OsterLib/serialization.h:908-918 | the variadic overload appends the fields in order |
| `Serializer.RawBytesAreTheEncoding` | include/OsterLib/serialization.h:461-466 | the raw memory of one-byte items is their item-by-item encoding, in every byte order |
| `CodecSizes.MinSizeIsLowerBound` | include/OsterLib/serialization.h:322-345 | min_serial_size, in wrapping size_t arithmetic, never exceeds the length of an encoding |
| `CodecSizes.FieldsLowerBound` | include/OsterLib/serialization.h:544-555 | the variadic minimum bounds a struct's encoding from below |
| `CodecSizes.MinOverIsLeast` | include/OsterLib/serialization.h:865-880 | the variant minimum is at most the minimum of each alternative |
| `ShortestEncoding.ShortestIsLowerBound` | include/OsterLib/serialization.h:322-345 | no encoding is shorter than Shortest, the minimum computed in unbounded arithmetic |
| `ShortestEncoding.ShortestIsReached` | include/OsterLib/serialization.h:322-345 | every type has a value whose encoding is that short |
| `ShortestEncoding.MinSizeExactly` | include/OsterLib/serialization.h:322-345 | min_serial_size is the length of the shortest encoding if and only if nothing it adds up leaves size_t and no alternative of a variant has wrapped below the shortest one; every type |
| `ShortestEncoding.MinSizeIsShortest` | include/OsterLib/serialization.h:322-345 | for every type none of whose parts has only encodings too long for size_t, min_serial_size is the length of a value's encoding |
| `ShortestEncoding.MinOverIsReached` | include/OsterLib/serialization.h:865-880 | the variant minimum is the minimum of one of the alternatives |
| `ShortestEncoding.WrappedAlternative` | include/OsterLib/serialization.h:865-880 | a type whose own shortest encoding fits, with min_serial_size 8 for a shortest encoding of 12 |
| `CodecSizes.LongestIsUpperBound` | include/OsterLib/serialization.h:347-370 | no encoding is longer than Longest, the maximum computed in unbounded arithmetic |
| `CodecSizes.LongestIsReached` | include/OsterLib/serialization.h:347-370 | every type has a value whose encoding is that long |
| `CodecSizes.MaxSizeExactly` | include/OsterLib/serialization.h:347-370 | max_serial_size bounds every encoding of the type if and only if it is not below the longest one; every type, wrapped pairs included |
| `CodecSizes.MaxSizeIsLongest` | include/OsterLib/serialization.h:557-582 | where no pair wraps, a max_serial_size below SIZE_MAX is exactly the length of the longest encoding |
| `CodecSizes.MaxSizeIsUpperBound` | include/OsterLib/serialization.h:347-370 | such a maximum bounds every encoding of the type and is reached |
| `ShortestEncoding.MaxSizeSaturates` | include/OsterLib/serialization.h:347-370 | where no pair wraps and ranges hold elements that take bytes, max_serial_size is the longest length, or SIZE_MAX if that is not below SIZE_MAX |
| `ShortestEncoding.EmptyElements` | include/OsterLib/serialization.h:347-370 | a range of elements without bytes is eight bytes long and claims SIZE_MAX |
| `CodecSizes.FieldsUpperBound` | include/OsterLib/serialization.h:557-582 | the early-stopping variadic sum, when below SIZE_MAX, bounds a struct's encoding |
| `CodecSizes.MaxOverIsGreatest` | include/OsterLib/serialization.h:882-897 | the variant maximum is at least the maximum of each alternative |
| `CodecSizes.PairMaximumWraps` | include/OsterLib/serialization.h:362-364 | a pair whose maxima do not fit in size_t claims less than either part, and for every such pair with one exact part an encoding exceeds the claim |
| `SizeExactness.SerialSizeExactly` | include/OsterLib/serialization.h:298-320 | for every value whose encoding fits in size_t, serial_size never exceeds its length, and equals it if and only if no array shortcut passes over an item longer than the element minimum |
| `SizeExactness.SerialSizeIsExact` | include/OsterLib/serialization.h:298-320 | serial_size is the length of the encoding for every type whose array shortcuts are sound |
| `SizeExactness.FittingPairsAreSound` | include/OsterLib/serialization.h:505-517 | only a wrapped pair inside the element type of an array can make a shortcut unsound |
| `SizeExactness.ArrayShortcut` | include/OsterLib/serialization.h:505-517 | under a sound shortcut every item has the minimum length, and SZ times the minimum is the item-by-item sum |
| `SizeExactness.WrappedPairShortcut` | include/OsterLib/serialization.h:505-517 | pairs of a range and a type whose maximum is 9 above its minimum always take the shortcut; the size of an array of them is right if and only if every pair is minimal |
| `SizeExactness.ShortcutLosesBytes` | include/OsterLib/serialization.h:505-517 | an array of two such pairs reports 18 for 20 bytes |
| `OneShot.RoundTrip` | include/OsterLib/serialization.h:105-137 | decoding encode(v) followed by anything, from a reader with nothing to skip, returns v, leaves exactly the rest, restores the level and leaves no memo of this level |
| `OneShot.RoundTripInto` | include/OsterLib/serialization.h:105-137 | the same into any target: what is returned is v merged into the target |
| `OneShot.OverwritesExactly` | include/OsterLib/serialization.h:625-638 | every value replaces what a target held if and only if no std::optional that is decoded in place holds a value |
| `OneShot.OptRoundTrip` | include/OsterLib/serialization.h:611-639 | the same for optional and smart pointer, flag included; a held std::optional stays if the flag is 0, a held pointer does not |
| `OneShot.RangeRoundTrip` | include/OsterLib/serialization.h:684-740 | the same for ranges, and for forward_list, which is built backwards and reversed at the end |
| `OneShot.ArrayRoundTrip` | include/OsterLib/serialization.h:480-503 | the same for arrays, whose memo is rewritten at every element |
| `OneShot.FieldsRoundTrip` | include/OsterLib/serialization.h:138-151 | the same for the variadic field loop |
| `OneShot.VariantRoundTrip` | include/OsterLib/serialization.h:823-850 | the same for variants, whatever alternative the target held before |
| `AnyBytes.DecodeFollows` | include/OsterLib/serialization.h:105-151 | on any bytes, a reader between two values does what the byte grammar says: same answer, same value, same bytes used, level and outer memos kept |
| `AnyBytes.AnswersAreExact` | include/OsterLib/serialization.h:105-137 | on any bytes: a returned value has the type and took as many bytes as its encoding has; BUFFER_SIZE_LESSER is said exactly where further bytes can change the answer, UNMATCHED_TYPE where none can; decoding never aborts |
| `AnyBytes.WrongIndex` | include/OsterLib/serialization.h:830-835 | every index that names no alternative gives UNMATCHED_TYPE, the target as it was, exactly eight bytes used and the level restored |
| `Grammar.ParsedIsTyped` | include/OsterLib/serialization.h:105-151 | what the grammar accepts is a value of the type, as long as its encoding |
| `Grammar.ParsedIsFinal` | include/OsterLib/serialization.h:105-151 | an answer other than BUFFER_SIZE_LESSER is the same whatever bytes follow |
| `Grammar.Completion` | include/OsterLib/serialization.h:105-151 | after BUFFER_SIZE_LESSER there are bytes that lead to another answer |
| `PrefixFree.ChunksAreTheEncoding` | include/OsterLib/serialization.h:155-210 | the encoding is the concatenation of its numeric fields |
| `PrefixFree.ShortRead` | include/OsterLib/serialization.h:105-137 | any strict prefix of encode(v) gives BUFFER_SIZE_LESSER and consumes exactly the whole numeric fields in it; memos of outer levels stay |
| `PrefixFree.ShortOpt` | include/OsterLib/serialization.h:611-639 | the same inside an optional or pointer |
| `PrefixFree.ShortRange` | include/OsterLib/serialization.h:684-740 | the same inside a range or forward_list |
| `PrefixFree.ShortArray` | include/OsterLib/serialization.h:480-503 | the same inside an array, although its memo is rewritten before the error is looked at |
| `PrefixFree.ShortFields` | include/OsterLib/serialization.h:138-151 | the same inside a struct |
| `PrefixFree.ShortVariant` | include/OsterLib/serialization.h:823-850 | the same inside a variant; UNMATCHED_TYPE is never reported |
| `Resume.EnoughSkipped` | include/OsterLib/serialization.h:53-59 | with c recorded bytes between iterator and end, the skip test fires for a field exactly when c covers it |
| `Resume.SkipHeader` | include/OsterLib/serialization.h:619-624 | a retry past a flag or index that was read goes straight to the held value |
| `Resume.SkipRange` | include/OsterLib/serialization.h:690-692 | a retry past a size header takes the size from the memo and reads only the missing items |
| `Resume.ResumeFull` | include/OsterLib/serialization.h:73-137 | from any partial record of v, with the missing bytes at hand, a retry completes exactly v and clears the memo |
| `Resume.ResumeShort` | include/OsterLib/serialization.h:73-137 | from any partial record of v, short of its last byte, a retry reports it and leaves a correct longer record |
| `StreamSession.AttemptExact` | include/OsterLib/serialization.h:115-137 | one attempt in a run delivers the next message if its last byte was fed and otherwise waits; the run stays in step either way |
| `StreamSession.RunStaysInStep` | include/OsterLib/serialization.h:42-65 | every run of pushes, flushes and attempts over a prefix of the stream stays in step with it |
| `StreamSession.ResumableDecodingIsExact` | include/OsterLib/serialization.h:42-137 | after any run the delivered values are the first messages in order, and the next attempt succeeds if and only if the last byte of the next message has been fed |
| `StreamSession.EveryMessageArrives` | include/OsterLib/serialization.h:115-137 | once all bytes are fed, as many attempts as messages are missing deliver all of them |
| `ResumeFailures.StructResumesExactly` | include/OsterLib/serialization.h:104-151 | a struct or pair of numerics that arrives in two views is recovered by a retry if and only if the first view ends inside the first field, and is otherwise reported short |
| `OptionalFirst.OptionalFirstResumesExactly` | include/OsterLib/serialization.h:611-639 | a struct of an optional or pointer and a numeric is recovered by a retry if and only if there is no value or it had not been read whole, and is otherwise reported short |
| `RetryOfItems.ArrayResumesExactly` | include/OsterLib/serialization.h:489-502 | for every array of numerics and every split: when the retry reports success, and that it recovers the array only if exactly two items came first and all from the second on are zero |
| `RetryOfItems.ForwardListResumesExactly` | include/OsterLib/serialization.h:701-738 | a forward_list of numerics is recovered if and only if fewer than two whole items came in the first view |
| `EndToEnd.DecodeViews` | include/OsterLib/serialization.h:42-50 | a fresh StreamSerializer object over any segmentation returns v and leaves the rest, reports a strict prefix as BUFFER_SIZE_LESSER and uses up exactly the whole numeric fields in it, reports an index without alternative as UNMATCHED_TYPE with the target untouched and eight bytes used; on any bytes the answer is exact |
| `EndToEnd.Handle` | include/OsterLib/serialization.h:42-65 | one push, flush or attempt at the object is one step of the abstract run |
| `EndToEnd.Receive` | include/OsterLib/serialization.h:42-65 | the object, driven through any sequence of pushes, flushes and retries, delivers what the abstract run does: the first messages, in order |
| `MultiBuffer.MultiBufferView.constructor` | include/OsterLib/serialization/multi_buffer.h:56-58 | a view starts at position 0 without checkpoints |
| `MultiBuffer.MultiBufferView.Available` | include/OsterLib/serialization/multi_buffer.h:65-71 | the number of unread bytes, over any segmentation |
| `MultiBuffer.MultiBufferView.Position` | include/OsterLib/serialization/multi_buffer.h:162-168 | the position in the flat string; position plus unread is the total |
| `MultiBuffer.MultiBufferView.Read` | include/OsterLib/serialization/multi_buffer.h:79-98 | reads exactly the next n bytes if they are there, across empty views too, and otherwise moves nothing |
| `MultiBuffer.MultiBufferView.Advance` | include/OsterLib/serialization/multi_buffer.h:104-119 | skips exactly n bytes if they are there and otherwise moves nothing |
| `MultiBuffer.MultiBufferView.Checkpoint` | include/OsterLib/serialization/multi_buffer.h:125-127 | pushes the cursor on the checkpoint stack |
| `MultiBuffer.MultiBufferView.Rollback` | include/OsterLib/serialization/multi_buffer.h:133-140 | pops the checkpoint stack and restores that cursor |
| `MultiBuffer.MultiBufferView.Commit` | include/OsterLib/serialization/multi_buffer.h:146-150 | pops the checkpoint stack and keeps the cursor |
| `MultiBuffer.MultiBufferView.Push` | include/OsterLib/serialization/multi_buffer.h:151-156 | appends to the unread bytes and leaves every cursor valid |
| `MultiBuffer.MultiBufferView.ReadTrivial` | include/OsterLib/serialization/multi_buffer.h:173-185 | decodes the next w bytes; a failed read changes nothing, checkpoints included |
| `MultiBuffer.MultiBufferView.FlushDeserialized` | include/OsterLib/serialization/multi_buffer.h:199-212 | returns the position and keeps exactly the unread suffix |
| `StreamSerializerClass.StreamSerializer.constructor` | include/OsterLib/serialization.h:28-41 | a fresh reader is the initial reader state |
| `StreamSerializerClass.StreamSerializer.PushView` | include/OsterLib/serialization.h:42-50 | a non-empty view is appended to the unread bytes and rewinds the iterator |
| `StreamSerializerClass.StreamSerializer.Flush` | include/OsterLib/serialization.h:62-65 | drops consumed bytes, which no later decoding can tell |
| `StreamSerializerClass.StreamSerializer.TryAdvance` | include/OsterLib/serialization.h:72-79 | skips a field exactly when end minus iterator, modulo 2^64, covers it |
| `StreamSerializerClass.StreamSerializer.RegisterValue` | include/OsterLib/serialization.h:81-85 | appends to the memo of the current level only |
| `StreamSerializerClass.StreamSerializer.UpdateValueAt` | include/OsterLib/serialization.h:93-98 | replaces one memo entry of the current level only |
| `StreamSerializerClass.StreamSerializer.RegisteredCount` | include/OsterLib/serialization.h:99-103 | the memo size of the current level |
| `StreamSerializerClass.StreamSerializer.DeserializeNum` | include/OsterLib/serialization.h:105-114 | the numeric overload equals the function NumRead on the abstract state |
| `StreamSerializerClass.StreamSerializer.Deserialize` | include/OsterLib/serialization.h:115-137 | one call of deserialize on the object equals Decode on the abstract state, result and state |
| `StreamSerializerClass.StreamSerializer.Settle` | include/OsterLib/serialization.h:121-136 | closing a message, dropping a level's memo, or rewinding after a failure |
| `StreamSerializerClass.StreamSerializer.DeserializeOpt` | include/OsterLib/serialization.h:621-638 | equals the optional and pointer case of Decode |
| `StreamSerializerClass.StreamSerializer.DeserializeVariant` | include/OsterLib/serialization.h:827-849 | equals the variant case of Decode; an index read now selects the alternative, or is refused with the target as it was if there is none |
| `StreamSerializerClass.IndexSelects` | include/OsterLib/serialization.h:830-835 | the same for the variant case of Decode, for every index |
| `StreamSerializerClass.StreamSerializer.DeserializeFields` | include/OsterLib/serialization.h:138-151 | equals the field loop of Decode |
| `StreamSerializerClass.StreamSerializer.DeserializeHeader` | include/OsterLib/serialization.h:686-699 | reads or skips the size header |
| `StreamSerializerClass.StreamSerializer.DeserializeRange` | include/OsterLib/serialization.h:686-738 | equals the range case of Decode |
| `StreamSerializerClass.StreamSerializer.DeserializeForward` | include/OsterLib/serialization.h:701-738 | equals the forward_list case of Decode |
| `StreamSerializerClass.StreamSerializer.DeserializeItems` | include/OsterLib/serialization.h:712-734 | the item loop equals the recursive item loop, for every partly filled target |
| `StreamSerializerClass.StreamSerializer.DeserializeArray` | include/OsterLib/serialization.h:489-502 | equals the array case of Decode |
| `StreamSerializerClass.StreamSerializer.DeserializeElements` | include/OsterLib/serialization.h:494-500 | the element loop equals the recursive element loop |
| `Segment.BoxOnLineLies` | include/OsterLib/geometry/algorithms.h:50-71 | a collinear point in the bounding box is a point of the segment, degenerate segments included |
| `Segment.CrossingMeets` | include/OsterLib/geometry/Line.h:245-247 | strictly opposite orientations on both sides produce a common point |
| `Segment.IntersectsIffMeet` | include/OsterLib/geometry/Line.h:239-253 | the test holds if and only if the closed segments share a point |
| `Segment.IntersectsIsSymmetric` | include/OsterLib/geometry/Line.h:239-253 | the test does not depend on the order of the segments |
| `LineCut.IntersectionIsTheCommonPoint` | include/OsterLib/geometry/Line.h:173-198 | if a point is returned, it is the one and only common point of the two lines |
| `LineCut.IntersectionOnSegments` | include/OsterLib/geometry/Line.h:173-198 | if the segments meet, the returned point is on both |
| `CrossingFound.FoundExactly` | include/OsterLib/geometry/Line.h:191-195 | a point is returned if and only if the determinant is not zero and at least 1e-12 times the product of the largest coordinate differences |
| `CrossingFound.FoundWithin` | include/OsterLib/geometry/Line.h:191-195 | the same from any bounds on the coordinate differences |
| `CrossingFound.FoundOnGrid` | include/OsterLib/geometry/Line.h:173-198 | for whole coordinates up to 100000 in absolute value a point is returned if and only if the lines are not parallel |
| `CrossingFound.CrossingOnGrid` | include/OsterLib/geometry/Line.h:173-198 | there, segments that intersect and are not parallel have the returned point in common |
| `LineCut.CutExactly` | include/OsterLib/geometry/Line.h:206-237 | a proper cut is exactly the part of the segment in the chosen closed half-plane if and only if the first end is off the cutting line or the second end is left of it |
| `LineCut.SidesSwapped` | include/OsterLib/geometry/Line.h:224-236 | with the first end on the line and the second to its right, the kept piece is wrong for both choices |
| `LineCut.CutGoesWrong` | include/OsterLib/geometry/Line.h:224-236 | a unit segment that starts on the cutting line and leaves it to the right is such a cut |
| `CrossingFound.CutsProperlyExactly` | include/OsterLib/geometry/Line.h:216-223 | the cut takes place if and only if a point is found and the cutting line passes through the segment |
| `CrossingFound.UncutStaysWhole` | include/OsterLib/geometry/Line.h:216-223 | otherwise exactly the segment comes back, whatever side is asked for |
| `CrossingFound.UncutOnGrid` | include/OsterLib/geometry/Line.h:216-223 | on the grid that is so for every parallel line and every line that passes the segment by |
| `Extremes.UpdateLists` | include/OsterLib/geometry/Polygon.h:42-86 | update_minX and its siblings keep a list of exactly the extremal indices, each once |
| `Extremes.ListsAppend` | include/OsterLib/geometry/Polygon.h:382-386 | appending a vertex keeps the list exact |
| `Extremes.ListsInsert` | include/OsterLib/geometry/Polygon.h:400-419 | shifting the indices at and after an inserted vertex and updating keeps the list exact |
| `Extremes.ListsErase` | include/OsterLib/geometry/Polygon.h:448-465 | shifting the indices after an erased non-extremal vertex keeps the list exact |
| `PolygonClass.ExtremalDecides` | include/OsterLib/geometry/Polygon.h:428-431 | comparing with the fronts decides membership in each of the four lists |
| `PolygonClass.ExtremalLists` | include/OsterLib/geometry/Polygon.h:42-86 | the four lists hold all leftmost, rightmost, lowest and highest vertices, each once |
| `Shoelace.AppendCopy` | include/OsterLib/geometry/Polygon.h:367-376 | appending a copy of the first or last vertex leaves the cyclic sum unchanged |
| `Shoelace.RectangleSum` | include/OsterLib/geometry/Polygon.h:266-281 | counterclockwise, the sum of a rectangle is twice its area |
| `Shoelace.InsertSum` | include/OsterLib/geometry/Polygon.h:388-401 | inserting any vertex changes the sum by the cross product it forms with the two vertices it is put between |
| `Shoelace.InsertCopy` | include/OsterLib/geometry/Polygon.h:388-399 | inserting a copy of either neighbour leaves the cyclic sum unchanged |
| `Shoelace.InsertCopyOfTheNextButOne` | include/OsterLib/geometry/Polygon.h:392-399 | the copy that insert mistakes for a neighbour takes away the triangle around the insertion point, for every list and index |
| `Simplicity.CheckSimple` | include/OsterLib/geometry/Polygon.h:303-366 | no index leaves the list, and for every list whatsoever the answer is Accepts: the scanned edges of the cycle without repeats do not meet |
| `Simplicity.AcceptsExactly` | include/OsterLib/geometry/Polygon.h:303-366 | that answer is the simplicity of the cycle with its repeats removed, except if and only if three vertices sit at two positions, or the last vertex is stored twice and only the closing edge meets another |
| `Simplicity.AcceptsCleanCycles` | include/OsterLib/geometry/Polygon.h:303-366 | on a cycle without repeated neighbours, closed or not, the answer is simplicity: three vertices or more and no two non-adjacent edges with a common point |
| `Simplicity.LeadingRepeatPasses` | include/OsterLib/geometry/Polygon.h:327-347 | two positions with the first one repeated pass for valid |
| `Simplicity.TrailingRepeatHidesCrossing` | include/OsterLib/geometry/Polygon.h:350-358 | every quadrilateral whose second edge meets the closing one passes for valid once its last vertex is stored twice, and is refused without the repeat |
| `Simplicity.CrossedSquarePasses` | include/OsterLib/geometry/Polygon.h:350-358 | such a quadrilateral with its coordinates |
| `Simplicity.RowsDecide` | include/OsterLib/geometry/Polygon.h:303-366 | an exhaustive scan of the rows decides the answer |
| `Simplicity.TrimTail` | include/OsterLib/geometry/Polygon.h:314-322 | the backward scan stops at the specified vertex |
| `Simplicity.ScannedStretch` | include/OsterLib/geometry/Polygon.h:314-326 | the stretch it leaves, without repeats, is the whole reduced cycle, or the cycle has fewer than three vertices |
| `Simplicity.StoredEdge` | include/OsterLib/geometry/Polygon.h:331-354 | the segment the code builds at an index is the edge of the reduced cycle at that place |
| `Simplicity.ScanRow` | include/OsterLib/geometry/Polygon.h:345-360 | the inner loop decides whether any edge that is not a neighbour meets the edge at i, repeats skipped |
| `Simplicity.CopyKeepsCycle` | include/OsterLib/geometry/Polygon.h:367-376 | a copy of the first or last vertex that leaves a clean cycle is the closing copy of the same cycle |
| `InsertedVertex.KeptValidity` | include/OsterLib/geometry/Polygon.h:392-400 | when insert keeps its caches and the new cycle is clean, simplicity is unchanged if the vertex copies a neighbour and lost for certain otherwise |
| `InsertedVertex.CopyOfTheNextButOneCrosses` | include/OsterLib/geometry/Polygon.h:392-400 | a copy of the vertex behind the one pushed back makes two non-adjacent edges meet, for every list and index |
| `InsertedVertex.TurnedIsSimple` | include/OsterLib/geometry/Polygon.h:400 | simplicity does not depend on where the cycle starts |
| `PolygonClass.ClockwiseIsTheSign` | include/OsterLib/geometry/Polygon.h:105-117 | past the tolerance the flag that is_clockwise caches is the sign of the sum if and only if the polygon is not flat on a coordinate axis |
| `PolygonClass.FlatLooksClockwise` | include/OsterLib/geometry/Polygon.h:105-117 | (0,0), (1,0), (2,0) counts as clockwise in either direction |
| `PolygonClass.KeptArea` | include/OsterLib/geometry/Polygon.h:392-400 | an area kept by insert is right if and only if the new vertex is in line with the two it is put between |
| `PolygonClass.KeptOrientation` | include/OsterLib/geometry/Polygon.h:392-400 | an orientation kept by insert is right if and only if the added triangle leaves the sum on the same side of zero |
| `PolygonClass.StaleArea` | include/OsterLib/geometry/Polygon.h:266-281 | a self-crossing quadrilateral has its area 0 cached, and a copy of its second vertex put in front keeps it although it is now -2 |
| `PolygonClass.ThresholdFacts` | include/OsterLib/geometry/Polygon.h:101-107 | the tolerance is 2^-52 times the largest absolute coordinates times the number of vertices; it is zero exactly for polygons flat on an axis, whose sum is zero too |
| `PolygonClass.DrawnIsDecisive` | include/OsterLib/geometry/Polygon.h:101-107 | with at most 4000 vertices on whole coordinates up to a million, the sum passes the tolerance if and only if it is not zero or the polygon is flat on an axis |
| `PolygonClass.Polygon.constructor` | include/OsterLib/geometry/Polygon.h:26-39 | an empty polygon has true caches and exact lists |
| `PolygonClass.Polygon.Append` | include/OsterLib/geometry/Polygon.h:367-387 | the vertex is appended, the index lists stay exact, cached area, orientation and validity stay true, and the caches are dropped exactly when the vertex copies neither end |
| `PolygonClass.Polygon.InsertVertex` | include/OsterLib/geometry/Polygon.h:388-421 | the vertex is inserted, the index lists stay exact, cached values never change, the caches are dropped exactly when neither compared vertex equals it, and each kept value is right under its exact condition |
| `PolygonClass.Polygon.EraseVertex` | include/OsterLib/geometry/Polygon.h:423-466 | the clamped vertex is removed, the index lists are rebuilt or shifted exactly, and the caches are reset |
| `PolygonClass.Polygon.Rebuild` | include/OsterLib/geometry/Polygon.h:436-447 | a scan builds the four exact lists |
| `PolygonClass.Polygon.SumTerms` | include/OsterLib/geometry/Polygon.h:95-100 | the loop with its cyclic second index computes the shoelace sum |
| `PolygonClass.Polygon.IsClockwise` | include/OsterLib/geometry/Polygon.h:88-120 | an orientation is cached exactly when there are three vertices and the sum passes the tolerance, and then it is the sign of the sum if and only if the polygon is not flat on an axis; on whole coordinates every sum other than zero gives its sign |
| `PolygonClass.Polygon.ComputeThreshold` | include/OsterLib/geometry/Polygon.h:101-104 | the fronts of the lists give the largest absolute coordinates |
| `PolygonClass.Polygon.CheckValid` | include/OsterLib/geometry/Polygon.h:303-366 | a fresh answer is Accepts, and simplicity on clean cycles; a cached one is repeated, and the cache stays right |
| `PolygonClass.Polygon.Area` | include/OsterLib/geometry/Polygon.h:266-281 | half the shoelace sum, cached, or nothing: on a clean cycle nothing if and only if the polygon is simple, as the code has it |
| `WorkerQueue.ConservedStep` | src/network/abstractworker.cpp:371-399 | every step keeps executed, then drained, then queued equal to the push order |
| `WorkerQueue.InvStep` | src/network/threadpool.cpp:408-414 | every step keeps conservation, the wake-up invariant and the record of set_error calls |
| `WorkerQueue.RunsKeepInv` | src/network/abstractworker.cpp:25-35 | in every interleaving of any number of producers, every reachable state keeps the invariant |
| `WorkerQueue.PushedIsSubmitted` | src/network/abstractworker.cpp:371-399 | the push order is everything the producers submitted, whole and in the order in which they got the mutex |
| `WorkerQueue.ProducersAreNeverBlocked` | src/network/abstractworker.cpp:371-399 | in every state a producer can enqueue any commands and then signal, after which the counter is positive |
| `WorkerQueue.CommandsRunOnceInOrder` | src/network/threadpool.cpp:408-414 | in every run, what was executed is a prefix of what was pushed, no promise is set twice, an executed command set its promise to the first error it met if and only if it did not lose a connection |
| `Commands.BaseCommand.ExecuteInternal` | src/network/worker/command.cpp:87-200 | every command calls set_error at most once, not at all exactly when a socket was opened and no connection was made, and reports success if and only if every stage succeeded; what each command reports on each of its paths, errno values included |
| `Commands.BaseCommand.AddConnectionInternal` | src/network/worker/command.cpp:87-132 | the nested branches report EINVAL for a bad handle, then the code of the first call that failed, and nothing for a lost connection |
| `Commands.BaseCommand.TaskDoneInternal` | src/network/worker/command.cpp:236-252 | exactly one call on each of the three paths: ESRCH without a task, ECANCELED for a task that is not ready, and otherwise what handling the event reported |
| `Commands.BaseCommand.SetError` | include/OsterLib/network/worker/command.h:59-61 | an unset promise is set once |
| `Commands.OnlyLostConnectionsStayUnset` | src/network/worker/command.cpp:87-132 | an unset promise means an AddConnection whose handle, address and socket were all good |
| `WorkerQueue.ResolvedOnce` | include/OsterLib/network/worker/command.h:59-61 | runs of distinct commands set distinct promises, exactly those of their own calls |
| `WorkerQueue.WaitingWorkerIsAwakened` | src/network/multiplexor.cpp:258-262 | with all pushes complete, a waiting worker with queued commands can be woken by the eventfd |
| `WorkerQueue.WorkerCatchesUp` | src/network/abstractworker.cpp:25-35 | from any reachable state with all pushes complete, the worker alone executes every command, whatever their calls report, and goes to sleep with an empty queue and a zero counter |
| `WorkerQueue.FilterEvents` | src/network/multiplexor.cpp:296-310 | the in-place compaction loses the eventfd's entries and nothing else: the kept events are the same multiset, each as many places further up as eventfd entries went before it, and the eventfd is noticed |
| `WorkerQueue.OthersAreFiltered` | src/network/multiplexor.cpp:296-310 | the function that specifies the filter has these properties for every list of events |
| `Terminal.PrintShows` | linenoise/linenoise.c:637-643 | text printed on blank rows of a deferred-wrap terminal shows wrapped at the width, and where the cursor rests |
| `Redraw.CleanBlanks` | linenoise/linenoise.c:613-626 | from a synced screen the cleaning half returns to the first row and blanks every row the old line used |
| `Redraw.WriteSyncs` | linenoise/linenoise.c:635-681 | on blank rows the writing half shows prompt and line and puts the cursor where it belongs |
| `Redraw.RefreshSyncs` | linenoise/linenoise.c:596-688 | any refresh from a synced screen to any text and cursor leaves the screen synced: exactly prompt and text wrapped at the width, blank below, untouched above, cursor at (plen+pos)/cols and (plen+pos)%cols |
| `Redraw.RefreshExactly` | linenoise/linenoise.c:648-660 | a refresh does so if and only if it is not an empty line after a prompt that ends at the right margin |
| `Redraw.FullPromptMisplaced` | linenoise/linenoise.c:650-671 | in that case the cursor stays one row too high |
| `Redraw.HideBlanks` | linenoise/linenoise.c:705-710 | hiding blanks everything the line covered and returns to its first row |
| `Redraw.ShowSyncs` | linenoise/linenoise.c:713-719 | showing starts a synced line on whatever row the cursor is |
| `Redraw.StartSyncs` | linenoise/linenoise.c:904 | the printed prompt is a synced empty line if and only if it is shorter than a row |
| `LineEditor.LineState.constructor` | linenoise/linenoise.c:871-906 | starting gives an empty, terminated buffer, the session's history slot and a synced prompt |
| `LineEditor.LineState.RefreshMultiLine` | linenoise/linenoise.c:596-688 | the appended operations are the specified refresh sequence, and oldrows and oldpos are updated to match |
| `LineEditor.LineState.AppendClean` | linenoise/linenoise.c:613-626 | the clear-and-go-up loop |
| `LineEditor.LineState.AppendWrite` | linenoise/linenoise.c:635-681 | the writing half with its newline and row count |
| `LineEditor.LineState.RefreshLine` | linenoise/linenoise.c:700-702 | after a refresh the screen is in sync with buffer and cursor |
| `LineEditor.LineState.HideLine` | linenoise/linenoise.c:705-710 | the screen is blank from the origin down and the text around the cursor unchanged |
| `LineEditor.LineState.ShowLine` | linenoise/linenoise.c:713-719 | the line is in sync again from a new origin |
| `LineEditor.LineState.Insert` | linenoise/linenoise.c:724-749 | inserts at the cursor if there is room; buffer valid and terminated, screen in sync, history untouched |
| `LineEditor.LineState.EditMoveLeft` | linenoise/linenoise.c:752-757 | one character passes from left to right of the cursor |
| `LineEditor.LineState.EditMoveRight` | linenoise/linenoise.c:760-765 | one character passes from right to left of the cursor |
| `LineEditor.LineState.EditMoveHome` | linenoise/linenoise.c:768-773 | everything is right of the cursor |
| `LineEditor.LineState.EditMoveEnd` | linenoise/linenoise.c:776-781 | everything is left of the cursor |
| `LineEditor.LineState.EditHistoryNext` | linenoise/linenoise.c:787-807 | the edited entry is saved, the index moves one line back for up and one forth for down and not past either end, and the entry there is loaded; at an end the text stays; the array of lines with the live buffer in its slot is unchanged if and only if the loaded entry fits the buffer |
| `LineEditor.LineState.Load` | linenoise/linenoise.c:802-804 | strncpy, terminator and strlen load the entry, cut to the buffer |
| `LineEditor.LineState.SaveEntry` | linenoise/linenoise.c:791-792 | the live buffer goes into its history slot |
| `LineEditor.LineState.EditDelete` | linenoise/linenoise.c:811-818 | removes the character right of the cursor |
| `LineEditor.LineState.EditBackspace` | linenoise/linenoise.c:821-829 | removes the character left of the cursor |
| `LineEditor.LineState.EditDeletePrevWord` | linenoise/linenoise.c:833-845 | removes the run of blanks left of the cursor and the run of other characters before it, both of maximal length |
| `LineEditor.WordStartIsLastWord` | linenoise/linenoise.c:837-840 | the two backward scans skip the blanks first and then the word, each as far as it goes |
| `LineEditor.MovesOnText` | linenoise/linenoise.c:752-781 | the cursor keys leave the text alone and move the cursor by one or all the way |
| `LineEditor.InsertOnText` | linenoise/linenoise.c:724-749 | a character goes in at the cursor if there is room, and the cursor passes it |
| `LineEditor.DeletionsOnText` | linenoise/linenoise.c:811-829 | the deleting keys take exactly the character left or right of the cursor, the line, or the rest of it |
| `LineEditor.TransposeOnText` | linenoise/linenoise.c:983-991 | exactly the two characters around the cursor are swapped, and the cursor moves on unless it is before the last one |
| `LineEditor.LineState.EditTranspose` | linenoise/linenoise.c:983-991 | swaps the characters around the cursor and moves on unless at the last character |
| `LineEditor.LineState.EditKillLine` | linenoise/linenoise.c:1062-1066 | empties the line |
| `LineEditor.LineState.EditKillToEnd` | linenoise/linenoise.c:1067-1071 | removes everything right of the cursor |
| `History.LineHistory.constructor` | linenoise/linenoise.c:1250-1260 | nothing is allocated or stored at first, and the limit is 100 lines |
| `History.LineHistory.Add` | linenoise/linenoise.c:1250-1277 | the history stays a suffix of the added lines without adjacent repeats; a full one loses its oldest line, a repeat is refused |
| `History.LineHistory.SetMaxLen` | linenoise/linenoise.c:1283-1309 | the newest entries are kept, as many as fit, and a limit below one is refused |
| `History.DedupStep` | linenoise/linenoise.c:1262-1263 | comparing with the newest line is enough to remove adjacent repeats from the whole sequence |
| `RingBufferClass.RingBuffer.Size` | include/OsterLib/network/buffers/ring_buffer.h:119-126 | the size determines the tail from the head, and the flag tells full from empty |
| `RingBufferClass.RingBuffer.IsEmpty` | include/OsterLib/network/buffers/ring_buffer.h:127 | true exactly for the empty queue |
| `RingBufferClass.RingBuffer.DataAt` | include/OsterLib/network/buffers/ring_buffer.h:130-133 | the i-th element of the queue |
| `RingBufferClass.RingBuffer.Insert` | include/OsterLib/network/buffers/ring_buffer.h:148-169 | appends the longest prefix that fits and returns where it stopped |
| `RingBufferClass.RingBuffer.Fill` | include/OsterLib/network/buffers/ring_buffer.h:150-166 | the two copies fill the free cells in order and touch no queued element |
| `RingBufferClass.RingBuffer.PopFront` | include/OsterLib/network/buffers/ring_buffer.h:172-178 | removes the first element, or reports an empty queue |
| `RingBufferClass.RingBuffer.Clear` | include/OsterLib/network/buffers/ring_buffer.h:181-184 | empties the queue |
| `RingBufferClass.RingBuffer.PushBack` | include/OsterLib/network/buffers/ring_buffer.h:186-200 | appends one element, or reports a full queue and changes nothing |
| `RingBufferClass.RingBuffer.WriteVectored` | include/OsterLib/network/buffers/ring_buffer.h:236-262 | the two regions are the free cells in filling order, total the free space and contain no queued cell |
| `RingBufferClass.RingBuffer.Data` | include/OsterLib/network/buffers/ring_buffer.h:264-281 | the two spans are the queue when it is not empty, and the whole array twice when it is |
| `RingBufferClass.RingBuffer.ReadVectored` | include/OsterLib/network/buffers/ring_buffer.h:284-302 | the two regions are the queue in order, in every state |
| `RingBufferClass.RingBuffer.CommitWrite` | include/OsterLib/network/buffers/ring_buffer.h:305-313 | what was put into the free cells, as far as they go, joins the queue |
| `RingBufferClass.RingBuffer.CommitRead` | include/OsterLib/network/buffers/ring_buffer.h:316-323 | the first n elements, or all of them, leave the queue |
| `VectorizedBufferClass.Pushed` | include/OsterLib/network/buffers/vectorized_buffer.h:31-36 | a new buffer and its slice add their bytes and disturb no other slice |
| `VectorizedBufferClass.Released` | src/network/buffers/vectorized_buffer.cpp:30-36 | releasing buffers in front disturbs no slice behind them |
| `VectorizedBufferClass.VectorizedBuffer.PushBuffer` | include/OsterLib/network/buffers/vectorized_buffer.h:31-42 | the bytes join the pending ones; sent then pending is everything pushed |
| `VectorizedBufferClass.VectorizedBuffer.Consume` | src/network/buffers/vectorized_buffer.cpp:17-29 | exactly the first k pending bytes, or all of them, become sent; conservation is kept and no slice becomes empty |
| `VectorizedBufferClass.VectorizedBuffer.Compact` | src/network/buffers/vectorized_buffer.cpp:30-36 | both lists drop the finished prefix and the pending bytes stay |
| `VectorizedBufferClass.VectorizedBuffer.HasToWrite` | src/network/buffers/vectorized_buffer.cpp:37-39 | true exactly when bytes are pending |
| `VectorizedBufferClass.VectorizedBuffer.Remaining` | src/network/buffers/vectorized_buffer.cpp:11-15 | the returned slices are non-empty and gather exactly the pending bytes |
| `VectorizedBufferClass.VectorizedBuffer.ClearBuffer` | src/network/buffers/vectorized_buffer.cpp:6-10 | nothing is pending |

## Left out

- SizeExactness.SerialSizeIsExact: asks that the common size of a shortcut array's elements is the longest one; SerialSizeExactly gives the condition value by value without it.
- ShortestEncoding.MaxSizeSaturates: asks that no pair wraps and that ranges hold elements that take bytes; PairMaximumWraps and EmptyElements say what happens otherwise.
- ShortestEncoding.MinSizeIsShortest: asks that the parts of the type have encodings that fit in size_t; MinSizeExactly gives the condition for every type.
- CodecSizes.MaxSizeIsUpperBound: asks that no pair's maximum wraps; MaxSizeExactly gives the condition for every type.
- Resume.ResumeFull: for single-spine types only (a range of single-read items, or one such item, under any nesting of optional, pointer and variant); structs, pairs, arrays, nested ranges and forward_list are covered by one-shot decoding, and StructResumesExactly, OptionalFirstResumesExactly, ArrayResumesExactly and ForwardListResumesExactly say which two-view splits are resumed for structs of numerics, for an optional numeric followed by a numeric, and for arrays and forward_lists of numerics.
- StreamSession.ResumableDecodingIsExact: composite messages shorter than 2^64 bytes; a bare numeric at the top level does not move `begin`.
- VectorizedBufferClass.VectorizedBuffer.Consume: what is sent is stated for fewer than 2^32 slices, the range of `active_el_`; beyond that only the shape of the two lists is kept.
- CrossingFound.FoundOnGrid: bounds the whole coordinates by 100000; beyond that, and between them, FoundExactly is the condition.
- PolygonClass.DrawnIsDecisive: bounds the whole coordinates by a million and the vertices by 4000; otherwise the tolerance itself is the condition.
- LineEditor.LineState.constructor: the editor runs with a prompt shorter than the width; Redraw.StartSyncs shows that longer prompts are out of sync from the start.
- PolygonClass.Polygon.InsertVertex: what a kept validity is worth is stated for vertex lists whose new cycle has no repeated neighbours.
- PolygonClass.Polygon.Area: a polygon of one vertex is excluded, because the loop then reads past the list.
- WorkerQueue.CommandsRunOnceInOrder: a command object pushed twice is excluded; setting its promise again would end the program.
- Byte counters begin, end and iterator are unbounded; only their difference is taken modulo 2^64.
- Arrays of empty element types (written as padding, read as nothing), C arrays, reference_wrapper and weak_ptr.
- Associative containers as such: a range is a sequence, so reordering or merging of items by a set or map is not modelled.
- Times are their 64-bit nanosecond counts; conversion between clock periods and the bits of floating-point numbers are not modelled.
- Serialization to and from files, and reset_all.
- Floating-point rounding in the geometry; perimeter, polyline cutting, polygon intersections and comparison.
- The worker's mutex is one atomic step per critical section; what connections, sockets and processes report is a parameter of each command, and epoll, time-outs as such, request commands and the handling of other events are not modelled.
- The queue itself as an object: the worker is a state machine over values, in which a step stands for one call of execute_internal on a command object.
- Terminal scrolling: the screen has as many rows as needed; control characters and wide characters in the text.
- Hints, mask mode, completion, single-line mode, raw mode, key decoding and history files of the line editor.
- RingBuffer::extract_front and extract_back, which do not match a queue; buffers of capacity 0; iterators.
- Linear algebra, time intervals, interpolation, logging, JSON, images and archives.
