# Authored text, its operations, and the browser store

A Dafny model of three parts of libinfinity, with proofs.

**Authored text.** `InfTextChunk` keeps a text by several authors as a sequence of segments and changes
them in place: it splits segments, merges neighbours, moves bytes and re-bases offsets. The model is a class
with the same fields and the same branches (`TextChunk.dfy`, on top of `Encoding.dfy`, `Rope.dfy`, `Cut.dfy`,
`Graft.dfy` and `Slice.dfy`). Its reference is a flat sequence of characters with authors, in which inserting
and erasing are slicing and concatenation. Every operation refines the flat one and keeps the canonical form:
contiguous offsets from 0, no empty segment, segments made of whole characters, neighbours by different
authors. As a view has only one canonical form, laws hold for the segment lists themselves (`ChunkLaws.dfy`,
`ChunkIter.dfy`).

**Operations on text.** `TextBuffer.dfy` and `TextOperation.dfy` are the default buffer and the operation
objects; they refine operation values and their transformation (`Operation.dfy`), which covers operations split
into arbitrary trees. Proved of them, for all documents and all operations: convergence of two concurrent
operations (C1, `Convergence.dfy`), undo, also of transformed operations (`Undo.dfy`), and both of these also when
the operations are compared at an earlier state (`EarlierState.dfy`, `LaterUndo.dfy`).

**Three operations.** C2 says that an operation has the same effect in whatever order it is transformed against two
others. Whether it holds depends on the states at which each pair of operations is compared:

- Three operations made in one state and compared as they were there: C2 holds for all operations that insert first
  and delete afterwards (`Orderly.dfy`), in particular for those that only insert or only delete
  (`PureOperations.dfy`), and it goes on holding at every later state, whatever has been performed in between
  (`Later.dfy`, `Steady.dfy`, `Anchor.dfy`, `OrderlyLater.dfy`, `History.dfy`). An operation that only deletes
  satisfies C2 together with any others, at any states (`Striking.dfy`, `ThreeWay.dfy`, `Later.dfy`). For one
  operation that deletes a range and then inserts a text, together with two single insertions, `Replacement.dfy`
  says exactly when C2 fails, whichever of the three passes the others.
- Each pair compared at an earliest state of its own, as the documentation of
  `inf_adopted_operation_transform` asks for: C2 fails for single insertions, for instance when somebody deletes a range
  and types in its place. `PairStates.dfy` says exactly when, for three insertions and for two insertions and a
  deletion.
- Each pair compared at the present state, which is what the only caller of `inf_adopted_algorithm_transform_request`
  brings about, as it passes requests that are at that state already (libinfinity/adopted/inf-adopted-algorithm.c:777):
  C2 fails for two insertions and a deletion. `PairStates.dfy` says exactly when, and that C2 holds for operations
  that only insert or only delete unless a deletion comes between inserting ones.

**The browser store.** `BrowserList.dfy` is the linked list of toplevel items with head and tail pointers, the
status of each item, and the row signals; the invariant includes that a view which follows the signals shows
exactly the list. `BrowserTree.dfy` is the tree model below an item, in which the node being removed is hidden;
all path and iterator functions agree with the tree from which the hidden node is pruned.

Where the code and its own description differ, the model follows the code:

- The description of `inf_text_chunk_equal` (libinftext/inf-text-chunk.c:1226-1236) says that authors are compared; the
  code compares the texts of segments only.
- `inf_text_chunk_insert_text` accepts an empty text, but can then leave an empty segment, which
  `inf_text_chunk_check_integrity` rejects. `InsertText` says exactly when.
- When a resolved item duplicates a listed connection, the code reads through the item before the resolved one
  without looking whether there is one (libinfgtk/inf-gtk-browser-store.c:994). `MergeItems` says exactly when, and
  `CrashReachable` that it happens.
- If no browser can be made for a connection, `inf_gtk_browser_store_add_connection` reads through the item that was
  not made (libinfgtk/inf-gtk-browser-store.c:472-477, 2429). `AddConnection` says exactly when.
- `get_iter` does not hide the children of a root that is being removed, the child functions do. `MissingRoot`
  says exactly when they agree.
- The integrity check compares numbers of characters with numbers of bytes (libinftext/inf-text-chunk.c:252); the
  canonical form of the model is stronger and demands that the bytes are exactly the characters.

Preconditions are of three kinds: the conditions under which the functions of the program return early with a
warning (`g_return_if_fail`); what the program asserts on entry or a caller has to know, such as an item that is
listed, a discovery that is being resolved, an iterator that was initialised, or that an inserted text is valid in
its encoding and of the stated number of characters; and that a chunk is not inserted into itself. The class invariant `Valid` is what holds in every
reachable state: each constructor establishes it, each method keeps it, except where its contract says otherwise.

## Model

| member | source | states |
|---|---|---|
| `Encodings.GetByteIndex` | libinftext/inf-text-chunk.c:90-145 | The index is the encoded length of the characters before `offset`, and lies inside the text, so the walk never runs out of input |
| `Encodings.DecodeEncode` | libinftext/inf-text-chunk.c:90-145 | Characters are recovered from their bytes: the encoding is uniquely decodable |
| `Encodings.ScalarIsChar` | libinftext/inf-text-chunk.c:90-145 | The bytes that RFC 3629 gives a scalar value, one to four by its range, are one character, from which the value can be read again |
| `Encodings.Utf8Characters` | libinftext/inf-text-chunk.c:90-145 | The characters of UTF-8 are exactly the byte sequences of the scalar values |
| `Encodings.FixedCharacters` | libinftext/inf-text-chunk.c:101-145 | The characters of an encoding of fixed width are exactly the byte sequences of that width |
| `Ropes.CanonicalUnique` | libinftext/inf-text-chunk.c:229-260 | Two canonical segment lists with the same authored characters are the same list, with equal boundaries, offsets, authors and bytes |
| `TextChunk.Chunk.constructor` | libinftext/inf-text-chunk.c:372-390 | A new chunk is canonical and holds no text |
| `TextChunk.Chunk.NextOffset` | libinftext/inf-text-chunk.c:214-227 | The position at which a segment ends, although it is read off the segment behind it or the chunk length |
| `TextChunk.Chunk.Search` | libinftext/inf-text-chunk.c:187-212 | The first segment whose offset is strictly greater than the key; all before it start at or before the key |
| `TextChunk.Chunk.GetSegment` | libinftext/inf-text-chunk.c:262-324 | For every position up to the length: the last segment that starts at or before it and the exact byte index of the character; the end of the chunk is the end of its last segment |
| `Cuts.LocatedIsCut` | libinftext/inf-text-chunk.c:262-324 | What the lookup returns cuts the authored characters exactly at the position |
| `TextChunk.Chunk.AdjustOffsets` | libinftext/inf-text-chunk.c:681-687 | Exactly the segments from the given one on are moved, all by the same distance |
| `TextChunk.Chunk.SplitSegment` | libinftext/inf-text-chunk.c:631-649 | The segment is replaced by its two halves |
| `TextChunk.Chunk.InsertSegment` | libinftext/inf-text-chunk.c:628-662 | After the segments behind are moved, the contents are the spliced ones, and the chunk is canonical if text was inserted |
| `Cuts.InsertMerged` | libinftext/inf-text-chunk.c:663-687 | Putting text into a segment of its author splices the contents and keeps the canonical form, whether or not there is any text |
| `TextChunk.Chunk.InsertText` | libinftext/inf-text-chunk.c:596-706 | The contents become the old ones with the painted text in between; the chunk stays canonical exactly if the text is not empty or has a neighbour by its author |
| `TextChunk.Chunk.CopySegments` | libinftext/inf-text-chunk.c:935-947 | The chosen segments of the other chunk stand in front of the given segment, re-based |
| `TextChunk.Chunk.MergeAround` | libinftext/inf-text-chunk.c:794-852 | In all four merge combinations, at the start, at the end and between two segments, both sides of the gap are ready for the segments still to be copied |
| `TextChunk.Chunk.SplitAround` | libinftext/inf-text-chunk.c:853-930 | The same for a gap inside a segment |
| `Grafts.Finished` | libinftext/inf-text-chunk.c:932-957 | Copying the remaining segments into the gap and moving those behind gives a canonical list with the inserted contents |
| `TextChunk.Chunk.InsertChunk` | libinftext/inf-text-chunk.c:717-983 | For every offset and every other chunk of the same encoding the contents become the old ones with all of the other's in between; the form stays canonical |
| `Cuts.HoleMerged` | libinftext/inf-text-chunk.c:1027-1063 | Borders by one author: once the first border segment has taken up the rest of the last one, removing the computed range, which is empty within one segment, and moving the segments behind it leaves exactly the contents without the erased characters |
| `Cuts.HoleApart` | libinftext/inf-text-chunk.c:1064-1092 | Borders by different authors: the same after both border segments are cut |
| `Cuts.HoleFront` | libinftext/inf-text-chunk.c:1104-1127 | A range at the start: the same after the segment it ends in is cut or kept whole |
| `Cuts.HoleBack` | libinftext/inf-text-chunk.c:1128-1149 | A range at the end: the same after the segment it starts in is cut or goes altogether |
| `TextChunk.Chunk.EraseInside` | libinftext/inf-text-chunk.c:1017-1093 | With text on both sides: removing the computed range and moving the rest leaves the contents without the range, borders joined exactly if the authors match |
| `TextChunk.Chunk.EraseOutside` | libinftext/inf-text-chunk.c:1094-1150 | The same for a range at the start, at the end, and for all of the chunk |
| `TextChunk.Chunk.Erase` | libinftext/inf-text-chunk.c:993-1173 | For every range the contents become the old ones without it; the form stays canonical |
| `TextChunk.Chunk.Substring` | libinftext/inf-text-chunk.c:489-581 | A fresh canonical chunk with exactly the characters of the range and their authors |
| `TextChunk.Chunk.Copy` | libinftext/inf-text-chunk.c:400-431 | A fresh chunk with the same segments |
| `TextChunk.Chunk.GetText` | libinftext/inf-text-chunk.c:1187-1224 | The bytes are the encoding of the characters of the contents |
| `TextChunk.Chunk.Equal` | libinftext/inf-text-chunk.c:1236-1275 | True exactly if the lists of segment texts coincide; so always for equal contents, and for those only, provided that the authors of the segments agree, which the comparison does not look at |
| `Slices.TextsAndAuthors` | libinftext/inf-text-chunk.c:1226-1275 | Chunks have equal contents exactly if both segment texts and segment authors coincide |
| `Slices.EqualIgnoresAuthors` | libinftext/inf-text-chunk.c:1226-1275 | Two canonical chunks with different authors that the comparison calls equal |
| `ChunkLaws.EmptyTextBreaksForm` | libinftext/inf-text-chunk.c:693-700 | An input for which an insertion leaves a chunk that is not canonical: no text into no text |
| `ChunkLaws.RoundTrips` | libinftext/inf-text-chunk.c:229-260 | A canonical list that results from inserting and erasing the same range, or from erasing and reinserting what was there, is the original list |
| `ChunkLaws.InsertThenErase` | libinftext/inf-text-chunk.c:717-1173 | Erasing an inserted chunk restores the identical segment list |
| `ChunkLaws.EraseThenReinsert` | libinftext/inf-text-chunk.c:489-1173 | Reinserting an erased substring restores the identical segment list |
| `ChunkLaws.InsertPiecewise` | libinftext/inf-text-chunk.c:596-706 | Inserting the segments of a chunk one by one at their offsets inserts the whole chunk |
| `ChunkLaws.BulkIsPiecewise` | libinftext/inf-text-chunk.c:744-957 | Inserting a chunk at once gives the same segment list and length as inserting its segments one by one |
| `ChunkIter.Iter.InitBegin` | libinftext/inf-text-chunk.c:1288-1306 | Points to the first segment, or fails, exactly for a chunk without text, and leaves the iterator alone |
| `ChunkIter.Iter.InitEnd` | libinftext/inf-text-chunk.c:1319-1337 | Points to the last segment, or fails, exactly for a chunk without text, and leaves the iterator alone |
| `ChunkIter.Iter.Next` | libinftext/inf-text-chunk.c:1348-1363 | Steps to the next segment, or stays and says that there is none |
| `ChunkIter.Iter.Prev` | libinftext/inf-text-chunk.c:1374-1389 | Steps to the previous segment, or stays and says that there is none |
| `ChunkIter.Iter.GetText` | libinftext/inf-text-chunk.c:1400-1405 | The encoding of exactly the characters of the contents from the segment's offset up to that of the next one |
| `ChunkIter.Iter.GetAuthor` | libinftext/inf-text-chunk.c:1479-1484 | The author of every one of these characters |
| `ChunkIter.Iter.GetOffset` | libinftext/inf-text-chunk.c:1416-1425 | The number of characters of all segments in front, which is where the segment's characters stand in the contents |
| `ChunkIter.Iter.GetBytes` | libinftext/inf-text-chunk.c:1464-1469 | The number of bytes that encode these characters |
| `ChunkIter.Iter.GetLength` | libinftext/inf-text-chunk.c:1435-1454 | The difference of two offsets is the number of characters in the segment |
| `ChunkIter.WalkForwards` | libinftext/inf-text-chunk.c:1288-1454 | From the begin by next, every segment is visited exactly once and in order, also if there is none; the texts make up the text of the chunk, the lengths its length |
| `ChunkIter.WalkBackwards` | libinftext/inf-text-chunk.c:1319-1454 | From the end by prev, every segment is visited exactly once and in the opposite order; the texts, put in front of each other, make up the text of the chunk, the lengths its length |
| `TextBuffer.Buffer.constructor` | libinftext/inf-text-default-buffer.c:390-402 | A new buffer is empty, unmodified and has announced nothing |
| `TextBuffer.Buffer.GetLength` | libinftext/inf-text-default-buffer.c:166-172 | The number of characters of the contents |
| `TextBuffer.Buffer.GetSlice` | libinftext/inf-text-default-buffer.c:174-182 | A chunk of its own with the characters of the range |
| `TextBuffer.Buffer.InsertText` | libinftext/inf-text-default-buffer.c:184-202 | The contents are spliced, the insertion is announced, and the log of announcements still replays to the contents |
| `TextBuffer.Buffer.EraseText` | libinftext/inf-text-default-buffer.c:204-226 | The range is erased, what is announced is the text that was there, and the log still replays to the contents |
| `TextBuffer.UnwindsToNothing` | libinftext/inf-text-default-buffer.c:184-226 | Reverting all announced changes in the opposite order leads back to the empty text |
| `TextOperations.DefaultInsert.constructor` | libinftext/inf-text-default-insert-operation.c:361-377 | The operation holds a copy of its own of the text |
| `TextOperations.DefaultInsert.ApplyTo` | libinftext/inf-text-default-insert-operation.c:204-239 | Succeeds exactly if the position is in the document, otherwise changes nothing; the effect and the announcement are those of the operation |
| `TextOperations.DefaultInsert.MakeReverse` | libinftext/inf-text-default-insert-operation.c:241-250 | The deletion of the same text at the same place |
| `TextOperations.DefaultInsert.TransformPosition` | libinftext/inf-text-default-insert-operation.c:267-285 | The same text at another place |
| `TextOperations.DefaultInsert.TransformInsert` | libinftext/inf-text-insert-operation.c:118-183 | Refines the transformation of operation values |
| `TextOperations.DefaultInsert.TransformDelete` | libinftext/inf-text-insert-operation.c:195-230 | Refines the transformation of operation values |
| `TextOperations.DefaultDelete.constructor` | libinftext/inf-text-default-delete-operation.c:491-507 | The operation holds a copy of its own of the text |
| `TextOperations.DefaultDelete.ApplyTo` | libinftext/inf-text-default-delete-operation.c:242-287 | Succeeds exactly if the range is in the document, otherwise changes nothing; announces the text of the document, not that of the operation |
| `TextOperations.DefaultDelete.MakeReverse` | libinftext/inf-text-default-delete-operation.c:289-301 | The insertion of the operation's text at the same place |
| `TextOperations.DefaultDelete.TransformPosition` | libinftext/inf-text-default-delete-operation.c:319-335 | The same text at another place |
| `TextOperations.DefaultDelete.TransformOverlap` | libinftext/inf-text-default-delete-operation.c:337-363 | The operation without the common part of its own text |
| `TextOperations.DefaultDelete.TransformSplit` | libinftext/inf-text-default-delete-operation.c:365-412 | Two deletions around the inserted text, which together hold the whole text of the operation |
| `TextOperations.DefaultDelete.TransformInsert` | libinftext/inf-text-delete-operation.c:123-161 | Refines the transformation of operation values, split or not |
| `TextOperations.DefaultDelete.TransformDelete` | libinftext/inf-text-delete-operation.c:173-258 | Refines the transformation of operation values in all six cases |
| `Operations.Transform` | libinfinity/adopted/inf-adopted-split-operation.c:266-362 | Transformation of arbitrarily nested operations ends, keeps the number of insertions, and splits nothing if the other operation does not insert |
| `EarlierStates.TransformMatches` | libinfinity/adopted/inf-adopted-split-operation.c:266-362 | Transformation keeps the shape of an operation as far as it inserts, whatever the earlier states are |
| `EarlierStates.AssertionHolds` | libinftext/inf-text-default-insert-operation.c:152-158 | Wherever a transformation comes to two insertions, their earlier states are insertions, for all operations whose earlier states have their shapes |
| `EarlierStates.NeverFails` | libinfinity/adopted/inf-adopted-request.c:773-792 | This holds of all operations made in one state, and of those that have passed one other operation |
| `EarlierStates.SplitLcs` | libinfinity/adopted/inf-adopted-split-operation.c:266-362 | The halves of a split operation are transformed one after the other also when they are compared at an earlier state, whatever operation tree they are transformed against |
| `EarlierStates.ConvergentLater` | libinfinity/adopted/inf-adopted-operation.c:150-187 | C1 at a later state: two operations that were transformed before, and are compared as they were at an earlier state, lead to one document in either order |
| `Convergence.InsertAndInsert` | libinftext/inf-text-insert-operation.c:118-183 | Two insertions lead to the same document in either order |
| `Convergence.InsertAndDelete` | libinftext/inf-text-insert-operation.c:195-230 | An insertion and a deletion lead to the same document in either order |
| `Convergence.InsertInsideDelete` | libinftext/inf-text-default-delete-operation.c:365-412 | A deletion around an insertion strictly inside its range is split; after it the document is the original one without the deleted text and with the inserted text where the deletion starts, in either order |
| `Convergence.DeleteDeleteRange` | libinftext/inf-text-delete-operation.c:173-258 | A deletion loses exactly the characters that both delete and moves to where its rest now starts |
| `Convergence.DeletionOutcome` | libinftext/inf-text-default-delete-operation.c:337-363 | A deletion that was transformed against another one, applied after it, leaves the original document without exactly the union of the two ranges |
| `Convergence.DeleteAndDelete` | libinftext/inf-text-default-delete-operation.c:337-363 | Two deletions, apart, overlapping or one inside the other, lead to one document in either order, the original one without exactly the union of the ranges |
| `Convergence.SplitAgainst` | libinfinity/adopted/inf-adopted-split-operation.c:266-362 | The halves of a split operation are transformed one after the other, whatever operation tree they are transformed against |
| `Convergence.Convergent` | test/inf-test-text-operations.c:247-341 | C1: for all operations, arbitrarily nested, and every document both apply to, each can be followed by the transformed other one and the documents are equal |
| `Undo.RevertTwice` | libinftext/inf-text-default-delete-operation.c:289-301 | Reverting twice gives the same operation |
| `Undo.RevertRestores` | test/inf-test-text-operations.c:174-245 | Applying any operation that holds the text it deletes and then its reverse restores the document, and the reverse can be undone itself |
| `Undo.DeleteInsertFaithful` | libinftext/inf-text-delete-operation.c:123-161 | A deletion taken past an insertion, split or not, still holds exactly the text it deletes |
| `Undo.DeleteDeleteFaithful` | libinftext/inf-text-delete-operation.c:173-258 | A deletion taken past another one holds exactly the text that is left to delete |
| `Undo.FaithfulAgainst` | libinfinity/adopted/inf-adopted-operation.c:150-187 | Transformation of two operations made in one state keeps it true that deletions hold the text they delete, for all operations |
| `Undo.UndoTransformed` | libinfinity/adopted/inf-adopted-operation.c:150-187 | An operation can be undone after it was transformed against one made in the same state |
| `LaterUndo.FaithfulLater` | libinfinity/adopted/inf-adopted-operation.c:122-187 | The same for operations of every shape that are compared at any earlier state: transformed deletions hold exactly the text they delete |
| `LaterUndo.UndoLater` | libinfinity/adopted/inf-adopted-operation.c:122-187 | An operation can be undone after it was transformed, at whatever earlier state the two are compared |
| `Striking.BlankTransform` | libinfinity/adopted/inf-adopted-operation.c:150-187 | Transformation depends on positions and lengths only, never on the text |
| `Striking.StrikesAgainst` | libinfinity/adopted/inf-adopted-split-operation.c:266-362 | What a deletion deletes moves along with every operation it is transformed against |
| `Striking.StrikesKeep` | libinftext/inf-text-default-delete-operation.c:242-287 | A deletion, however nested, leaves exactly the characters it does not strike out |
| `ThreeWay.LcsIrrelevant` | libinfinity/adopted/inf-adopted-split-operation.c:604-681 | Unless two insertions meet, neither the earlier states nor the concurrency id influence a transformation |
| `ThreeWay.DeletionThreeWay` | test/inf-test-text-operations.c:343-429 | C2 for every operation that only deletes, against any two operations, also mixed ones |
| `ThreeWay.InsertTwoDeletions` | test/inf-test-text-operations.c:343-429 | An insertion taken past two deletions is the same in either order |
| `ThreeWay.InsertAroundDeletion` | libinftext/inf-text-insert-operation.c:153-182 | The earlier states restore the order of two insertions that a deletion has brought to one position |
| `ThreeWay.ThreeInserts` | test/inf-test-text-operations.c:343-429 | An insertion taken past two others is the same in either order, compared at the state they were made in as well as at the later one |
| `PureOperations.PureStaysPure` | libinfinity/adopted/inf-adopted-operation.c:150-187 | Operations that only insert or only delete stay so under every transformation and under undo |
| `PureOperations.InsertingAgree` | libinfinity/adopted/inf-adopted-split-operation.c:266-362 | Nested insertions taken past two nested insertions are the same operation in either order |
| `PureOperations.PastTwoDeletions` | libinfinity/adopted/inf-adopted-split-operation.c:266-362 | Nested insertions taken past two nested deletions are the same operation in either order |
| `OrderlyOperations.OrderlyStaysOrderly` | libinfinity/adopted/inf-adopted-operation.c:150-187 | Operations that insert first and delete afterwards stay so under every transformation and under undo |
| `OrderlyOperations.LcsLater` | libinfinity/adopted/inf-adopted-split-operation.c:604-681 | Nested insertions may be compared before or after they have passed a third one |
| `LaterStates.DeletionLater` | libinfinity/adopted/inf-adopted-algorithm.c:610-698 | C2 at any state for every operation that only deletes, against any two operations of any shape, each pair compared at an earlier state of its own shape |
| `LaterStates.InsertingLater` | libinfinity/adopted/inf-adopted-algorithm.c:610-698 | Nested insertions compared at one common earlier state become the same operation past two others in either order, whatever has become of them since |
| `SteadyOrders.DeletionBetween` | libinftext/inf-text-insert-operation.c:153-182 | Nested insertions taken past others and a deletion are the same operation in either order, if the deletion leaves something between any two insertions that stand the other way around than at the earlier state |
| `SteadyOrders.SteadyAdvance` | libinftext/inf-text-insert-operation.c:153-182 | Insertions that are ordered in this way stay so behind a third one of the same earlier state, even if its text is deleted as well |
| `Anchors.AnchoredPass` | libinfinity/adopted/inf-adopted-operation.c:150-187 | An inserting operation keeps its place among the characters of the state it was made for past every operation, wherever the two are compared and however ties are decided |
| `Anchors.AnchoredSteady` | libinftext/inf-text-insert-operation.c:153-182 | Insertions that stand where they stood at the earlier state have nothing that was there between them if they have changed their order |
| `OrderlyStates.InsertingPasses` | test/inf-test-text-operations.c:343-429 | Nested insertions taken past two operations that insert first and delete afterwards are the same operation in either order, as long as the deletions do not confuse the insertions |
| `OrderlyStates.OrderlyAgree` | libinfinity/adopted/inf-adopted-algorithm.c:610-698 | C2 for operations that insert first and delete afterwards at any state where the deletions do not confuse the insertions |
| `Histories.RootedKeeps` | libinfinity/adopted/inf-adopted-algorithm.c:610-698 | Operations made in one state and taken past the same others never confuse each other |
| `Histories.OrderlyLater` | libinfinity/adopted/inf-adopted-algorithm.c:610-698 | C2 at every later state: three operations that insert first and delete afterwards, made in one state and compared as they were there, have the same effect in either order after any operations, of any shape and compared at any states, have been performed in between |
| `Histories.OrderlyThreeWay` | test/inf-test-text-operations.c:343-429 | C2 for three operations made in one state that insert first and delete afterwards |
| `Histories.PureThreeWay` | test/inf-test-text-operations.c:343-429 | C2 for three operations made in one state each of which only inserts or only deletes, which is what typing, erasing, transformation and undo produce; not for such operations at later states whose pairs are compared at different states |
| `PairStates.InsertionsThreeWay` | libinfinity/adopted/inf-adopted-algorithm.c:610-698 | C2 for three insertions, each pair compared at an earlier state of its own: it fails if and only if their order by position, earlier position and user goes round in a circle, the passed texts are not empty, and the third text does not commute with them |
| `PairStates.OneStateNoCycle` | libinfinity/adopted/inf-adopted-algorithm.c:610-698 | The order cannot go round in a circle if all pairs are compared at one state |
| `PairStates.DeletionThreeWayWith` | libinfinity/adopted/inf-adopted-algorithm.c:610-698 | C2 for an insertion that passes another one and a deletion, the insertions compared at any earlier state: it fails if and only if both lie in the range, their order there is not the earlier one, and their texts do not commute |
| `PairStates.PureNow` | libinfinity/adopted/inf-adopted-algorithm.c:777-787 | C2 when operations are compared as they are at the present state, as the only caller does, for all operations that only insert or only delete, unless a deletion comes between two insertions |
| `PairStates.DeletionNow` | libinfinity/adopted/inf-adopted-algorithm.c:777-787 | C2 when operations are compared as they are at the present state, as the only caller does, for an insertion that passes another one and a deletion: it fails if and only if both lie in the range, the users order them the other way around than their positions, and their texts do not commute |
| `PairStates.TypingBreaksC2` | libinfinity/adopted/inf-adopted-operation.c:132-143 | Two insertions into a range that a third user replaces, on every document of at least seven characters: three single insertions for which C2 fails, each pair compared at the earliest state to which both can be transformed |
| `PairStates.NowBreaksC2` | libinfinity/adopted/inf-adopted-algorithm.c:654-673 | Two insertions and a deletion made in one state, on every document of at least seven characters, for which C2 fails when operations are compared at the present state |
| `Replacements.ReplacementVia` | libinfinity/adopted/inf-adopted-request.c:773-792 | An insertion taken past another one and an operation that deletes a range and then inserts anywhere is the same in both orders if and only if the three are not ordered in a circle or a text passed is empty |
| `Replacements.ReplacementThreeWay` | test/inf-test-text-operations.c:343-429 | C2 for an insertion that passes another one and an operation that deletes a range and then inserts anywhere: it fails exactly if that text goes to the place of the range, both insertions into the range, ordered one way by position and the other way around by the users, the texts passed are not empty, and the third text does not commute with what they make up |
| `Replacements.ReplacementPassing` | test/inf-test-text-operations.c:343-429 | The same for an operation that deletes a range and then inserts, and passes two insertions: C2 fails exactly in the circle, if the inserted texts are not empty and the new text does not commute with them in the order of their positions |
| `Replacements.CircleBreaksC2` | test/inf-test-text-operations.c:343-429 | Three reversible operations, on every document of at least seven characters, for which C2 fails when an insertion passes the other two |
| `Replacements.PassingBreaksC2` | test/inf-test-text-operations.c:343-429 | Three reversible operations on a document of one character for which C2 fails when the replacement passes two insertions |
| `BrowserStore.Item.constructor` | libinfgtk/inf-gtk-browser-store.c:390-408 | A new item is linked to nothing and stands for a discovery or nothing |
| `BrowserStore.Store.constructor` | libinfgtk/inf-gtk-browser-store.c:1076-1088 | An empty, valid list |
| `BrowserStore.Store.FindItemByConnection` | libinfgtk/inf-gtk-browser-store.c:106-127 | The first listed item with the connection, or none if no item has it |
| `BrowserStore.Store.FindItemByBrowser` | libinfgtk/inf-gtk-browser-store.c:129-144 | The listed item with the browser, or none if no item has it |
| `BrowserStore.Store.FindItemByInfo` | libinfgtk/inf-gtk-browser-store.c:146-161 | The first listed item for the discovery, or none if there is none |
| `BrowserStore.Store.SetBrowser` | libinfgtk/inf-gtk-browser-store.c:2052-2103 | The status afterwards in terms of browser, discovery and error: a closed, opening or open browser makes the item disconnected, connecting or connected; error states are kept; the stored error is kept unless the item becomes invalid; the assertions hold |
| `BrowserStore.Store.Append` | libinfgtk/inf-gtk-browser-store.c:408-424 | The item is the new last one; links, head and tail are right |
| `BrowserStore.Store.CountItems` | libinfgtk/inf-gtk-browser-store.c:410-412 | The number of listed items |
| `BrowserStore.Store.AddItem` | libinfgtk/inf-gtk-browser-store.c:371-439 | The list with the new item at its end, announced as a new row at that place; the view that follows the signals shows it; no browser is listed twice |
| `BrowserStore.MirrorInserts` | libinfgtk/inf-gtk-browser-store.c:432-432 | A view that is told of a new row shows it at that place and all others as before |
| `BrowserStore.Store.Locate` | libinfgtk/inf-gtk-browser-store.c:506-520 | The position of the item and the item before it |
| `BrowserStore.Store.Unlink` | libinfgtk/inf-gtk-browser-store.c:538-545 | The list without the item; links, head and tail are right; the item's own link is kept |
| `BrowserStore.Store.RemoveItem` | libinfgtk/inf-gtk-browser-store.c:494-558 | The list without exactly this item, announced by the row number it had, so that the view that follows the signals shows the same; its browser is unset |
| `BrowserStore.MirrorDeletes` | libinfgtk/inf-gtk-browser-store.c:549-549 | A view that is told of a deleted row shows all other rows as before |
| `BrowserStore.Store.MoveItem` | libinfgtk/inf-gtk-browser-store.c:983-1003 | The item is at its new position with links, head and tail right, unless the new position is the first: then, and only then, a null pointer is read |
| `BrowserStore.Store.ComputeOrder` | libinfgtk/inf-gtk-browser-store.c:1005-1025 | Each entry of the published order is the old position of the item that is there now |
| `BrowserStore.SourcesArePermutation` | libinfgtk/inf-gtk-browser-store.c:1005-1025 | The published order is a permutation, and permuting the list by it moves the item |
| `BrowserStore.Store.Reposition` | libinfgtk/inf-gtk-browser-store.c:980-1041 | The list with the item moved; exactly one order is published, a permutation that makes the new list of the old one, unless the program crashes |
| `BrowserStore.RemoveAndMove` | libinfgtk/inf-gtk-browser-store.c:960-980 | Removing the new item and moving the existing one by the adjusted positions puts the existing one in its place |
| `BrowserStore.Store.MergeItems` | libinfgtk/inf-gtk-browser-store.c:956-1042 | The list is the old one with the new item removed and the existing item in its place, for all positions except that the program crashes if and only if the new item is the first and the existing one not the second; announced are the removal and, unless the items were neighbours, the order that puts the existing item in place |
| `BrowserStore.Store.OnDiscovered` | libinfgtk/inf-gtk-browser-store.c:564-576 | A new last item in state discovered, announced as a new row |
| `BrowserStore.Store.OnUndiscovered` | libinfgtk/inf-gtk-browser-store.c:578-607 | The item goes exactly if it has no browser, and its row is announced, and otherwise only loses its discovery; other items do not change; the assertion on its status holds in every reachable state |
| `BrowserStore.Store.OnBrowserError` | libinfgtk/inf-gtk-browser-store.c:609-641 | Only the stored error of this browser's item changes |
| `BrowserStore.Store.OnBrowserStatus` | libinfgtk/inf-gtk-browser-store.c:643-709 | A closed browser leaves an error, keeping a stored one; otherwise the error is gone and the status is that of the browser; other items do not change |
| `BrowserStore.Store.Resolve` | libinfgtk/inf-gtk-browser-store.c:2124-2176 | The item resolves, and the error of an earlier attempt is gone; the assertion that it had one holds |
| `BrowserStore.Store.OnResolved` | libinfgtk/inf-gtk-browser-store.c:907-1070 | All outcomes: error, duplicate connection, new browser, no browser, in which case the item stays resolving; what is announced; other items do not change; the invariant holds afterwards unless the crash described for merging occurs |
| `BrowserStore.CrashReachable` | libinfgtk/inf-gtk-browser-store.c:956-1003 | A run of the store that ends in that crash: a discovery, two connections, and a resolution to the second of them |
| `BrowserStore.Store.AddConnection` | libinfgtk/inf-gtk-browser-store.c:2388-2430 | The connection is listed afterwards, as a new last item with the status of its browser, announced as a new row, exactly if it was not listed before; if no browser can be made for it, and only then, an item that does not exist is read |
| `BrowserStore.Store.AddBrowser` | libinfgtk/inf-gtk-browser-store.c:2443-2468 | The browser is listed afterwards, as a new last item with its status, announced as a new row, exactly if it was not listed before |
| `BrowserStore.Store.RemoveBrowser` | libinfgtk/inf-gtk-browser-store.c:2477-2490 | Exactly the browser's item is gone and its row announced, no other item has it, and the others do not change |
| `BrowserStore.Store.RemoveConnection` | libinfgtk/inf-gtk-browser-store.c:2499-2512 | Exactly an item with the connection is gone and its row announced, and the others do not change |
| `BrowserStore.Store.ClearConnectionError` | libinfgtk/inf-gtk-browser-store.c:2522-2581 | The item of a closed, opening or open browser becomes disconnected, connecting or connected, an error state's error is gone, other items do not change; the assertions hold and the branches for items without browser are dead |
| `BrowserTree.PathLeadsThere` | libinfgtk/inf-gtk-browser-store.c:1304-1368 | The path of a node that may be seen leads to it in the pruned tree |
| `BrowserTree.OnlyPath` | libinfgtk/inf-gtk-browser-store.c:1304-1368 | No other path leads to a node, and none to a node that is missing or below the missing one |
| `BrowserTree.StepDown` | libinfgtk/inf-gtk-browser-store.c:1269-1296 | One level of a path: the child in the pruned tree; exactly the index of this level is rewritten, to one more if the missing child is met on the way, so that it leads to the same child when nothing is pruned |
| `BrowserTree.Below` | libinfgtk/inf-gtk-browser-store.c:1266-1296 | All levels of a path below an item |
| `BrowserTree.GetIter` | libinfgtk/inf-gtk-browser-store.c:1237-1303 | What the path as passed in means in the pruned tree, or failure exactly if it leads nowhere; the path that is left behind, also after a failure: the first index is kept, and the others are rewritten as far as there are children; after a success it leads to the same node of the full tree |
| `BrowserTree.CountSiblings` | libinfgtk/inf-gtk-browser-store.c:1344-1364 | The position of a node among its siblings in the pruned tree; the assertions hold and the walk ends |
| `BrowserTree.GetPathImpl` | libinfgtk/inf-gtk-browser-store.c:1304-1368 | Appends the item's index and the node's path in the pruned tree |
| `BrowserTree.GetPath` | libinfgtk/inf-gtk-browser-store.c:1370-1413 | The path of a place that may be seen |
| `BrowserTree.PathThereAndBack` | libinfgtk/inf-gtk-browser-store.c:1237-1413 | From a path to its place and back gives the path that was passed in |
| `BrowserTree.PlaceThereAndBack` | libinfgtk/inf-gtk-browser-store.c:1237-1413 | From a place that may be seen to its path and back gives the place |
| `BrowserTree.ChildOnPath` | libinfgtk/inf-gtk-browser-store.c:1237-1303 | Going one step further on a path is taking a child in the sense of the other functions |
| `BrowserTree.MissingRoot` | libinfgtk/inf-gtk-browser-store.c:1676-1705 | Paths and child functions agree on the children of an item if and only if its root is not missing or has no children |
| `BrowserTree.MissingRootExample` | libinfgtk/inf-gtk-browser-store.c:1266-1296 | A tree in which they do not agree |
| `BrowserTree.IterChildren` | libinfgtk/inf-gtk-browser-store.c:1590-1661 | The first child in the pruned tree, or failure exactly if there is none |
| `BrowserTree.IterHasChild` | libinfgtk/inf-gtk-browser-store.c:1663-1713 | True exactly if there is a child in the pruned tree |
| `BrowserTree.IterNext` | libinfgtk/inf-gtk-browser-store.c:1549-1588 | The next sibling in the pruned tree, or failure exactly at the last one |
| `BrowserTree.IterNChildren` | libinfgtk/inf-gtk-browser-store.c:1715-1768 | The number of children in the pruned tree |
| `BrowserTree.IterNthChild` | libinfgtk/inf-gtk-browser-store.c:1770-1849 | The n-th child in the pruned tree, or failure exactly if there are not so many |
| `BrowserTree.IterParent` | libinfgtk/inf-gtk-browser-store.c:1851-1887 | The place one step up the path, which may be seen as well; the assertions hold |
| `BrowserTree.ChildInSight` | libinfgtk/inf-gtk-browser-store.c:1851-1887 | A child in the pruned tree may be seen, and its parent is where it was looked for |
| `BrowserTree.WalkMeetsChildren` | libinfgtk/inf-gtk-browser-store.c:1549-1661 | The first child followed by n steps to the next sibling is the n-th child in the pruned tree |

## Left out

- TextChunk.Chunk.InsertText: an insertion of no text by a new author is admitted and its contents are specified, but the chunk is then not canonical and no further operation is specified on it, as the program's own integrity check rejects it.
- Segments are values in a field of type `seq` and are replaced as a whole; the identity of segment records, pointers into the sequence, and spare room at the end of a text buffer are not modelled.
- Encodings other than UTF-8 (section 3 of RFC 3629) and those of fixed width.
- Lengths, offsets and positions are unbounded; wrap-around at 32 bits is not modelled.
- The sequence search is modelled by its result and a linear walk instead of a balanced tree.
- Histories.OrderlyLater: operations that insert after they have deleted are not covered, as C2 is false for them; the exact condition is proved for one such operation of two parts and two single insertions made in one state, in Replacements.ReplacementThreeWay and Replacements.ReplacementPassing, not for larger trees.
- PairStates.DeletionThreeWayWith: with a state of its own for each pair, and at the present state, the exact condition is proved for single insertions and deletions; of trees only that it holds for operations that only delete (LaterStates.DeletionLater) and, at the present state, unless a deletion comes between insertions (PairStates.PureNow).
- Transformation without earlier states (NULL) and without a concurrency id, the no-operation, moving and remote deletion, and the functions that ask whether an id is needed.
- Request logs, state vectors and the algorithm that chooses which requests to transform: their inputs are the operations, users and earlier states of the model.
- BrowserStore.Store.OnResolved: completion is specified for a discovery that is still listed and resolving, as the program asserts; whether the caller keeps that promise depends on code outside the store.
- BrowserStore.Store.Resolve: specified for listed items without a browser that are discovered or in error; the program asserts the latter and does not check the former.
- BrowserStore.Store.SetBrowser: the row signals for nodes below the item, pending requests and the table of node errors are not modelled.
- BrowserTree.GetIter: for paths below an item whose browser is open, as asking a closed browser for its root is an error of the caller.
- BrowserTree.IterNChildren: a directory that is not explored counts as one without children; the program asks the browser without looking first.
- BrowserTree.GetPath: the position of the toplevel item is part of the iterator; finding it in the list is the part of `BrowserStore.Store.Locate`.
- Row-changed, node-added and node-removed notifications, column values, stamps and the user parameter of operations.
- Object properties, signals as such, reference counts, memory management and error texts.
