# ygo text CRDT core in Dafny

This project models the core of ygo, a Go implementation of the YATA/Yjs
sequence CRDT for shared text, and proves properties of that model.

**Block store** (`internal/blockstore/store.go`). A document is a doubly
linked list of blocks, each with an ID `(client, clock)`, a text, a
tombstone flag, a left and a right origin, and `Left`/`Right` pointers.
The store also keeps:

- a per-client slice of its blocks, sorted by clock;
- a state vector, the local clock and the document length;
- a marker cache of block positions;
- two queues of pending updates.

Here the blocks live in an arena `nodes: seq<Block>` and a pointer is an
index into it. A ghost `order` lists the arena in document order, and
`IsList` ties that order to the pointers. The Go operations fall into
three groups:

- local `Insert` and `Delete`;
- remote `Integrate`, an origin-based conflict scan with a client tie-break;
- `SplitBlock`, `addBlock`, the clean-start lookups and the read-only lookups.

The class `BlockStores.BlockStore` does these step by step, as the Go
methods do. Each method states that its new state and result are what a
specification function on the value `StoreModel.Store` gives. The modules
StoreModel, StoreOps, StoreEdit and StoreDelete prove what those functions
do:

- every operation keeps the list consistent;
- the text changes by exactly one splice or one cut;
- only the documented fields change;
- two concurrent inserts at the same gap commute.

**Marker system** (`internal/marker/marker.go`). This is a list of
`(block, pos)` records. It is appended to, filtered and shifted, and its
`FindMarker` walks the linked list from a cached marker.

**Blocks and ID equality** (`internal/block/block.go`,
`internal/utils/utils.go`).

**Research prototype** (`research/yata`):

- a state vector with an overwriting update and a pointwise-max merge;
- a document that places each block by its origin with a one-step client
  tie-break;
- a transaction that batches blocks.

**Replay** (`replay/replay_engine.go`, `replay/playback.go`,
`internal/replay/logger.go`). Two cursors run over a fixed event log, and a
debug-gated logger records events.

Integer types:

- Clocks and lengths are unbounded naturals.
- The one wrap-around the code relies on is written out: `Delete`'s
  `length -= len(content)` on a `uint64` (`StoreEdit.Sub64`).
- `index - marker.Pos` mixes `uint64` and `int64`, so as written it does
  not compile. It is modelled as a signed difference, which the `count <= 0`
  test after it presupposes.

A Go panic is an explicit `Panic` failure. The state it returns is the
state as mutated up to the panic.

Four partial paths of the code are kept as written:

- The first `Insert` into an empty store does not update the state vector.
- `Delete` never lowers `Length`.
- `findNextPosition` advances at most one block.
- `Integrate` appends the block to its client's slice without the sorted
  `addBlock`.

Positions, lengths and split offsets count bytes, as Go's `len` and string
slicing do: a Dafny `char` stands for one byte of the Go string. A split
may therefore fall inside a multi-byte UTF-8 sequence, as `SplitBlock`'s
`Content[:diff]` can.

## Model

| member | source | states |
|---|---|---|
| Blocks.NewBlock | internal/block/block.go:19-24 | the block has the given ID and text, is live, has zero origins and no neighbours, and shows its whole text |
| Blocks.Block.MarkDeleted | internal/block/block.go:26-29 | the block becomes a tombstone with empty content and shows nothing; ID, origins and links are unchanged |
| Blocks.MarkDeletedIdempotent | internal/block/block.go:26-29 | tombstoning twice is tombstoning once |
| Blocks.ListPosition.Forward | internal/block/block.go:37-43 | the cursor steps over its right block: left becomes that block, right becomes its right neighbour, and the index grows by the block's visible length only, so it never decreases |
| Blocks.IdAtOffsetOf | internal/blockstore/store.go:145-148 | the ID `k` clocks into a block lies at offset `k` of it, and every ID of the block's client is the ID at the offset it names: offsets and clocks of one client correspond one to one |
| Blocks.LinkInList | internal/blockstore/store.go:233-244 | pointing a new block at two adjacent blocks, and them at it, yields the list with the block inserted between them |
| Blocks.LinkInText | internal/blockstore/store.go:233-244 | linking a block in between two adjacent blocks puts its visible text between theirs |
| Utils.EqualIDIsIdentity | internal/utils/utils.go:5-7 | two IDs are equal exactly when client and clock both match |
| Utils.EqualIDReflexiveSymmetric | internal/utils/utils.go:5-7 | ID equality is reflexive and symmetric |
| Utils.EqualIDPtrNil | internal/utils/utils.go:9-14 | pointer equality is false when either pointer is nil, both nil included; otherwise it is ID equality of the pointees |
| StoreModel.NewStore | internal/blockstore/store.go:31-44 | a new store is valid and empty: no blocks, no start, length and clock 0, no markers, the given client, every slice empty, every state 0 |
| StoreModel.AdvanceState | internal/blockstore/store.go:56-65 | the client's entry becomes the larger of the old one and the clock; other clients keep theirs; no entry decreases; an unknown client reads as 0 |
| StoreModel.SearchAboveSorted | internal/blockstore/store.go:264-278 | on a clock-sorted slice the binary search returns the first index whose clock exceeds the key: every block before has a clock at most the key, every block from there on a larger one |
| StoreModel.AddBlockSorted | internal/blockstore/store.go:264-278 | `addBlock` keeps a clock-sorted slice sorted, grows it by one, puts the block after equal clocks and keeps the other blocks in order |
| StoreModel.AddBlockGains | internal/blockstore/store.go:264-278 | `addBlock` inserts the block into its client's slice at one index and leaves every other client's slice alone |
| StoreModel.SplitSpec | internal/blockstore/store.go:355-383 | a split fails with an invalid-split panic exactly when the offset is not strictly inside the content, and then nothing changes; otherwise the store stays valid with one more block, the tail |
| StoreModel.SplitEffect | internal/blockstore/store.go:355-383 | a successful split cuts the block to the head of its text, links the tail right after it, adds the tail to its client's slice, keeps the text of the document and changes nothing else in the store |
| StoreModel.SplitEffectArena | internal/blockstore/store.go:355-383 | the split block keeps the head of its text; the tail has the rest, ID `(client, clock + diff)`, left origin `(client, clock + diff - 1)`, the copied right origin and flag, and sits right after the head in the list; other blocks keep everything but their links |
| StoreModel.SplitEffectSlices | internal/blockstore/store.go:380-381 | the tail joins its client's slice through `addBlock`; other slices are untouched |
| StoreModel.SplitEffectRest | internal/blockstore/store.go:355-383 | a split changes no counter, state vector, marker or queue |
| StoreModel.SplitLinkedValid | internal/blockstore/store.go:355-383 | after the pointer updates of a split the list is consistent and spells the same text |
| StoreModel.FirstCovering | internal/blockstore/store.go:346-353 | the first index of the slice whose block has the ID's clock or covers it; none exactly when no block does |
| StoreModel.FindIndexCleanStartSpec | internal/blockstore/store.go:331-343 | the store stays valid; with no covering block it panics and changes nothing; on success the reported index is one past the covering block, which was split at the ID's offset; otherwise it panics and changes nothing |
| StoreModel.FindIndexCleanStartPanics | internal/blockstore/store.go:331-343 | every failure of `findIndexCleanStart` is a panic |
| StoreModel.GetItemCleanStartSpec | internal/blockstore/store.go:324-329 | on success the store was split once and the result is a block of the grown arena; every failure is a panic that leaves the store as it was |
| StoreModel.FindNextSpec | internal/blockstore/store.go:298-319 | advancing the cursor by `count` either steps over the right block or splits it once; a cursor whose neighbours are adjacent stays adjacent; failures are panics that change nothing |
| StoreModel.FindNextWhole | internal/blockstore/store.go:305-316 | when `count` reaches past the right block, the cursor steps over it and the store is unchanged |
| StoreModel.FindPositionSpec | internal/blockstore/store.go:281-296 | the lookup yields an adjacent cursor; it changes only the markers (at most one appended) and splits at most one block; no failure is a length error |
| StoreOps.Scan | internal/blockstore/store.go:175-225 | the scan settles on its starting left neighbour or on a block it walked over before reaching the block's right pointer |
| StoreOps.IntegrateValid | internal/blockstore/store.go:159-250 | Integrate keeps the store valid, inserts the block at exactly one index (the gap after its chosen left neighbour), keeps every other block's identity, flag, origins and text, appends the block to its client's slice and advances the state vector |
| StoreOps.IntegrateText | internal/blockstore/store.go:233-244 | the text after Integrate is the old text with the new block's visible text at the offset of its gap |
| StoreOps.IntegrateAdjacent | internal/blockstore/store.go:166-168 | a block whose left pointer already points right to its right pointer is not scanned and goes right after its left neighbour |
| StoreOps.IntegrateBetween | internal/blockstore/store.go:175-244 | wherever the scan settles, the block lands after the block it chose as left neighbour (or at the head) and no later than its right pointer |
| StoreOps.IntegrateIds | internal/blockstore/store.go:233-244 | the list's IDs after Integrate are the old IDs with the new ID at the chosen gap |
| StoreOps.ScanPastTwin | internal/blockstore/store.go:199-208 | meeting a block with the same origins and another client, the scan puts the new block after it when its client is smaller and before it otherwise |
| StoreOps.TieSymmetric | internal/blockstore/store.go:199-203 | for two different clients the tie-break does not depend on argument order |
| StoreOps.TwoInserts | internal/blockstore/store.go:159-250 | integrating two blocks meant for the same gap puts both right after their left neighbour, the smaller client first |
| StoreOps.TwoInsertsSwapped | internal/blockstore/store.go:159-250 | the same with the two blocks arriving the other way round |
| StoreOps.ConcurrentInsertsCommute | internal/blockstore/store.go:159-250 | two concurrent blocks with equal origins and a left neighbour end in the same order whichever arrives first |
| StoreEdit.Sub64 | internal/blockstore/store.go:150 | uint64 subtraction: the difference when it is not negative, otherwise the difference plus 2^64 |
| StoreEdit.SplitSameDocument | internal/blockstore/store.go:355-383 | a successful split leaves the text, counters, state vector, client and queues as they were |
| StoreEdit.PositionKeeps | internal/blockstore/store.go:281-296 | `findPositionForNewBlock` changes at most the markers and one split: text, counters and state vector stay |
| StoreEdit.InsertCounters | internal/blockstore/store.go:46-54 | each successful Insert raises the clock by exactly 1 and the length by the text's length; a failed one changes neither, nor the text |
| StoreEdit.InsertIntoEmpty | internal/blockstore/store.go:89-101 | Insert into an empty store succeeds and makes the text the only block: `Start`, with the next clock of the local client and zero origins, one marker at 0, the client's only block; the text is the inserted text and the state vector is not touched |
| StoreEdit.InsertPlaces | internal/blockstore/store.go:104-126 | a successful Insert into a non-empty store adds one live block with the next clock of the local client and the inserted text, whose origins are the IDs of its neighbours (zero at the end); the text gains the inserted string at one offset; the state vector records the new clock |
| StoreScenarios.InsertBetween | internal/blockstore/store_test.go:32-43 | from a fresh store of any client, Insert(0, "A"), Insert(1, "B"), Insert(1, "X") all succeed and the text is "AXB" |
| StoreScenarios.InsertSplits | internal/blockstore/store_test.go:45-53 | Insert(0, "World") then Insert(2, "X") succeed, splitting the block, and the text is "WoXrld" |
| StoreScenarios.StaleMarkerInsert | internal/blockstore/store.go:88-129 | Insert(0, "A"), (1, "B"), (2, "C"), (1, "X"), (1, "Y") all succeed; the text after "X" is "AXBC", but "Y" lands after "X": "AXYBC", not the "AYXBC" that an insert at offset 1 would give, because the marker of "B" is not shifted |
| StoreEdit.InsertLands | internal/blockstore/store.go:109-122 | the new block of Insert lands right after the cursor's left block without a conflict scan |
| StoreEdit.InsertSpec | internal/blockstore/store.go:88-129 | every path of Insert (first block, failed lookup, nil-left panic, integration) leaves a valid store |
| StoreDelete.DeleteRefuses | internal/blockstore/store.go:133-135 | Delete refuses with a length error exactly when `length` exceeds `Length`, and then leaves the store as it was |
| StoreDelete.DeleteRemovesRun | internal/blockstore/store.go:132-155 | Delete takes one run of characters out of the text; it changes only the arena (which only grows), the list order, the slices and the markers, so `Length`, clock, state vector, client and queues stay; no block is unlinked; every block keeps its ID and origins, its content only loses a suffix, and a tombstone stays one |
| StoreScenarios.DeleteMiddle | internal/blockstore/store_test.go:68-79 | Insert(0, "Hello") then Delete(1, 3) succeed; the block is split twice, "ell" is tombstoned, the text is "Ho" and `Length` stays 5 |
| StoreDelete.DeleteRun | internal/blockstore/store.go:143-153 | the loop only splits and tombstones: the text loses one run starting at the cursor's offset, and only arena, order and slices change; each block keeps its ID and origins, its content becomes a prefix of the old one, and a tombstone stays one |
| StoreDelete.DeleteLoop | internal/blockstore/store.go:143-153 | the loop leaves a valid store, and every failure is a panic of the clean-start cut |
| StoreDelete.StepShrinks | internal/blockstore/store.go:150-152 | one round of the loop shrinks the raw text ahead of the cursor or passes a block: the loop terminates |
| StoreDelete.StepCuts | internal/blockstore/store.go:148-152 | one round takes the right block's visible text out at the cursor's offset and keeps that offset |
| StoreDelete.TombstoneText | internal/blockstore/store.go:151 | tombstoning a block removes exactly its visible characters at the offset where they started, and nothing else |
| StoreDelete.TombstoneNext | internal/blockstore/store.go:151-152 | after a tombstone the cursor steps to the next block, which has what lay ahead minus the tombstoned block |
| StoreDelete.SplitAhead | internal/blockstore/store.go:144-149 | the clean-start split before a deletion keeps the raw and the visible text ahead of the cursor |
| StoreDelete.CutsTwice | internal/blockstore/store.go:143-153 | two cuts at the same offset, the second from the store the first left, are one longer cut |
| HeadInserts.HeadInsertsAsWritten | internal/blockstore/store.go:166-168 | as written, the second of two concurrent head blocks is put at the head without a scan, in front of the first |
| HeadInserts.HeadInsertsDiverge | internal/blockstore/store.go:166-168 | as written, two replicas integrating the same two head blocks in different orders end with different ID sequences |
| HeadInserts.FixedWithLeft | internal/blockstore/store.go:166-168 | for a block with a left pointer, the corrected condition integrates exactly as the code does |
| HeadInserts.HeadInsertsFixed | internal/blockstore/store.go:166-168 | with the corrected condition, the second head block is placed by the tie-break: after the first when the first's client is smaller, before it otherwise |
| HeadInserts.HeadInsertsConverge | internal/blockstore/store.go:166-168 | with the corrected condition two concurrent head blocks end in the same order whichever arrives first |
| BlockStores.FirstWithClock | internal/blockstore/store.go:388-415 | the first index of the slice with exactly the clock; none exactly when no block has it |
| BlockStores.InRangeMembers | internal/blockstore/store.go:418-433 | the range lookup keeps exactly the client's blocks whose clock lies in `[start, start + length)` |
| BlockStores.ToU64 | internal/blockstore/store.go:425-428 | Go's int64 to uint64 conversion: the value modulo 2^64, unchanged for values in range |
| BlockStores.ScanLeft | internal/blockstore/store.go:175-225 | the conflict loop computes the left neighbour that `StoreOps.Scan` specifies |
| BlockStores.Spell | internal/blockstore/store.go:252-262 | the walk from `Start` concatenates the text of live blocks, which is the document text |
| BlockStores.SearchSlice | internal/blockstore/store.go:268-270 | the loop computes the first index whose clock exceeds the key, as `sort.Search` does |
| BlockStores.BlockStore.constructor | internal/blockstore/store.go:31-44 | a new store is `NewStore` of the given client, with a fresh marker system |
| BlockStores.BlockStore.GetNextClock | internal/blockstore/store.go:46-49 | the clock goes up by one and the new value is returned; nothing else changes |
| BlockStores.BlockStore.AdjustLength | internal/blockstore/store.go:51-54 | the length grows by the text's length; nothing else changes |
| BlockStores.BlockStore.UpdateState | internal/blockstore/store.go:56-61 | the state vector becomes `AdvanceState` of the block's ID; nothing else changes |
| BlockStores.BlockStore.GetState | internal/blockstore/store.go:63-65 | the client's entry, 0 for a client never seen |
| BlockStores.BlockStore.GetCurrentClient | internal/blockstore/store.go:67-69 | the store's client |
| BlockStores.BlockStore.GetMissing | internal/blockstore/store.go:71-85 | nil exactly when neither origin is missing; the left origin's client when it is missing, else the right origin's; an origin is missing when non-zero, of another client and beyond the local state for that client |
| BlockStores.BlockStore.Content | internal/blockstore/store.go:252-262 | the text of the document |
| BlockStores.BlockStore.AddBlock | internal/blockstore/store.go:264-278 | the new state is `AddBlockSpec` of the old |
| BlockStores.BlockStore.HasBlock | internal/blockstore/store.go:388-400 | true exactly when some block of the client's slice has the ID's clock |
| BlockStores.BlockStore.GetBlockByID | internal/blockstore/store.go:403-415 | the first block of the client's slice with the ID's clock, nil when there is none |
| BlockStores.BlockStore.GetBlocksInRange | internal/blockstore/store.go:418-433 | the client's blocks with a clock in the uint64 range `[start, start + length)`, in slice order |
| BlockStores.BlockStore.SplitBlock | internal/blockstore/store.go:355-383 | result and new state are `SplitSpec` of the old state |
| BlockStores.BlockStore.FindIndexInBlockArrayByID | internal/blockstore/store.go:346-353 | the first index whose block has the ID's clock or covers it; otherwise a no-matching-block panic exactly when no block does |
| BlockStores.BlockStore.FindIndexCleanStart | internal/blockstore/store.go:331-343 | result and new state are `FindIndexCleanStartSpec` of the old state |
| BlockStores.BlockStore.GetItemCleanStart | internal/blockstore/store.go:324-329 | result and new state are `GetItemCleanStartSpec` of the old state |
| BlockStores.BlockStore.FindNextPosition | internal/blockstore/store.go:298-319 | result and new state are `FindNextSpec` of the old state |
| BlockStores.BlockStore.FindPositionForNewBlock | internal/blockstore/store.go:281-296 | result and new state are `FindPositionSpec` of the old state |
| BlockStores.BlockStore.IntegrationLeft | internal/blockstore/store.go:166-229 | the chosen left neighbour is `IntegrateLeft` of the state |
| BlockStores.BlockStore.Integrate | internal/blockstore/store.go:159-250 | the new state is `IntegrateSpec` of the old |
| BlockStores.BlockStore.Reconnect | internal/blockstore/store.go:233-249 | the new state is `IntegrateAt` of the old one and the chosen neighbour |
| BlockStores.BlockStore.Insert | internal/blockstore/store.go:88-129 | result and new state are `InsertSpec` of the old state |
| BlockStores.BlockStore.InsertFirstBlock | internal/blockstore/store.go:89-101 | the new state is `InsertFirst` of the old |
| BlockStores.BlockStore.InsertBlockAfter | internal/blockstore/store.go:109-126 | the new state is `InsertAfter` of the old state and the cursor |
| BlockStores.BlockStore.Delete | internal/blockstore/store.go:132-155 | result and new state are `DeleteSpec` of the old state |
| BlockStores.BlockStore.DeleteFrom | internal/blockstore/store.go:143-154 | result and new state are `DeleteLoop` of the old state and the cursor |
| BlockStores.BlockStore.CutRight | internal/blockstore/store.go:144-149 | result and new state are `CutAt`: a clean-start lookup `left` clocks into the block when it is longer, nothing otherwise |
| BlockStores.BlockStore.AddPendingUpdate | internal/blockstore/store.go:436-438 | the update is appended to the pending updates; nothing else changes |
| BlockStores.BlockStore.GetPendingUpdates | internal/blockstore/store.go:441-443 | the pending updates |
| BlockStores.BlockStore.SetPendingUpdates | internal/blockstore/store.go:446-448 | the pending updates are replaced; nothing else changes |
| BlockStores.BlockStore.AddPendingDelete | internal/blockstore/store.go:451-453 | the delete is appended to the pending deletes; nothing else changes |
| BlockStores.BlockStore.GetPendingDeletes | internal/blockstore/store.go:456-458 | the pending deletes |
| BlockStores.BlockStore.SetPendingDeletes | internal/blockstore/store.go:461-463 | the pending deletes are replaced; nothing else changes |
| Marker.FirstAt | internal/marker/marker.go:57-61 | the first marker whose position equals `pos`; none exactly when no marker has it |
| Marker.WalkRightFindsBlock | internal/marker/marker.go:71-79 | from an accurate offset, the right walk ends on an accurate offset at or before `pos`, on the block covering `pos` or on the last block |
| Marker.WalkLeftIdle | internal/marker/marker.go:82-90 | starting at or before `pos`, the left walk does not move |
| Marker.FindMarkerAccurate | internal/marker/marker.go:52-99 | with an accurate first marker, the appended marker names the block covering `pos` at its true offset |
| Marker.Without | internal/marker/marker.go:117-125 | exactly the markers at other positions are kept, in order; nothing is removed when no marker is at `pos` |
| Marker.WithoutAppend | internal/marker/marker.go:117-125 | filtering a concatenation filters each part: the kept markers of the first part come first |
| Marker.WithoutOne | internal/marker/marker.go:117-125 | a single marker is kept exactly when it is not at `pos` |
| Marker.WithoutKeepsOrder | internal/marker/marker.go:117-125 | a marker not at `pos` stays, right after the kept markers that came before it: the filter keeps the order and the multiplicity |
| Marker.WithoutIdempotent | internal/marker/marker.go:117-125 | removing a position twice is removing it once |
| Marker.RightWalk | internal/marker/marker.go:71-79 | the pointer walk right computes `WalkRight` |
| Marker.LeftWalk | internal/marker/marker.go:82-90 | the pointer walk left computes `WalkLeft` |
| Marker.MarkerSystem.constructor | internal/marker/marker.go:36-40 | no markers |
| Marker.MarkerSystem.Add | internal/marker/marker.go:43-49 | exactly one marker with the block and position is appended; earlier markers are unchanged |
| Marker.MarkerSystem.FindMarker | internal/marker/marker.go:52-99 | result and new markers are `FindMarkerSpec`: no markers is an error with nothing changed; an exact position returns the first such marker without appending; otherwise the walk's marker is appended and returned |
| Marker.MarkerSystem.UpdateMarkers | internal/marker/marker.go:102-114 | exactly the markers at or after `pos` shift by +delta for an insert or -delta for a delete; blocks, order and count are kept |
| Marker.MarkerSystem.DeleteMarkerAt | internal/marker/marker.go:117-125 | exactly the markers at `pos` are removed, the rest kept in order |
| Marker.MarkerSystem.DeleteMarkerAtPosition | internal/marker/marker.go:158-166 | exactly the markers at `pos` are removed, the rest kept in order |
| Marker.MarkerSystem.DestroyMarkers | internal/marker/marker.go:127-129 | the marker list is empty |
| Marker.MarkerSystem.GetBlockPositionByClock | internal/marker/marker.go:131-138 | the position of the first marker whose block has the ID; an invalid-position error exactly when none has |
| Marker.MarkerSystem.GetBlockPositionByID | internal/marker/marker.go:140-156 | no markers, then a nil ID, then no matching block, are the errors in that order; otherwise the position of the first matching marker |
| Yata.Merged | research/yata/sv.go:17-23 | every client of `other` holds the larger of both entries; every other client keeps its entry; a key is present when it was or `other` brings a non-zero clock |
| Yata.MergeIdempotent | research/yata/sv.go:17-23 | merging the same vector twice is merging it once |
| Yata.MergeSeesBoth | research/yata/sv.go:17-28 | after a merge every clock of `other` is seen, and whatever was seen still is |
| Yata.SeenDownward | research/yata/sv.go:26-28 | clock 0 is always seen, and seeing a clock means seeing every smaller one |
| Yata.StateVector.constructor | research/yata/sv.go:7-9 | empty; every client reads as 0 |
| Yata.StateVector.UpdateState | research/yata/sv.go:12-14 | the client's entry is overwritten with the clock, which may lower it; other clients are unchanged |
| Yata.StateVector.Merge | research/yata/sv.go:17-23 | the entries become `Merged` of the old entries and `other` |
| Yata.StateVector.HasSeen | research/yata/sv.go:26-28 | true exactly when the client's entry is at least the clock |
| Yata.LastWithID | research/yata/doc.go:31-36 | the last block with the origin's ID; none exactly when the origin is nil or no block has it |
| Yata.IntegratedLinks | research/yata/doc.go:48-58 | the block is appended pointing at the chosen neighbours, which point back at it; every other block and link is unchanged |
| Yata.IntegratedKeeps | research/yata/doc.go:58 | Integrate appends the block and keeps every earlier block apart from its links |
| Yata.NoOriginNoNeighbours | research/yata/doc.go:27-49 | with a nil origin, or an origin no block has, the block gets no neighbours |
| Yata.OriginPlacement | research/yata/doc.go:31-45 | with a matching origin the block goes after the last block with it, one step further right when the right neighbour's client is smaller |
| Yata.Document.constructor | research/yata/doc.go:14-19 | no blocks and an empty state vector |
| Yata.Document.Neighbours | research/yata/doc.go:27-45 | the loop and the tie-break compute `Place` |
| Yata.Document.Integrate | research/yata/doc.go:22-62 | the blocks become `Integrated` of the old blocks and the state vector's entry for the block's client is overwritten with its clock |
| Yata.CommitKeeps | research/yata/txn.go:22-26 | a commit keeps the document's earlier blocks apart from their links |
| Yata.CommitAppends | research/yata/txn.go:22-26 | a commit appends the changes after the earlier blocks, in change order |
| Yata.Transaction.constructor | research/yata/txn.go:10-14 | bound to the document, with no changes |
| Yata.Transaction.AddChange | research/yata/txn.go:17-19 | one change is appended; earlier changes keep their order |
| Yata.Transaction.Commit | research/yata/txn.go:22-26 | the document integrates the changes in order and its state vector takes each change's clock; the change list is not cleared |
| Replay.Step | replay/replay_engine.go:14-21 | one step either moves the cursor by one or stays at the end of the log |
| Replay.PlayedInOrder | replay/replay_engine.go:14-25 | `k` calls within the log return the next `k` events in order |
| Replay.PlayedAtEnd | replay/replay_engine.go:15-17 | at the end of the log every call returns the end value |
| Replay.PlayedWhole | replay/replay_engine.go:14-25 | after a reset, `len + m` calls return the whole log in order, then `m` end values |
| Replay.PlayedSplit | replay/replay_engine.go:14-25 | `k + m` calls are `k` calls followed by `m` more from where those left the cursor |
| Replay.ReplayEngine.constructor | replay/replay_engine.go:10-12 | the given events, index 0 |
| Replay.ReplayEngine.PlayNext | replay/replay_engine.go:14-21 | within the log, the event at the index, and the index moves by one; at the end the "end" event, and the index stays; the log never changes and the index stays within it |
| Replay.ReplayEngine.Reset | replay/replay_engine.go:23-25 | the index is 0; the log is untouched |
| Replay.Playback.constructor | replay/playback.go:10-12 | the given events, index 0 |
| Replay.Playback.PlayNext | replay/playback.go:14-21 | within the log, the event at the index, and the index moves by one; at the end the zero event, and the index stays |
| Replay.Playback.Reset | replay/playback.go:23-25 | the index is 0; the log is untouched |
| Replay.Recorded | internal/replay/logger.go:31-35 | the event carries the type, state vector and blocks it was given |
| Replay.LoggedInOrder | internal/replay/logger.go:23-37 | in debug mode the log is the earlier events followed by one event per call, in call order; otherwise nothing changes |
| Replay.Logger.constructor | internal/replay/logger.go:14-19 | no events, the given debug mode |
| Replay.Logger.Capture | internal/replay/logger.go:23-37 | with debug mode off nothing changes; with it on exactly one event with the arguments is appended and earlier events are kept |

## Left out

- Logging through zap and the `Debug` option: the store's logger calls are side effects only, and `StoreOptions`/`WithDebugModeEnabled` only configure them.
- The random client ID of `NewStore` (`rand.Int63()`): the client is a constructor parameter.
- Marker timestamps (`time.Now()`): they are never read.
- The mutex of `internal/replay/logger.go`: the model is single-threaded.
- `fmt.Println` and `PrintDocument` in `research/yata/doc.go`: printing only.
- `fmt.Errorf` error texts: the model keeps the error kind and its numbers, not the message.
- Integer widths: clocks, lengths and positions are unbounded. The uint64 and int64 wrap-around of `getNextClock`, `adjustLength`, `SplitBlock`'s clock arithmetic and the research `uint32` state vector is not modelled. Only the uint64 subtraction in `Delete` and the uint64 conversion in `GetBlocksInRange` are written out.
- Pointer aliasing in `research/yata`: blocks are values in the document's sequence. A block passed to `Integrate` and then changed by the caller is not reflected in the document.
- The `BlocksByClient` snapshots and the other `Event` payloads: the replay cursors and the logger only move them, so they are opaque values.
- ID uniqueness is not claimed. `getNextClock` advances by one per block, and a split assigns `clock + diff`, so two blocks of one client can share clocks.
- StoreEdit.InsertPlaces: the offset at which the text goes in is not tied to `pos`. The markers are never updated after an edit, and `findNextPosition` advances at most one block, so the code itself does not put the text at `pos` in general: StoreScenarios.StaleMarkerInsert shows an insert at 1 landing at offset 2.
- StoreDelete.DeleteRemovesRun: the removed run's offset and length are not tied to `pos` and `length`, for the same reasons: stale markers, one-block steps, and clocks that are not per-character.
- Marker.FindMarkerAccurate: proved only when the first marker is accurate and no marker sits exactly at `pos`. Markers go stale after edits, and then `FindMarker` can name a wrong offset.

## Findings

| source | as written | input that shows it | evidently intended | confidence | as-written member | corrected member |
|---|---|---|---|---|---|---|
| internal/blockstore/store.go:166-167 | a block with no left pointer is scanned only when its right block has no left neighbour (`newBlk.Right.Left == nil`) | a non-empty document with first block S; two blocks from clients 1 and 2 with equal origins, no left pointer and right pointer S. Whichever arrives second skips the scan and goes to the head, so one replica ends `b2 b1 S…` and the other `b1 b2 S…` | scan when the right block has a left neighbour (`!= nil`, as in Yjs); the head blocks then end in client order on every replica | high (proved; not executed) | HeadInserts.HeadInsertsDiverge | HeadInserts.HeadInsertsConverge |

The store's own `Integrate` (`BlockStores.BlockStore.Integrate`, `StoreOps.IntegrateSpec`) keeps the condition as written. The corrected one is `HeadInserts.IntegrateFixed`. For every block with a left pointer the two agree (`HeadInserts.FixedWithLeft`). Every block a local `Insert` creates has a left pointer, so every property of `Insert`, and `StoreOps.ConcurrentInsertsCommute`, holds unchanged for the corrected store.
