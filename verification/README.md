# Proved models of the emulator's algorithmic cores

A PlayStation emulator carries a number of self-contained algorithms, some its own and some
vendored. This project models the ones with the hardest invariants in Dafny and proves what they
are for. Each core has a value-level model (states, steps, and what runs of steps keep) and, where
the program changes things in place, methods or a class of the same shape that is proved to take
exactly the model's steps.

| files | core |
|---|---|
| `Skyline`, `Packing`, `RectPacker`, `PackRects` | skyline rectangle packer: linked node pool, search, surgery, the sort-pack-unsort driver |
| `UndoModel`, `UndoTheorems`, `UndoDiscards`, `UndoArrays`, `TextEdit` | undo and redo of the text editor: two stacks of records and of characters in shared arrays, stale records included |
| `RingBuffer`, `Spsc` | single-producer single-consumer ring buffer, sequentially and under two threads |
| `AudioModel`, `AudioBackend` | the audio back end's critical sections on that buffer |
| `Gf2`, `CrcRegister`, `CrcRemainder`, `Crc32` | CRC-32: slicing-by-8 against the bit-by-bit register, and that against division of polynomials |
| `Sha256Spec`, `Sha256Checks`, `Sha256`, `Sha256Stream` | SHA-256: unrolled compression, streaming, padding, mid-stream digests; the constants by their roots |
| `RenderModel`, `Renderer`, `VramFill` | deferred renderer against an immediate one; wrapped fills |
| `Placeholders` | splitter of the guest address space |
| `ArenaModel`, `Arena` | fixed-size arena allocator |
| `WavFile`, `SimpleWav` | incremental WAV writer |
| `Wrappers`, `Sequences`, `Arithmetic`, `Words` | shared helpers |

How the models are set up:

- Concurrency is a state machine whose steps are the individual index loads, slot accesses and
  index stores. A load of the other side's index may show any value the index has had since the
  last one seen.
- OpenGL is replaced by images that are histories of what was drawn into them, each draw naming
  the texture contents it sampled. Two such images are equal only if everything about the drawing
  was the same.
- The low-pass filters, the library sort, `VirtualFree` and the opening of files are parameters:
  a filter's output is an uninterpreted value of its inputs so far, the sort is any in-place sort,
  and the results of the calls are arguments.
- 32-bit and 64-bit wrap-around is written out wherever it can happen: ring indices, CRC and SHA
  words, the SHA byte counter, addresses of placeholders, WAV sizes.

Where the code and its own documentation disagree, the model follows the code:

- `imstb_rectpack.h` promises that quantised widths never exhaust the nodes (lines 149-150). The
  inserted width is not quantised, so they can; `Packing.StarvesIffTooFewNodes` says exactly when,
  for targets of every size with default alignment and bottom-left placement.
- `imstb_textedit.h` says that running out of redo records to discard should never happen (line
  1338). It can, in the undo after one that discarded: `UndoDiscards.UndoAfterDiscarding` says when,
  `UndoDiscards.ThirdUndoCanFail` shows three insertions that do it.
- `FixedSizeArenaAllocator.hpp` says its free list is always ordered (lines 142-143). Freeing puts
  the node in front, whatever its address; `ArenaModel.FreeKeepsOrderIff`, and a run in
  `ArenaModel.FreeListOutOfOrder`.
- `memory_mirroring.cpp` says the function fails if the region is not contained in an unused one
  (lines 74-75). It does not when `base + size` wraps; `Placeholders.SearchIsExact` and
  `Placeholders.WrappingSearch`.
- `ringbuffer.hpp` accepts every unsigned index type, but the full test of `insert` does not wrap
  for types narrower than `int`; `RingBuffer.FullTestExact`, and a run that loses an element in
  `Spsc.NarrowInsertOverwrites`. The emulator only uses `size_t`.

## Model

| member | source | states |
|---|---|---|
| Packing.RunIsSafe | thirdparty/imgui/imstb_rectpack.h:449-526 | after any sequence of packs, under either heuristic and any alignment, the placed rectangles are pairwise disjoint and inside the target, lie under the skyline, and active plus free nodes still number num_nodes + 2 on an active list strictly increasing from 0 to the width |
| Packing.StepKeepsInv | thirdparty/imgui/imstb_rectpack.h:449-526 | each pack, answered or refused, keeps that |
| Packing.AnswersAreApart | thirdparty/imgui/imstb_rectpack.h:546-584 | any two rectangles answered in one run are disjoint |
| Packing.AnswerIsPlaced | thirdparty/imgui/imstb_rectpack.h:463-499 | a rectangle that is answered is placed at that position and inside the target, nothing placed before it moves |
| Packing.PlacedStays | thirdparty/imgui/imstb_rectpack.h:449-526 | what was placed at one point of a run is there, unchanged, at every later point |
| Packing.PlacementIsSafe | thirdparty/imgui/imstb_rectpack.h:463-499 | raising the unaligned width over a strip found for the aligned width keeps every placed rectangle under the skyline |
| Packing.StepKeepsExact | thirdparty/imgui/imstb_rectpack.h:463-499 | with bottom-left placement, or at alignment 1, a placement leaves the skyline exactly as high as the tops of the rectangles over each column |
| Packing.SkylineIsEnvelope | thirdparty/imgui/imstb_rectpack.h:449-526 | so over whole runs the skyline is the upper envelope of the placed rectangles, not only a bound |
| Packing.BottomLeftIsDeterministic | thirdparty/imgui/imstb_rectpack.h:366-391 | bottom-left placement leaves no choice: two steps from the same state with the same request agree |
| Packing.EnoughNodes | thirdparty/imgui/imstb_rectpack.h:145-147 | with a node a column the free list is never empty |
| Packing.StarvesIffTooFewNodes | thirdparty/imgui/imstb_rectpack.h:149-150 | the promise that quantised widths never exhaust the nodes is false: with the alignment the least at which num_nodes times it covers the width, and bottom-left placement, some run starves, no node left while a rectangle would still fit, exactly when the target is at least 2 high and num_nodes < width, or 1 high and num_nodes + alignment <= width; never at height 0 |
| Packing.RunFills | thirdparty/imgui/imstb_rectpack.h:449-526 | in a target 1 high, bottom-left placement fills the bottom from left to right over any run: up to some column every node is at height 1, from it on the skyline is flat at 0 |
| Packing.StarvedLeavesRoom | thirdparty/imgui/imstb_rectpack.h:449-526 | so a run that starves in such a target needs num_nodes + alignment <= width |
| Skyline.TopFromSegments | thirdparty/imgui/imstb_rectpack.h:291-339 | the walk over nodes computes the maximum height over the columns of the strip |
| Skyline.SlideLeft | thirdparty/imgui/imstb_rectpack.h:366-391 | moving a strip left to the start of the segment under its left edge never raises it |
| Skyline.NodeSearchIsExhaustive | thirdparty/imgui/imstb_rectpack.h:366-391 | the best node position is best among all column positions, lowest first and then leftmost |
| Skyline.SpliceIsSkyline | thirdparty/imgui/imstb_rectpack.h:471-499 | the node surgery keeps the list strictly increasing from 0 to the width and its sentinel in place |
| Skyline.SpliceHeights | thirdparty/imgui/imstb_rectpack.h:471-499 | the surgery raises the columns from x up to where the cut node is pushed to and changes no other column |
| RectPacker.Packer.SearchNodes | thirdparty/imgui/imstb_rectpack.h:366-389 | the first loop's record is a lowest position among all node positions |
| RectPacker.Packer.SearchRightEdges | thirdparty/imgui/imstb_rectpack.h:410-441 | the second loop, for best fit, keeps the record a lowest position among all columns |
| RectPacker.Packer.ReleaseCovered | thirdparty/imgui/imstb_rectpack.h:485-493 | the covered nodes go from the active to the free list, no other link changes |
| RectPacker.Packer.HookFirstFree | thirdparty/imgui/imstb_rectpack.h:463-483 | the first free node is linked in at the chosen place |
| RectPacker.Packer.InitTarget | thirdparty/imgui/imstb_rectpack.h:265-288 | builds the two linked lists over one node pool, the skyline flat and all nodes free; the alignment is the least at which num_nodes aligned columns cover the width |
| RectPacker.Packer.SetupAllowOutOfMem | thirdparty/imgui/imstb_rectpack.h:245-263 | changes the alignment to 1, or without permission to the least at which num_nodes times it reaches the width, and nothing else |
| RectPacker.Packer.SetupHeuristic | thirdparty/imgui/imstb_rectpack.h:233-243 | changes the heuristic and nothing else |
| RectPacker.Packer.FindMinY | thirdparty/imgui/imstb_rectpack.h:291-339 | the linked walk returns the maximum height of the skyline over the strip |
| RectPacker.Packer.FindBestPos | thirdparty/imgui/imstb_rectpack.h:347-447 | the search through the links returns a lowest place (the leftmost for bottom-left), or nothing and then there is no room anywhere |
| RectPacker.Packer.InsertAt | thirdparty/imgui/imstb_rectpack.h:463-499 | the surgery on the links turns the active list into the splice of the skyline and conserves the nodes |
| RectPacker.Packer.Stitch | thirdparty/imgui/imstb_rectpack.h:481-499 | once the covered nodes are released, the new node, the kept ones and the cut one spell the splice, and no node is lost |
| RectPacker.Packer.Place | thirdparty/imgui/imstb_rectpack.h:463-499 | placing the rectangle at the position found is a step of the run model that answers it |
| RectPacker.Packer.PackRectangle | thirdparty/imgui/imstb_rectpack.h:449-526 | takes exactly one step of the run model, lists and pool intact; refuses exactly when no node is free or no column position, node-aligned or not, leaves room for the aligned width above the skyline |
| PackRects.KeyByIndex | thirdparty/imgui/imstb_rectpack.h:550-553 | every item is keyed by its index and otherwise unchanged |
| PackRects.QSort | thirdparty/imgui/imstb_rectpack.h:555-556 | rearranges the array so that the comparison ascends; nothing else about it is used |
| PackRects.PackOne | thirdparty/imgui/imstb_rectpack.h:559-569 | one item extends the run by one step, or is empty and put at the origin |
| PackRects.SetFlags | thirdparty/imgui/imstb_rectpack.h:575-580 | flags and the result as computed from the coordinates |
| PackRects.PackEach | thirdparty/imgui/imstb_rectpack.h:558-570 | packs the items one after another along a run; empty ones are put at the origin and take no space |
| PackRects.SortAndPack | thirdparty/imgui/imstb_rectpack.h:546-570 | after the keying, the first sort and the packing every item carries the answer to its own request, and the requests went tallest first, wider ones first among equals |
| PackRects.SortedIsTallestFirst | thirdparty/imgui/imstb_rectpack.h:527-537 | packing the non-empty items of an array sorted by the height comparison asks for them tallest first |
| PackRects.RestoreOrder | thirdparty/imgui/imstb_rectpack.h:572-573 | the second sort puts every item back at its own index, answers included, whatever order the first one left |
| PackRects.PackRects | thirdparty/imgui/imstb_rectpack.h:546-584 | every rectangle is back at its own index with its own answer to its own request, requests went tallest first, flags say which were packed, each of those at least 1 by 1 is inside the target and any two are disjoint, and the result says whether all were |
| PackRects.AscendingPermutation | thirdparty/imgui/imstb_rectpack.h:539-544 | a permutation in ascending order is the identity, so sorting by the stored index undoes the first sort |
| PackRects.OrderIsRestored | thirdparty/imgui/imstb_rectpack.h:572-573 | after the second sort each item carries its own index and its own size |
| PackRects.FlagsTellRoom | thirdparty/imgui/imstb_rectpack.h:575-583 | the flags written at the end distinguish exactly the rectangles that were refused |
| UndoModel.InverseUndoes | thirdparty/imgui/imstb_textedit.h:1283-1301 | the edit recorded for an edit takes its text back, and its own inverse is the edit again |
| UndoModel.ReplaceRecordUndoes | thirdparty/imgui/imstb_textedit.h:804-811 | typing a text over one character in insert mode records a replacement of one by one; the record takes the change back exactly when the text is one character long |
| UndoTheorems.UndoThenRedo | thirdparty/imgui/imstb_textedit.h:1303-1420 | undo then redo restores text, both stacks and both character points exactly when the undo found room for everything it stores |
| UndoTheorems.UndoThenRedoByLengths | thirdparty/imgui/imstb_textedit.h:1319-1352 | in numbers a caller can see: the undone edit added nothing, or what it added fits below 999 beside the undo characters and at most to 999 beside all characters stored |
| UndoTheorems.RedoAfterLoss | thirdparty/imgui/imstb_textedit.h:1330-1332 | where the undo records left no room for the redo characters, redo deletes what the undo had put back and inserts nothing |
| UndoTheorems.RedoThenUndo | thirdparty/imgui/imstb_textedit.h:1371-1420 | redo then undo is the identity in every coherent state, and the no-room branch of redo is never taken there |
| UndoTheorems.UndosThenRedos | thirdparty/imgui/imstb_textedit.h:1303-1420 | k undos that drop nothing, then k redos, restore the state, for every k |
| UndoTheorems.RedosThenUndos | thirdparty/imgui/imstb_textedit.h:1303-1420 | k redos, then k undos, restore the state, for every k |
| UndoTheorems.UndoStaysCoherent | thirdparty/imgui/imstb_textedit.h:1303-1369 | an undo that drops nothing leaves every redo record redoable within the character space |
| UndoTheorems.RedoStaysCoherent | thirdparty/imgui/imstb_textedit.h:1382-1397 | what the comment in redo claims: there is room for the undo record, because the redo record came from one |
| UndoTheorems.EditStaysCoherent | thirdparty/imgui/imstb_textedit.h:1259-1301 | recording an edit leaves both stacks within 99 records and 999 characters with every redo redoable, from any state whose undo stack has at most 99 records |
| UndoTheorems.DropUntilRoomFits | thirdparty/imgui/imstb_textedit.h:1276-1280 | the make-room loop ends with room, having dropped oldest records only and no more than it had to: one record more would not fit |
| UndoTheorems.RecordedAsMost | thirdparty/imgui/imstb_textedit.h:1259-1281 | a new record is stacked on the most of the newest records that leave a slot and room for its characters, or on an empty stack that it does not join when its characters can never fit |
| UndoTheorems.EditsKeepMost | thirdparty/imgui/imstb_textedit.h:1207-1301 | after any run of edits the undo stack is the newest of all records ever made, and the most of them that fit in 99 records and 999 characters |
| UndoTheorems.RunFollowsTape | thirdparty/imgui/imstb_textedit.h:1207-1420 | over any run of edits, undos and redos in which no undo drops anything, the text is the one a tape of past and future texts shows |
| UndoTheorems.EditMovesTape | thirdparty/imgui/imstb_textedit.h:1259-1301 | an edit cuts the future off and puts the old text into the past, of which the surviving records keep the most recent texts |
| UndoTheorems.UndoMovesTape | thirdparty/imgui/imstb_textedit.h:1303-1369 | an undo moves one text back along the tape |
| UndoTheorems.RedoMovesTape | thirdparty/imgui/imstb_textedit.h:1371-1420 | a redo moves one text forward |
| UndoTheorems.EditKeepsPast | thirdparty/imgui/imstb_textedit.h:1259-1301 | recording one edit, records that lead back through the most recent texts still do, the text before the edit now among them |
| UndoTheorems.EditsLeavePast | thirdparty/imgui/imstb_textedit.h:1207-1301 | however many records were discarded on the way, the surviving ones lead back through exactly the most recent texts |
| UndoDiscards.UndoRestoresText | thirdparty/imgui/imstb_textedit.h:1207-1369 | after any run of edits, k calls of undo that each undo something, discarding redo records or not, give the text before the last k edits; k undos that can keep every redo record are such calls |
| UndoDiscards.CanUndoUndoes | thirdparty/imgui/imstb_textedit.h:1303-1369 | where k undos discard nothing, the machine that knows of the stale records takes exactly the steps of the plain one |
| UndoDiscards.UndoAfterDiscarding | thirdparty/imgui/imstb_textedit.h:1330-1344 | the undo after one that discarded, decided beforehand by lengths: it undoes its edit exactly when it inserts nothing, has to give its characters up, or fits below the stale record or in its claimed room; it gives up when even that room is too small; it is undefined when the stale record claims more than the characters stored for it |
| UndoDiscards.UndoneIffFits | thirdparty/imgui/imstb_textedit.h:1330-1344 | from any state an undo takes its edit back exactly when it saves nothing or some number of discards, the first that makes enough room, stays within the array; it returns with nothing undone exactly when all claims together make too little room |
| UndoDiscards.MakeRoomAtFirstFit | thirdparty/imgui/imstb_textedit.h:1337-1343 | the loop stops after the first number of discards that makes room, if the characters then still lie within the array |
| UndoDiscards.MakeRoomExhausts | thirdparty/imgui/imstb_textedit.h:1337-1343 | it takes the exit called impossible exactly when all claims together leave too little room |
| UndoDiscards.TightUndoes | thirdparty/imgui/imstb_textedit.h:1337-1343 | as long as the claims and the free room add up to the array, that exit is never taken and every undo succeeds |
| UndoDiscards.UndoIsLoose | thirdparty/imgui/imstb_textedit.h:1303-1369 | from a coherent state the machine of claims takes the plain undo, or the discarding one that leaves a stale record |
| UndoDiscards.RedoIsLoose | thirdparty/imgui/imstb_textedit.h:1371-1420 | and the plain redo |
| UndoDiscards.UndoStaysSound | thirdparty/imgui/imstb_textedit.h:1303-1369 | an undo, stale records or not, keeps records and characters of the undo side clear of the redo side; when it gives up a slot is still free |
| UndoDiscards.NextLeads | thirdparty/imgui/imstb_textedit.h:1207-1420 | each edit, undo and redo, stale records or not, keeps the undo records leading back through the texts there were; an undo gives the newest of them, or changes neither text nor undo stack |
| UndoDiscards.RunLeads | thirdparty/imgui/imstb_textedit.h:1207-1420 | so does every run of them |
| UndoDiscards.ThirdUndo | thirdparty/imgui/imstb_textedit.h:1303-1369 | from a cleared state three insertions at 0, of which the last two together exceed 999 characters: two undos succeed, and the three lengths decide the third |
| UndoDiscards.ThirdUndoCanFail | thirdparty/imgui/imstb_textedit.h:1338-1340 | after insertions of 900, 700 and 400 characters the third undo takes the exit called impossible and undoes nothing; after 600, 500 and 600 it would move a negative number of characters |
| UndoTheorems.TwoLongInsertionsLoseRedo | thirdparty/imgui/imstb_textedit.h:1330-1344 | two insertions of 600 characters are enough for the second undo to lose the first undo's record |
| TextEdit.TextEdit.ClearState | thirdparty/imgui/imstb_textedit.h:1448-1464 | both stacks empty at opposite ends of the shared arrays |
| TextEdit.TextEdit.FlushRedo | thirdparty/imgui/imstb_textedit.h:1200-1204 | empties the redo stack whatever state it was in |
| UndoArrays.SlideDown | thirdparty/imgui/imstb_textedit.h:1211-1221 | the memmove of the characters, the shift of their positions and the memmove of the records drop exactly the oldest edit |
| UndoArrays.SlideUp | thirdparty/imgui/imstb_textedit.h:1235-1252 | the same at the other end; nothing below redo_point changes |
| TextEdit.TextEdit.DiscardUndo | thirdparty/imgui/imstb_textedit.h:1207-1223 | the oldest undo record goes; the rest, with the characters they store, slide down intact |
| TextEdit.TextEdit.DiscardRedo | thirdparty/imgui/imstb_textedit.h:1229-1257 | the record at the end of the redo side goes with the characters it claims, stale records included; undefined exactly when it claims more than is left of the array; in a coherent state it is the oldest redo edit and the rest slide up intact |
| UndoArrays.UndoDropsFirst | thirdparty/imgui/imstb_textedit.h:1211-1221 | after both slides the records still tile the characters from 0 to undo_char_point |
| UndoArrays.RedoDropsLast | thirdparty/imgui/imstb_textedit.h:1235-1255 | the same for the redo side, up to the end of the array |
| UndoArrays.ClaimsDropLast | thirdparty/imgui/imstb_textedit.h:1235-1255 | with a stale record on the redo side, the lengths claimed are still those of all records but the last |
| UndoArrays.SaveOnTop | thirdparty/imgui/imstb_textedit.h:1344-1351 | writing the characters below redo_char_point stacks the redo record when nothing was discarded, and otherwise leaves the stale one |
| UndoArrays.StaleFinds | thirdparty/imgui/imstb_textedit.h:1335-1344 | after a discarding undo the characters from redo_char_point on are those saved for the stale record, then those of the records kept |
| TextEdit.TextEdit.CreateUndoRecord | thirdparty/imgui/imstb_textedit.h:1259-1281 | whatever the redo side looked like, flushes it and reserves a record with room for its characters, dropping oldest records only and as few as that takes, or gives up all records when they can never fit |
| TextEdit.TextEdit.MakeUndo | thirdparty/imgui/imstb_textedit.h:1283-1301 | stacks the inverse of the change, with the deleted characters saved in the shared array, on the most of the newest records that can stay; with more than 999 characters to save the stack is empty; stale redo records are gone |
| TextEdit.TextEdit.MakeUndoInsert | thirdparty/imgui/imstb_textedit.h:1422-1425 | stacks the deletion of what was inserted |
| TextEdit.TextEdit.MakeUndoDelete | thirdparty/imgui/imstb_textedit.h:1427-1435 | stacks the insertion of the characters about to be deleted |
| TextEdit.TextEdit.MakeUndoReplace | thirdparty/imgui/imstb_textedit.h:1437-1445 | stacks both for one character |
| TextEdit.TextEdit.DeleteRange | thirdparty/imgui/imstb_textedit.h:630-635 | deleting is a step of the undo machine, also after an undo that discarded, and leaves the stacks coherent |
| TextEdit.TextEdit.InsertText | thirdparty/imgui/imstb_textedit.h:775-791 | inserting is a step of the undo machine, also after an undo that discarded; an empty insertion records nothing |
| TextEdit.TextEdit.ReplaceText | thirdparty/imgui/imstb_textedit.h:804-811 | replaces one character by any text and records a replacement of one by one; for a text of one character that is a step of the undo machine |
| TextEdit.TextEdit.MakeRoomForRedo | thirdparty/imgui/imstb_textedit.h:1336-1343 | the loop, its exit included, ends as the make-room function of claims and room says, found, given up or undefined, and never touches the undo side; in a coherent state it ends with room after discarding oldest redo records only |
| TextEdit.TextEdit.SaveRedo | thirdparty/imgui/imstb_textedit.h:1310-1352 | the redo record of each of the three cases with its characters, the stale record when records were discarded, or the exit |
| TextEdit.TextEdit.SaveRedoChars | thirdparty/imgui/imstb_textedit.h:1333-1352 | the branch that makes room and saves characters |
| TextEdit.TextEdit.SaveSlotChars | thirdparty/imgui/imstb_textedit.h:1344-1351 | the characters about to be deleted lie below the redo characters, claimed by the record in the slot |
| TextEdit.TextEdit.MoveToRedo | thirdparty/imgui/imstb_textedit.h:1310-1352 | whenever a redo record could be saved, the undo record read before is still the newest edit, its characters still in place |
| TextEdit.TextEdit.ReplaceChars | thirdparty/imgui/imstb_textedit.h:1354-1365 | deleting and re-inserting the stored characters applies the edit and leaves the cursor after it |
| TextEdit.TextEdit.CarryOut | thirdparty/imgui/imstb_textedit.h:1354-1368 | deleting and re-inserting, then moving both record points, takes back the newest edit and leaves the cursor after it |
| TextEdit.TextEdit.Undo | thirdparty/imgui/imstb_textedit.h:1303-1369 | from any state, stale records included, array undo does what the machine says: nothing, the exit, undefined, or the edit taken back; from a coherent state it ends in the plain step, or with the stale record and every kept record where it lies |
| TextEdit.TextEdit.SaveUndo | thirdparty/imgui/imstb_textedit.h:1378-1405 | stacks the inverse of the edit about to be redone with its characters, or gives both its lengths up for want of room, touching no other record and no other character |
| TextEdit.TextEdit.TakeNext | thirdparty/imgui/imstb_textedit.h:1378-1405 | saving the undo record takes the redo record off without disturbing those behind it; undefined exactly when its characters would run past the array |
| TextEdit.TextEdit.CarryOutRedo | thirdparty/imgui/imstb_textedit.h:1407-1419 | deleting and inserting what the record finds at its place redoes it and leaves the cursor after it |
| TextEdit.TextEdit.Redo | thirdparty/imgui/imstb_textedit.h:1371-1420 | from any state array redo inserts what its record finds, stale or not, as the machine of claims says; from a coherent state it is the plain step |
| RingBuffer.PowerOfTwoTest | thirdparty/ringbuffer/ringbuffer.hpp:339-341 | the static assertion n & (n - 1) == 0 accepts exactly the powers of two |
| RingBuffer.MaskIsMod | thirdparty/ringbuffer/ringbuffer.hpp:325-325 | masking with 2^k - 1 is the remainder modulo 2^k |
| RingBuffer.WrapKeepsSlot | thirdparty/ringbuffer/ringbuffer.hpp:347-348 | an index that has wrapped at the width of its type selects the slot of the unwrapped one |
| RingBuffer.SlotsDiffer | thirdparty/ringbuffer/ringbuffer.hpp:110-110 | indices fewer than the size apart select different slots |
| RingBuffer.FullTestExact | thirdparty/ringbuffer/ringbuffer.hpp:104-107 | the full test of insert is right exactly when the buffer is not full or the index type is at least as wide as int, or the head has not wrapped past the tail |
| RingBuffer.FullTestFails | thirdparty/ringbuffer/ringbuffer.hpp:104-107 | 8-bit indices 72 and 200 with all 128 slots full: the test sees -128 |
| RingBuffer.Ringbuffer.constructor | thirdparty/ringbuffer/ringbuffer.hpp:37-37 | empty, for any size and index type the static assertions accept |
| RingBuffer.Ringbuffer.Store | thirdparty/ringbuffer/ringbuffer.hpp:363-368 | the copy loop and the head store append the elements |
| RingBuffer.Ringbuffer.Load | thirdparty/ringbuffer/ringbuffer.hpp:422-427 | the copy loop and the tail store move the oldest elements out in order |
| RingBuffer.Ringbuffer.ReadAvailable | thirdparty/ringbuffer/ringbuffer.hpp:85-87 | wrapped subtraction gives the number of unread elements |
| RingBuffer.Ringbuffer.WriteAvailable | thirdparty/ringbuffer/ringbuffer.hpp:93-95 | and the number of free slots |
| RingBuffer.Ringbuffer.Insert | thirdparty/ringbuffer/ringbuffer.hpp:102-160 | refuses exactly when it recognises a full buffer and otherwise appends; at a full buffer it does not recognise it overwrites the oldest element and leaves the indices size + 1 apart |
| RingBuffer.Ringbuffer.RemoveInto | thirdparty/ringbuffer/ringbuffer.hpp:207-219 | returns and removes the oldest element, or reports an empty buffer |
| RingBuffer.Ringbuffer.RemoveMany | thirdparty/ringbuffer/ringbuffer.hpp:183-191 | removes the oldest min(cnt, available) elements |
| RingBuffer.Ringbuffer.WriteBuff | thirdparty/ringbuffer/ringbuffer.hpp:351-371 | appends the longest prefix that fits |
| RingBuffer.Ringbuffer.WriteBuffInChunks | thirdparty/ringbuffer/ringbuffer.hpp:373-408 | whatever the callback consumes between chunks, consumed followed by contents is the old contents followed by what was written, and writing stops early only at a full buffer; the callback first runs with count_to_callback elements written, if that is neither 0 nor too many, or else all there is room for |
| RingBuffer.Ringbuffer.ReadBuff | thirdparty/ringbuffer/ringbuffer.hpp:410-430 | moves the oldest min(count, available) elements into the array in order and leaves the rest of it alone |
| RingBuffer.Ringbuffer.WriteChunk | thirdparty/ringbuffer/ringbuffer.hpp:387-404 | one round: a chunk is stored, then the callback consumes |
| RingBuffer.Ringbuffer.ReadChunk | thirdparty/ringbuffer/ringbuffer.hpp:446-463 | one round: a chunk is loaded, then the callback produces |
| RingBuffer.Ringbuffer.ReadBuffInChunks | thirdparty/ringbuffer/ringbuffer.hpp:432-467 | whatever the callback produces between chunks, elements read followed by contents is the old contents followed by what was produced, and reading stops early only at an empty buffer; the callback first runs with count_to_callback elements read, if that is neither 0 nor too many, or else all there are |
| Spsc.WriteIsPrivate | thirdparty/ringbuffer/ringbuffer.hpp:110-110 | the slot about to be written holds no unread element, nor one already placed by the same call, and is not the slot the consumer is reading |
| Spsc.LoadTailKeepsInv | thirdparty/ringbuffer/ringbuffer.hpp:358-361 | from a possibly old tail the producer never plans more than is free; with the current one it plans exactly what fits |
| Spsc.LoadHeadKeepsInv | thirdparty/ringbuffer/ringbuffer.hpp:417-420 | from a possibly old head the consumer never plans more than is there |
| Spsc.WriteSlotKeepsInv | thirdparty/ringbuffer/ringbuffer.hpp:365-365 | a slot write disturbs neither unread elements nor the read in progress |
| Spsc.ReadSlotKeepsInv | thirdparty/ringbuffer/ringbuffer.hpp:424-424 | a slot read yields the element written at that place of the stream |
| Spsc.StoreTailKeepsInv | thirdparty/ringbuffer/ringbuffer.hpp:189-189 | after a read or a skip the elements consumed still match those written |
| Spsc.PlannedFits | thirdparty/ringbuffer/ringbuffer.hpp:358-361 | from any tail it may see, the producer plans exactly what that tail leaves room for, by wrapped subtraction or, where it works, by the full test of insert |
| Spsc.InsertTest | thirdparty/ringbuffer/ringbuffer.hpp:102-107 | insert plans the right number exactly when its full test works for the tail it sees; with the current tail a failing test means the next slot holds an unread element |
| Spsc.StepKeepsInv | thirdparty/ringbuffer/ringbuffer.hpp:102-219 | each load, slot access and index store of writes, inserts, reads and skips, in any order and with stale loads, keeps the protocol invariant, an insert being enabled where its full test works |
| Spsc.RunIsSafe | thirdparty/ringbuffer/ringbuffer.hpp:102-219 | for every interleaving of them the elements read are a prefix of those written, every unread element is still in its slot, and the wrapped difference of the indices is the exact occupancy, between 0 and the size |
| Spsc.NarrowInsertOverwrites | thirdparty/ringbuffer/ringbuffer.hpp:102-114 | without the condition on insert that is false: an 8-bit run reaches tail 200 and head 72 with 128 elements unread, from where insert overwrites the oldest of them |
| Spsc.SizeStays | thirdparty/ringbuffer/ringbuffer.hpp:351-430 | a run only appends to what was written and to what was consumed |
| Spsc.WriteAlone | thirdparty/ringbuffer/ringbuffer.hpp:102-371 | the steps of a write, or of an insert that is not misled by its full test, run without interference, append exactly what the sequential one appends |
| Spsc.ReadAlone | thirdparty/ringbuffer/ringbuffer.hpp:410-430 | and remove exactly what the sequential readBuff removes |
| AudioModel.HeardInOrder | psxemu/audio/AudioBackend.cpp:9-33 | after any run of pushes of pairs and callbacks, sound k is what the filter of its own side makes of that side's samples up to k: order kept, sides never swapped |
| AudioModel.StepKeepsInv | psxemu/audio/AudioBackend.cpp:9-33 | each push of pairs, callback or change of sync keeps the buffer even and the filters fed by what was played |
| AudioModel.ChannelsStayApart | psxemu/audio/AudioBackend.cpp:20-30 | interleaved filtering gives each side's filter exactly that side's samples in order |
| AudioModel.StoresPairs | psxemu/audio/AudioBackend.cpp:76-76 | without sync a push may lose its end, but only whole pairs, so what is stored stays even |
| AudioModel.PushStores | psxemu/audio/AudioBackend.cpp:65-76 | a push waits exactly when sync is on and it does not fit or the limit is reached; otherwise it is stored up to its end or until 8192 samples are buffered |
| AudioModel.SyncLosesNothing | psxemu/audio/AudioBackend.cpp:68-76 | with sync on, the samples stored and those of a push still waiting are all those pushed, in order |
| AudioModel.SyncedStep | psxemu/audio/AudioBackend.cpp:68-76 | each step keeps that, the one that lets a waiting push proceed included |
| AudioModel.ResumeStoresAll | psxemu/audio/AudioBackend.cpp:70-76 | a push that has waited stores all its samples, even if sync was switched off meanwhile |
| AudioModel.WaitEnds | psxemu/audio/AudioBackend.cpp:68-74 | callbacks let a waiting push proceed exactly when it has at most 8192 samples and the limit is positive, and then as many non-empty callbacks as there are buffered samples suffice |
| AudioBackend.AudioBackend.PushSamples | psxemu/audio/AudioBackend.cpp:65-77 | with sync on the critical section waits exactly when fewer than the pushed samples fit in 8192 or the limit is reached; otherwise it stores as many samples as fit, in order |
| AudioBackend.AudioBackend.Resume | psxemu/audio/AudioBackend.cpp:70-76 | a woken push looks at room and limit only, not at the flag; it stores everything exactly when it fits in 8192 and the limit is not reached, otherwise it waits on |
| AudioBackend.AudioBackend.Create | psxemu/audio/AudioBackend.cpp:35-61 | the program ends exactly when the limit is 8192 or more or the device does not open; otherwise the back end starts empty and synced |
| AudioBackend.AudioBackend.constructor | psxemu/audio/AudioBackend.cpp:35-37 | empty, synced, fresh filters |
| AudioBackend.AudioBackend.PlayPairs | psxemu/audio/AudioBackend.cpp:20-30 | the loop plays the oldest pairs in order over the start of the destination and leaves the rest of it |
| AudioBackend.AudioBackend.SyncToAudio | psxemu/audio/AudioBackend.hpp:30-32 | changes the flag only |
| AudioBackend.AudioBackend.Callback | psxemu/audio/AudioBackend.cpp:9-33 | plays the oldest samples asked for, as many as there are: sound k is what its own side of the samples makes of that filter, up to k; the rest of what was asked for is silence and nothing behind it changes |
| Gf2.DivisionIsUnique | thirdparty/hash/crc32.cpp:34-43 | over the field of two elements, division by a polynomial with a highest coefficient has one quotient and one remainder |
| CrcRemainder.NextRegister | thirdparty/hash/crc32.cpp:38-39 | one more message bit is one step of the division: the register bit shifted out, plus the bit, is the next coefficient of the quotient |
| CrcRemainder.RegisterIsRemainder | thirdparty/hash/crc32.cpp:34-43 | the register after a message, least significant bit first, is the remainder of the message with 32 zeros appended and its first 32 bits complemented, by the polynomial with powers 32, 26, 23, 22, 16, 12, 11, 10, 8, 7, 5, 4, 2, 1, 0 |
| CrcRemainder.CrcIffRemainder | thirdparty/hash/crc32.cpp:339-413 | a word is the CRC-32 of a message exactly when its complement is that remainder |
| Crc32.ShiftsLinear | thirdparty/hash/crc32.cpp:34-55 | any number of register shifts is linear over xor, the fact that justifies the eight tables |
| Crc32.LowBitTimes | thirdparty/hash/crc32.cpp:38-39 | the generating loop's multiplication by the low bit is the conditional xor of the polynomial |
| Crc32.TableLooksAhead | thirdparty/hash/crc32.cpp:45-55 | the table the recurrence calls k looks 8 (k + 1) shifts ahead |
| Crc32.TakeBitsAtOnce | thirdparty/hash/crc32.cpp:374-376 | taking in the bits of a byte one by one is adding the byte and shifting eight times |
| Crc32.TailStep | thirdparty/hash/crc32.cpp:375-376 | one table lookup takes in one byte, bit by bit |
| Crc32.TakeWord | thirdparty/hash/crc32.cpp:359-360 | four bytes loaded as one word are four bytes taken in one by one |
| Crc32.ByteStep | thirdparty/hash/crc32.cpp:376-376 | eight shifts of the whole register by one lookup |
| Crc32.LookUpWord | thirdparty/hash/crc32.cpp:361-368 | four lookups in consecutive tables look a whole word ahead |
| Crc32.RoundTakesEight | thirdparty/hash/crc32.cpp:359-368 | the eight lookups of a round take in exactly eight bytes |
| Crc32.BigEndianRoundTakesEight | thirdparty/hash/crc32.cpp:348-357 | so do those of the big-endian branch, on swapped words |
| Crc32.CRC32.Add | thirdparty/hash/crc32.cpp:339-379 | after any sequence of add calls the complement of the hash is the remainder of the concatenation by the polynomial of CRC-32, on machines of either byte order |
| Crc32.CRC32.constructor | thirdparty/hash/crc32.cpp:16-26 | the hash of the empty message |
| Crc32.CRC32.Reset | thirdparty/hash/crc32.cpp:23-26 | the hash of the empty message again |
| Crc32.CRC32.GetHash | thirdparty/hash/crc32.cpp:407-413 | so are the four bytes read back, most significant first |
| Sha256Checks.InitialFromRoots | thirdparty/hash/sha256.cpp:25-40 | the eight initial words are the first 32 bits of the fractional parts of the square roots of the first eight primes, section 5.3.3 of FIPS 180-4 |
| Sha256Checks.ConstantsFromRoots | thirdparty/hash/sha256.cpp:124-254 | the 64 constants are those of the cube roots of the first 64 primes, section 4.2.2 |
| Sha256Checks.DigestOfAbc | thirdparty/hash/sha256.cpp:97-254 | the digest of the three bytes abc is the published one, so rotations, schedule and rounds are those of the standard |
| Sha256.MajorityRewritten | thirdparty/hash/sha256.cpp:90-90 | the majority function with an operation fewer is that of section 4.1.2 of FIPS 180-4 |
| Sha256.LineIsRound | thirdparty/hash/sha256.cpp:121-131 | one line of the unrolled rounds is one round of section 6.2.2 |
| Sha256.EightRounds | thirdparty/hash/sha256.cpp:124-131 | eight lines with renamed registers are eight rounds, after which every register is back in its place |
| Sha256.LoadWords | thirdparty/hash/sha256.cpp:110-119 | on either byte order the first sixteen words are the block's big-endian words |
| Sha256.Extend | thirdparty/hash/sha256.cpp:143-148 | the piecewise extension of the words is the message schedule |
| Sha256.Group | thirdparty/hash/sha256.cpp:143-158 | extending the words by eight and eight rounds carry the standard loop eight rounds on |
| Sha256.ProcessBlock | thirdparty/hash/sha256.cpp:97-254 | for every state and block the unrolled function is the standard compression |
| Sha256Spec.SchedulePrefix | thirdparty/hash/sha256.cpp:143-233 | extending the schedule later does not change the words already there |
| Sha256Spec.HashBlocksConcat | thirdparty/hash/sha256.cpp:283-290 | hashing whole blocks in parts is hashing them at once |
| Sha256Spec.PaddingIsShortest | thirdparty/hash/sha256.cpp:306-323 | the number of zero bits is the smallest that leaves 64 bits in the last block, as in section 5.1.1 |
| Sha256Spec.PadFillsBlocks | thirdparty/hash/sha256.cpp:310-338 | the padded message is a whole number of blocks |
| Sha256Spec.LengthFieldExact | thirdparty/hash/sha256.cpp:340-357 | the digits of the length field write the length in bits exactly when it is below 2^64 |
| Sha256Spec.PaddedMessage | thirdparty/hash/sha256.cpp:306-357 | the padded message is the message, the byte 0x80, zeros, and eight bytes that read back, most significant first, as its length in bits exactly when it has fewer than 2^61 bytes; less than 73 bytes are added |
| Sha256Spec.DigitsValue | thirdparty/hash/sha256.cpp:349-357 | the digits to base 256 give the number |
| Sha256Spec.ByteFromIsMod | thirdparty/hash/sha256.cpp:350-357 | the conversion to a byte keeps the low eight bits |
| Sha256Spec.LengthFieldReadsBack | thirdparty/hash/sha256.cpp:349-357 | the bytes of the length field, read back, are the number of bits |
| Sha256Stream.BitsWrap | thirdparty/hash/sha256.cpp:341-341 | the wrapping 64-bit counters lose nothing but the bits above 64 |
| Sha256Stream.ShiftRightDivides | thirdparty/hash/sha256.cpp:350-357 | shifting right by whole bytes divides by a power of 256 |
| Sha256Stream.StoreLength | thirdparty/hash/sha256.cpp:350-357 | the eight stores write the number of bits, which reads back from those bytes, and nothing else |
| Sha256Stream.SHA256.constructor | thirdparty/hash/sha256.cpp:18-41 | the hash of no blocks, an empty buffer |
| Sha256Stream.SHA256.Fill | thirdparty/hash/sha256.cpp:264-268 | copies until the data or the buffer's room ends |
| Sha256Stream.SHA256.TakeFullBuffer | thirdparty/hash/sha256.cpp:271-277 | a full buffer becomes a block; the message does not change |
| Sha256Stream.SHA256.TakeBlocks | thirdparty/hash/sha256.cpp:283-290 | all full blocks of the data are compressed in order |
| Sha256Stream.SHA256.Add | thirdparty/hash/sha256.cpp:258-298 | for any split into calls the message is the concatenation: full blocks compressed in order, the rest buffered |
| Sha256Stream.SHA256.PadBuffers | thirdparty/hash/sha256.cpp:306-357 | the two buffers hold the rest of the message, the byte 0x80, the zeros and the length field, in one block or two; the last eight bytes of the last block read back as the number of bits |
| Sha256Stream.SHA256.WriteZeros | thirdparty/hash/sha256.cpp:328-338 | the byte 0x80 and the zeros follow the buffered bytes across both buffers |
| Sha256Stream.SHA256.ProcessBuffer | thirdparty/hash/sha256.cpp:302-364 | compresses the ending of the message and leaves the buffered bytes alone |
| Sha256Stream.DigestIs | thirdparty/hash/sha256.cpp:302-364 | with the blocks before, that is the hash of the padded message |
| Sha256Stream.SHA256.GetHash | thirdparty/hash/sha256.cpp:389-410 | returns the eight words of the digest of the message so far, each most significant byte first, and changes neither the message nor any later digest |
| Sha256Stream.RawHashReadsBack | thirdparty/hash/sha256.cpp:400-405 | each word of the hash can be read back from the bytes, big-endian |
| RenderModel.RunRefines | psxemu/renderer/GLRenderer.cpp:83-621 | for any run of operations in order, what the deferred renderer shows is what a renderer drawing at once shows: same primitives, vertices, blend state and sampled texture contents, in the same order |
| RenderModel.StepRefines | psxemu/renderer/GLRenderer.cpp:83-621 | each operation keeps that, and images differ only while a flag says so and no vertex buffer exceeds 9000 |
| RenderModel.VBlankSettles | psxemu/renderer/GLRenderer.cpp:83-86 | after VBlank nothing is queued or pending and both images are equal |
| RenderModel.FillNeedsAnEmptyQueue | psxemu/renderer/GLRenderer.cpp:631-632 | Fill, which does not flush, keeps the order of drawing exactly when nothing is queued |
| RenderModel.PrepareNeedsAnEmptyQueue | psxemu/renderer/GLRenderer.cpp:516-518 | PrepareBlit keeps the order of drawing exactly when the queue has been emptied before |
| RenderModel.SubmitKeepsInv | psxemu/renderer/GLRenderer.cpp:109-277 | a submission is drawn last, and the 9000 limit being a multiple of both vertex counts leaves room for it |
| RenderModel.FlatKeepsColor | psxemu/renderer/GLRenderer.cpp:126-140 | the three bytes put into flat vertices hold all 24 color bits of the first vertex |
| RenderModel.PrimIsDrawnFor | psxemu/renderer/GLRenderer.cpp:115-256 | vertex by vertex, a primitive carries position and, under their own names, color, clut_page, flags and uv of a textured vertex, the color of a shaded one, the three color bytes of a flat primitive |
| RenderModel.EncodeForgetsNothingUsed | psxemu/renderer/GLRenderer.cpp:115-256 | each pipeline's vertices keep the position, and two submissions are encoded alike exactly when everything their pipeline uses agrees |
| RenderModel.BlendIsFormula | psxemu/include/psxemu/GPU.hpp:36-41 | with the blend color and the second output of the texture shader, the blend state computes the formula each type is named for, B/2+F/2, B+F, B-F, B+F/4, clamped; a primitive that is not semi-transparent covers |
| RenderModel.OpaqueTexelCovers | shaders/textured_triangle.fragment:209-212 | an opaque texel of a semi-transparent triangle covers what is behind it exactly when the type is not the subtracting one or the texel is black; that type makes it black |
| RenderModel.ClosingEdgeNotChecked | psxemu/renderer/GLRenderer.cpp:98-106 | only consecutive vertices are compared: any triangle with an overlong edge is drawn all the same exactly when only the edge from its last vertex to its first is too long, and that edge then spans at most 2046 by 1022 pixels |
| RenderModel.MissedAtTwiceTheLimit | psxemu/renderer/GLRenderer.cpp:98-106 | every kind of triangle has one drawn at exactly that span |
| Renderer.JoinsGroup | psxemu/renderer/GLRenderer.cpp:287-293 | merging a command into the last one keeps the commands standing for the queue |
| Renderer.GroupLiesAt | psxemu/renderer/GLRenderer.cpp:383-389 | the vertices of a command lie in its pipeline's buffer at the sum of the earlier commands of that pipeline |
| Renderer.AssembleGroup | psxemu/renderer/GLRenderer.cpp:386-412 | drawing a command's vertices two or three at a time gives back its primitives |
| Renderer.OffsetsAdvance | psxemu/renderer/GLRenderer.cpp:421-421 | the pipeline offsets are the numbers of vertices drawn so far |
| Renderer.VertexBuffer.PushVertex | psxemu/renderer/VertexBuffer.hpp:84-97 | appends unless full, and then reports it |
| Renderer.VertexBuffer.constructor | psxemu/renderer/VertexBuffer.hpp:65-82 | an empty buffer of the given capacity |
| Renderer.VertexBuffer.Clear | psxemu/renderer/VertexBuffer.hpp:119-121 | forgets the vertices |
| Renderer.VertexBuffer.PushPrimitive | psxemu/renderer/Pipeline.hpp:57-59 | with room, all vertices of a primitive are stored in order |
| Renderer.Renderer.SetBlend | psxemu/renderer/GLRenderer.cpp:342-378 | the calls that set the blend equation and factors set the state whose formula BlendIsFormula gives |
| Renderer.Renderer.PushVertices | psxemu/renderer/GLRenderer.cpp:108-277 | with room for them, all vertices of a primitive end up in its pipeline, which holds those of the whole queue in order |
| Renderer.Renderer.AppendCommand | psxemu/renderer/GLRenderer.cpp:280-301 | the command list stands for the queue with the new primitive at its end |
| Renderer.Renderer.constructor | psxemu/renderer/GLRenderer.cpp:13-59 | equal images, nothing queued, five empty buffers |
| Renderer.Renderer.DrawFront | psxemu/renderer/GLRenderer.cpp:339-428 | one command draws its group at its pipeline's offset and leaves the list |
| Renderer.Renderer.DrawCommands | psxemu/renderer/GLRenderer.cpp:339-428 | the loop draws the whole queue in order |
| Renderer.Renderer.DrawBatch | psxemu/renderer/GLRenderer.cpp:303-446 | drawing the commands draws the queue in order onto the output and empties every buffer |
| Renderer.Renderer.FlushCommands | psxemu/renderer/GLRenderer.cpp:617-621 | nothing is queued or being drawn afterwards, and what is shown does not change |
| Renderer.Renderer.BeginCpuVramBlit | psxemu/renderer/GLRenderer.cpp:508-514 | empties the queue without waiting |
| Renderer.Renderer.PrepareBlit | psxemu/renderer/GLRenderer.cpp:516-518 | waits and brings the input up to date |
| Renderer.Renderer.CpuVramBlit | psxemu/renderer/GLRenderer.cpp:533-567 | blits onto the output, sampling the input, and marks the input out of date |
| Renderer.Renderer.EndBlit | psxemu/renderer/GLRenderer.cpp:569-571 | brings the input up to date |
| Renderer.Renderer.Fill | psxemu/renderer/GLRenderer.cpp:631-632 | marks the input out of date and fills the output at once |
| Renderer.Renderer.CommandFenceSync | psxemu/renderer/GLRenderer.cpp:448-476 | a finished batch leaves the input marked out of date |
| Renderer.Renderer.SyncTextures | psxemu/renderer/GLRenderer.cpp:61-81 | copies the output to the input exactly when marked; the opposite copy never happens |
| Renderer.Renderer.IsCulled | psxemu/renderer/GLRenderer.cpp:98-106 | exactly the primitives with two consecutive vertices too far apart are dropped |
| Renderer.Renderer.Submit | psxemu/renderer/GLRenderer.cpp:108-277 | no vertex is dropped, and the primitive queued last carries the submitted vertices field by field |
| Renderer.Renderer.DrawPrimitive | psxemu/renderer/GLRenderer.cpp:88-278 | culls, flushes at the limit or queues, as the model says; what is queued carries the submitted vertices field by field |
| Renderer.Renderer.VramCpuBlit | psxemu/renderer/GLRenderer.cpp:501-506 | what is downloaded is what has been submitted, drawn |
| Renderer.Renderer.VramVramBlit | psxemu/renderer/GLRenderer.cpp:573-615 | both images are what has been submitted, drawn, with the area copied from itself |
| Renderer.Renderer.VBlank | psxemu/renderer/GLRenderer.cpp:83-86 | the model's step |
| VramFill.PartsTile | psxemu/renderer/GLRenderer.cpp:647-721 | each pixel of the wrapped rectangle is in exactly one part, every other pixel in none |
| VramFill.FillCoversWrapped | psxemu/renderer/GLRenderer.cpp:647-721 | at any multiplier an upscaled pixel is cleared, once, exactly when its native pixel is in the wrapped rectangle |
| VramFill.Fill | psxemu/renderer/GLRenderer.cpp:631-722 | in each of the four branches the scissor boxes are the mask regions upscaled; the regions hit each pixel of the wrapped rectangle once, the boxes each upscaled pixel over it, and neither any other |
| Placeholders.SearchIsExact | psxemu/platform/memory_mirroring.cpp:81-87 | for a non-empty range below 2^64 the search succeeds exactly when the whole range is free |
| Placeholders.WrappingSearch | psxemu/platform/memory_mirroring.cpp:82-83 | a range whose end wraps is never free, yet found exactly when some free region starts at or below its base and ends at or above its end less 2^64 |
| Placeholders.RangeInOne | psxemu/platform/memory_mirroring.cpp:81-83 | a free range lies in one placeholder, because placeholders never touch |
| Placeholders.WrappingRequestGranted | psxemu/platform/memory_mirroring.cpp:82-83 | a wrapping request none of which is free is granted |
| Placeholders.SplitKeepsInv | psxemu/platform/memory_mirroring.cpp:89-123 | after a split free and allocated regions still cover every address once, and free regions are positive and do not touch |
| Placeholders.SplitTakesOut | psxemu/platform/memory_mirroring.cpp:80-126 | a free range is taken out and allocated, all else as before; any other request below 2^64 changes nothing |
| Placeholders.SplitOfNothing | psxemu/platform/memory_mirroring.cpp:113-123 | a request of size 0 changes no address, and the regions stay separate exactly when its base is inside none of them |
| Placeholders.WrappedRemains | psxemu/platform/memory_mirroring.cpp:94-123 | the pieces a wrapping request leaves of a region cover all of it and at least one address too many |
| Placeholders.SplitWrapping | psxemu/platform/memory_mirroring.cpp:80-126 | so the list then claims to be free all that was and an address that was not, exactly when the request is granted |
| Placeholders.EmptySplitSeparates | psxemu/platform/memory_mirroring.cpp:113-123 | a split of size 0 leaves regions that touch exactly when its point is inside a region |
| Placeholders.AddressSpace.Find | psxemu/platform/memory_mirroring.cpp:81-87 | the first region the predicate accepts, if any |
| Placeholders.AddressSpace.constructor | psxemu/platform/memory_mirroring.cpp:145-148 | one region that is the whole space |
| Placeholders.AddressSpace.SplitRegion | psxemu/platform/memory_mirroring.cpp:80-126 | for any request, wrapping and empty ones included, replaces the first region found by its remains; a non-empty one below 2^64 takes out exactly the requested range or, exactly when it is not free, nothing |
| ArenaModel.AllocKeepsInv | common/FixedSizeArenaAllocator.hpp:118-138 | null exactly when every node is in use, otherwise an unused node; the list stays exactly the unused nodes of index 1 and above |
| ArenaModel.FreeKeepsInv | common/FixedSizeArenaAllocator.hpp:147-170 | succeeds exactly for a pool node in use and changes only that one |
| ArenaModel.HeldPointersAreDistinct | common/FixedSizeArenaAllocator.hpp:96-170 | after any calls the pointers held are distinct nodes of the pool, and allocation fails exactly when all nodes are held |
| ArenaModel.FreeKeepsOrderIff | common/FixedSizeArenaAllocator.hpp:140-145 | the comment that the free list is always ordered is false: freeing keeps it ordered exactly when the node is below all free ones |
| ArenaModel.FreeListOutOfOrder | common/FixedSizeArenaAllocator.hpp:140-145 | three allocations, then nodes 1 and 2 freed: the list is 2, 1 |
| Arena.FixedArenaAllocator.constructor | common/FixedSizeArenaAllocator.hpp:96-104 | links all nodes behind node 0 in order |
| Arena.FixedArenaAllocator.Alloc | common/FixedSizeArenaAllocator.hpp:118-138 | takes the model's step on the links: acyclic, ending in null, through exactly the unused nodes |
| Arena.FixedArenaAllocator.Free | common/FixedSizeArenaAllocator.hpp:147-170 | takes the model's step on the links; any other pointer is refused |
| SimpleWav.Check | wave/SimpleWav.cpp:22-64 | exactly the accepted formats, with the first failing check as the error |
| SimpleWav.BlockSizePositive | wave/SimpleWav.cpp:66-72 | an accepted format has a block size to divide by exactly when it has bits in a sample; zero bits are accepted |
| SimpleWav.DataSizeField | wave/SimpleWav.cpp:112-136 | the block count may wrap in 32 bits, but the byte count written from it is right modulo 2^32 |
| SimpleWav.FlushedIsWritten | wave/SimpleWav.cpp:66-95 | once flushed, the file's samples are all samples accepted, wherever the flushes fell |
| SimpleWav.SameSamplesSameFile | wave/SimpleWav.cpp:66-95 | two runs that write the same samples end in the same file, the one a single flush writes |
| SimpleWav.SimpleWav.constructor | wave/SimpleWav.cpp:49-63 | for any accepted format, zero bits included: nothing written, nothing waiting, no file contents |
| SimpleWav.HeadersAreComplete | wave/SimpleWav.cpp:120-136 | the headers written from the wrapped block count are those of the single-shot file |
| SimpleWav.SimpleWav.WriteSamples | wave/SimpleWav.cpp:66-81 | divides by zero exactly when a sample has no bits; otherwise appends whole blocks and refuses anything else without effect |
| SimpleWav.SimpleWav.WriteHeaders | wave/SimpleWav.cpp:107-143 | replaces the first 44 bytes by the headers for all samples so far |
| SimpleWav.SimpleWav.WriteData | wave/SimpleWav.cpp:145-158 | writes the new samples after the old ones, over their pad byte |
| SimpleWav.SimpleWav.FlushData | wave/SimpleWav.cpp:83-95 | with samples waiting, the file becomes the complete file for all samples so far |
| WavFile.FlushExtends | wave/SimpleWav.cpp:91-92 | overwriting headers and appending turns the complete file for some samples into the complete file for more |
| WavFile.SizesReadBack | wave/SimpleWav.cpp:120-136 | the file ends in a zero byte if the number of bytes of samples is odd, has even length, and the RIFF size is its length minus 8, and the data size that of the samples, exactly when they fit 32 bits |
| WavFile.FormatInFile | wave/SimpleWav.cpp:119-141 | the chunk names and every field of the format chunk lie at their places in the file |
| WavFile.FormatReadsBack | wave/SimpleWav.cpp:125-132 | read back from their places, format, channels, rate and bits are those given; the byte rate is rate times bytes a sample times channels and the block size bytes a sample times channels, exactly when they fit 32 and 16 bits |

## Left out

- RectPacker.Packer.FindBestPos: says that a lowest place is found, not which of several equally low ones best fit prefers, because the wasted area it compares is over-counted when the first node starts left of the strip.
- RectPacker.Packer.InitTarget: the nodes are a sequence held by the packer, not memory of the caller, so a caller who overwrites them is not modelled; the area and coordinate sums are unbounded.
- Packing.StarvesIffTooFewNodes: bottom-left placement; which runs of best fit starve is not decided.
- UndoDiscards.RunLeads: runs end where a step is undefined, and do not go through a redo that gives its lengths up for want of room, after which the program itself no longer knows how to get back.
- TextEdit.TextEdit.InsertText: insertions and deletions of the string always succeed in full; selections, layout, cursor motion and the mouse are not modelled.
- Spsc.RunIsSafe: slot accesses take effect in order once the index store that follows them is seen; weaker hardware orderings and `producerClear`, which its comment calls racy, are not modelled, nor are `peek`, `at` and `operator[]`.
- AudioBackend.AudioBackend.PushSamples: pushes are of whole pairs and callbacks ask for whole frames, as SDL's do; after an odd push the sides would swap.
- Crc32.CRC32.Add: the 2048 table entries are the values of the recurrences the file quotes, not compared one by one with the literals; the hexadecimal form of the hash is not modelled.
- Sha256Stream.SHA256.GetHash: the bytes of the digest, not their hexadecimal form; the seeds of SHA-224 are not modelled.
- Renderer.Renderer.DrawPrimitive: vertex counts that do not match the kind of primitive stop the program and are not modelled; scissor and uniform changes while primitives are queued are the callers' concern, and the drawing by GL, including the mask image, is the order and content of the draws.
- Renderer.Renderer.CommandFenceSync: the wait for the GPU is a step that ends.
- VramFill.Fill: offsets and sizes in the range the GPU command gives; the clear color is floating point and left out.
- Placeholders.AddressSpace.SplitRegion: the list has changed even when `VirtualFree` fails, and the model says so by its result only.
- SimpleWav.SimpleWav.constructor: running out of memory is not modelled, and moving a writer is not.
- Sorting by the C library is any sort; that `qsort` is one is not proved.
- The arena's element type, its alignment check and pointers into the middle of a node.
- CD drive, controllers, ADPCM, the file dialog, windows, debug views and configuration: user interface and input/output, or implementations that are not part of this model.
